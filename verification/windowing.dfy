/** Positional windows: Take, Skip and Reverse. Take and Skip clamp their
    count into [0, len] instead of reporting NegativeParam. */
module Windowing {
  import opened Types

  /** The count Take and Skip actually use: n clamped into [0, len]. */
  function Clamp(n: int, len: nat): (c: nat)
    ensures c <= len
    ensures 0 <= n <= len ==> c == n
    ensures n < 0 ==> c == 0
    ensures n > len ==> c == len
  {
    if n < 0 then 0 else if n >= len then len else n
  }

  /** Take keeps the prefix of the clamped length. */
  function Take<T>(q: Q<T>, n: int): (r: Q<T>)
    ensures q.err.Some? ==> r == Q([], q.err)
    ensures q.err.None? ==> r.err.None? && r.values <= q.values
    ensures q.err.None? ==> |r.values| == Clamp(n, |q.values|)
  {
    if q.err.Some? then Q([], q.err)
    else Q(q.values[..Clamp(n, |q.values|)], None)
  }

  /** Skip drops the prefix of the clamped length and keeps the rest. */
  function Skip<T>(q: Q<T>, n: int): (r: Q<T>)
    ensures q.err.Some? ==> r == Q([], q.err)
    ensures q.err.None? ==> r.err.None? && |r.values| == |q.values| - Clamp(n, |q.values|)
    ensures q.err.None? ==>
              forall i :: 0 <= i < |r.values| ==> r.values[i] == q.values[Clamp(n, |q.values|) + i]
  {
    if q.err.Some? then Q([], q.err)
    else Q(q.values[Clamp(n, |q.values|)..], None)
  }

  /** Take(n) followed by Skip(n) gives back the whole sequence, for every n,
      negative and oversized ones included. */
  lemma TakeSkipSplit<T>(q: Q<T>, n: int)
    requires q.err.None?
    ensures Take(q, n).values + Skip(q, n).values == q.values
  {
  }

  /** A negative count acts as 0 and an oversized count as the length. */
  lemma TakeSkipClampEdges<T>(q: Q<T>, n: int)
    requires q.err.None?
    ensures n <= 0 ==> Take(q, n) == Q([], None) && Skip(q, n) == q
    ensures n >= |q.values| ==> Take(q, n) == q && Skip(q, n) == Q([], None)
  {
  }

  /** Reverse builds a fresh sequence holding the elements back to front,
      taking the last element first as the Go loop does. */
  function Reverse<T>(q: Q<T>): (r: Q<T>)
    decreases |q.values|
    ensures q.err.Some? ==> r == Q([], q.err)
    ensures q.err.None? ==> r.err.None? && |r.values| == |q.values|
    ensures q.err.None? ==>
              forall j :: 0 <= j < |q.values| ==> r.values[j] == q.values[|q.values| - 1 - j]
  {
    if q.err.Some? then Q([], q.err)
    else if |q.values| == 0 then Q([], None)
    else
      var n := |q.values|;
      Q([q.values[n - 1]] + Reverse(Q(q.values[..n - 1], None)).values, None)
  }

  /** Reversing an unfaulted pipeline twice gives it back. */
  lemma ReverseInvolutive<T>(q: Q<T>)
    requires q.err.None?
    ensures Reverse(Reverse(q)) == q
  {
    var r := Reverse(Reverse(q));
    assert r.values == q.values;
  }

  /** Reversal preserves the multiset of elements. */
  lemma {:induction false} ReversePermutes<T>(q: Q<T>)
    requires q.err.None?
    ensures multiset(Reverse(q).values) == multiset(q.values)
    decreases |q.values|
  {
    var v := q.values;
    if |v| > 0 {
      var n := |v|;
      ReversePermutes(Q(v[..n - 1], None));
      assert v == v[..n - 1] + [v[n - 1]];
    }
  }
}

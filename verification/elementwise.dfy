/** The element-wise operators Where (filter) and Select (map). Both scan
    front to back and stop at the first callback error, which becomes the
    fault of the result; the values produced before that error stay in the
    result, as in the Go code. */
module Elementwise {
  import opened Types

  /** Where keeps, in order, the elements the predicate accepts. */
  function Where<T>(q: Q<T>, p: Option<T -> Outcome<bool>>): (r: Q<T>)
    decreases |q.values|
    ensures q.err.Some? ==> r == Q([], q.err)
    ensures q.err.None? && p.None? ==> r == Q([], Some(NilFunc))
    ensures q.err.None? && p.Some? ==> (r.err.None? <==> AllOk(p.value, q.values))
    ensures IsSubseq(r.values, q.values)
    ensures forall x :: x in r.values ==> x in q.values
    ensures p.Some? ==> forall x :: x in r.values ==> Holds(p.value, x)
    ensures q.err.None? && p.Some? && r.err.None? ==>
              forall x :: x in q.values ==>
                multiset(r.values)[x] == if Holds(p.value, x) then multiset(q.values)[x] else 0
    ensures q.err.None? && p.Some? && r.err.Some? ==>
              exists k :: 0 <= k < |q.values| && p.value(q.values[k]) == Fail(r.err.value)
  {
    if q.err.Some? then Q([], q.err)
    else if p.None? then Q([], Some(NilFunc))
    else if |q.values| == 0 then Q([], None)
    else
      var v := q.values;
      assert v == [v[0]] + v[1..];
      match p.value(v[0])
      case Fail(e) => Q([], Some(e))
      case Ok(keep) =>
        var rest := Where(Q(v[1..], None), p);
        var r := Q((if keep then [v[0]] else []) + rest.values, rest.err);
        WhereStep(keep, v, p.value, rest);
        r
  }

  /** The inductive step of Where: what the recursive call promises about
      the tail carries over to the whole sequence once its head is kept or
      dropped. */
  lemma WhereStep<T>(keep: bool, v: seq<T>, p: T -> Outcome<bool>, rest: Q<T>)
    requires |v| > 0 && p(v[0]) == Ok(keep)
    requires rest.err.None? <==> AllOk(p, v[1..])
    requires IsSubseq(rest.values, v[1..])
    requires forall x :: x in rest.values ==> x in v[1..]
    requires forall x :: x in rest.values ==> Holds(p, x)
    requires rest.err.None? ==>
               forall x :: x in v[1..] ==>
                 multiset(rest.values)[x] == if Holds(p, x) then multiset(v[1..])[x] else 0
    requires rest.err.Some? ==> exists k :: 0 <= k < |v[1..]| && p(v[1..][k]) == Fail(rest.err.value)
    ensures var r := (if keep then [v[0]] else []) + rest.values;
            && (rest.err.None? <==> AllOk(p, v))
            && IsSubseq(r, v)
            && (forall x :: x in r ==> x in v)
            && (forall x :: x in r ==> Holds(p, x))
            && (rest.err.None? ==>
                  forall x :: x in v ==> multiset(r)[x] == if Holds(p, x) then multiset(v)[x] else 0)
            && (rest.err.Some? ==> exists k :: 0 <= k < |v| && p(v[k]) == Fail(rest.err.value))
  {
    assert v == [v[0]] + v[1..];
    SubseqStep(keep, rest.values, v);
    if rest.err.None? {
      FilterCountStep(keep, rest.values, v, p);
    }
    if AllOk(p, v[1..]) {
      forall i | 0 <= i < |v| ensures p(v[i]).Ok? {
        if i > 0 { assert v[i] == v[1..][i - 1]; }
      }
    }
    if rest.err.Some? {
      var k :| 0 <= k < |v[1..]| && p(v[1..][k]) == Fail(rest.err.value);
      assert v[k + 1] == v[1..][k];
    }
  }

  /** Keeping or dropping the head of `b` preserves a subsequence of its tail. */
  lemma SubseqStep<T>(keep: bool, a: seq<T>, b: seq<T>)
    requires |b| > 0 && IsSubseq(a, b[1..])
    ensures IsSubseq((if keep then [b[0]] else []) + a, b)
  {
    var c := (if keep then [b[0]] else []) + a;
    if keep {
      assert c[0] == b[0] && c[1..] == a;
    } else {
      assert c == a;
    }
  }

  /** The multiplicity law of Where survives putting the head back. */
  lemma FilterCountStep<T>(keep: bool, a: seq<T>, v: seq<T>, p: T -> Outcome<bool>)
    requires |v| > 0 && p(v[0]) == Ok(keep)
    requires forall x :: x in v[1..] ==> multiset(a)[x] == if Holds(p, x) then multiset(v[1..])[x] else 0
    requires forall x :: x in a ==> x in v[1..]
    ensures forall x :: x in v ==>
              multiset((if keep then [v[0]] else []) + a)[x] == if Holds(p, x) then multiset(v)[x] else 0
  {
    assert v == [v[0]] + v[1..];
    forall x | x in v
      ensures multiset((if keep then [v[0]] else []) + a)[x] == if Holds(p, x) then multiset(v)[x] else 0
    {
      if x !in v[1..] {
        assert multiset(a)[x] == 0;
        assert multiset(v[1..])[x] == 0;
      }
    }
  }

  /** Select replaces every element by the callback's value, one for one. */
  function Select<T, U>(q: Q<T>, f: Option<T -> Outcome<U>>): (r: Q<U>)
    decreases |q.values|
    ensures q.err.Some? ==> r == Q([], q.err)
    ensures q.err.None? && f.None? ==> r == Q([], Some(NilFunc))
    ensures q.err.None? && f.Some? ==> (r.err.None? <==> AllOk(f.value, q.values))
    ensures |r.values| <= |q.values|
    ensures f.Some? ==> forall i :: 0 <= i < |r.values| ==> f.value(q.values[i]) == Ok(r.values[i])
    ensures q.err.None? && f.Some? && r.err.None? ==> |r.values| == |q.values|
    ensures q.err.None? && f.Some? && r.err.Some? ==>
              |r.values| < |q.values| && f.value(q.values[|r.values|]) == Fail(r.err.value)
  {
    if q.err.Some? then Q([], q.err)
    else if f.None? then Q([], Some(NilFunc))
    else if |q.values| == 0 then Q([], None)
    else
      var v := q.values;
      match f.value(v[0])
      case Fail(e) => Q([], Some(e))
      case Ok(y) =>
        var rest := Select(Q(v[1..], None), f);
        assert AllOk(f.value, v) <==> AllOk(f.value, v[1..]) by {
          if AllOk(f.value, v[1..]) {
            forall i | 0 <= i < |v| ensures f.value(v[i]).Ok? {
              if i > 0 { assert v[i] == v[1..][i - 1]; }
            }
          }
        }
        Q([y] + rest.values, rest.err)
  }

  /** When the callback first fails at position k, Where's result carries
      that error together with exactly the elements Where keeps from the
      prefix before k. */
  lemma {:induction false} WhereStopsAtFirstFailure<T>(v: seq<T>, p: T -> Outcome<bool>, k: nat)
    requires k < |v| && p(v[k]).Fail?
    requires AllOk(p, v[..k])
    ensures Where(Q(v, None), Some(p)) == Q(Where(Q(v[..k], None), Some(p)).values, Some(p(v[k]).error))
    decreases k
  {
    if k > 0 {
      assert p(v[0]) == p(v[..k][0]);
      var w := v[1..][..k - 1];
      assert w == v[..k][1..];
      assert AllOk(p, w) by {
        forall i | 0 <= i < k - 1 ensures p(w[i]).Ok? {
          assert w[i] == v[..k][i + 1];
        }
      }
      WhereStopsAtFirstFailure(v[1..], p, k - 1);
    }
  }

  /** Every element Where keeps satisfies the predicate, so filtering again
      keeps them all. */
  lemma {:induction false} WhereKeepsAllHolding<T>(v: seq<T>, p: T -> Outcome<bool>)
    requires forall x :: x in v ==> Holds(p, x)
    ensures Where(Q(v, None), Some(p)) == Q(v, None)
    decreases |v|
  {
    if |v| > 0 {
      assert Holds(p, v[0]) by { assert v[0] in v; }
      var t := v[1..];
      assert forall x :: x in t ==> Holds(p, x) by {
        forall x | x in t ensures Holds(p, x) { assert x in v; }
      }
      WhereKeepsAllHolding(t, p);
      assert Where(Q(v, None), Some(p)) == Q([v[0]] + Where(Q(t, None), Some(p)).values, None);
      assert v == [v[0]] + t;
    }
  }

  /** Where is idempotent: a second pass with the same predicate leaves the
      fault unchanged, and leaves everything unchanged when the first pass
      did not fail. */
  lemma WhereIdempotent<T>(q: Q<T>, p: Option<T -> Outcome<bool>>)
    ensures Where(Where(q, p), p).err == Where(q, p).err
    ensures Where(q, p).err.None? ==> Where(Where(q, p), p) == Where(q, p)
  {
    var r := Where(q, p);
    if r.err.None? {
      WhereKeepsAllHolding(r.values, p.value);
    }
  }
}

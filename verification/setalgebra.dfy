/** Deduplication and set algebra. Distinct, Union, Intersect and Except
    fill a Go map keyed by the values and then list its keys; map iteration
    order is unspecified, so the listing is a choice and the contracts speak
    about the set of values only. DistinctBy is the quadratic scan with a
    caller-supplied equality, which keeps the leftmost representatives. */
module SetAlgebra {
  import opened Types

  /** Inserting every value of v into a map whose keys are `acc`. */
  method AddAll<T(==)>(acc: set<T>, v: seq<T>) returns (s: set<T>)
    ensures s == acc + Elems(v)
  {
    s := acc;
    var k := 0;
    while k < |v|
      invariant 0 <= k <= |v|
      invariant s == acc + Elems(v[..k])
    {
      assert v[..k + 1] == v[..k] + [v[k]];
      s := s + {v[k]};
      k := k + 1;
    }
    assert v[..k] == v;
  }

  /** Listing the keys of a map, in an order of the method's choosing. */
  method Enumerate<T(==)>(s: set<T>) returns (r: seq<T>)
    ensures Elems(r) == s
    ensures NoDup(r)
    ensures |r| == |s|
  {
    r := [];
    var rest := s;
    while rest != {}
      invariant rest <= s
      invariant Elems(r) == s - rest
      invariant NoDup(r)
      invariant |r| + |rest| == |s|
      decreases |rest|
    {
      var x :| x in rest;
      assert x !in Elems(r);
      assert Elems(r + [x]) == Elems(r) + {x};
      r := r + [x];
      rest := rest - {x};
    }
  }

  /** Distinct lists each value of the receiver exactly once. */
  method Distinct<T(==)>(q: Q<T>) returns (r: Q<T>)
    ensures q.err.Some? ==> r == Q([], q.err)
    ensures q.err.None? ==> r.err.None? && NoDup(r.values) && Elems(r.values) == Elems(q.values)
  {
    if q.err.Some? {
      return Q([], q.err);
    }
    var dict := AddAll({}, q.values);
    var res := Enumerate(dict);
    return Q(res, None);
  }

  /** Union lists each value of the receiver or of the argument exactly
      once; a nil argument counts as empty. */
  method Union<T(==)>(q: Q<T>, other: Option<seq<T>>) returns (r: Q<T>)
    ensures q.err.Some? ==> r == Q([], q.err)
    ensures q.err.None? ==>
              r.err.None? && NoDup(r.values) &&
              Elems(r.values) == Elems(q.values) + Elems(OrEmpty(other))
  {
    if q.err.Some? {
      return Q([], q.err);
    }
    var set1 := AddAll({}, q.values);
    var set2 := AddAll(set1, OrEmpty(other));
    var res := Enumerate(set2);
    return Q(res, None);
  }

  /** Intersect lists each value found in both the receiver and the
      argument exactly once; a nil argument counts as empty. */
  method Intersect<T(==)>(q: Q<T>, other: Option<seq<T>>) returns (r: Q<T>)
    ensures q.err.Some? ==> r == Q([], q.err)
    ensures q.err.None? ==>
              r.err.None? && NoDup(r.values) &&
              Elems(r.values) == Elems(q.values) * Elems(OrEmpty(other))
  {
    if q.err.Some? {
      return Q([], q.err);
    }
    var seen := AddAll({}, q.values);
    var intersection: set<T> := {};
    var w := OrEmpty(other);
    var k := 0;
    while k < |w|
      invariant 0 <= k <= |w|
      invariant seen == Elems(q.values) - Elems(w[..k])
      invariant intersection == Elems(q.values) * Elems(w[..k])
    {
      assert w[..k + 1] == w[..k] + [w[k]];
      if w[k] in seen {
        seen := seen - {w[k]};
        intersection := intersection + {w[k]};
      }
      k := k + 1;
    }
    assert w[..k] == w;
    var res := Enumerate(intersection);
    return Q(res, None);
  }

  /** Except lists each value of the receiver that is absent from the
      argument exactly once; a nil argument counts as empty. */
  method Except<T(==)>(q: Q<T>, other: Option<seq<T>>) returns (r: Q<T>)
    ensures q.err.Some? ==> r == Q([], q.err)
    ensures q.err.None? ==>
              r.err.None? && NoDup(r.values) &&
              Elems(r.values) == Elems(q.values) - Elems(OrEmpty(other))
  {
    if q.err.Some? {
      return Q([], q.err);
    }
    var seen := AddAll({}, q.values);
    var w := OrEmpty(other);
    var k := 0;
    while k < |w|
      invariant 0 <= k <= |w|
      invariant seen == Elems(q.values) - Elems(w[..k])
    {
      assert w[..k + 1] == w[..k] + [w[k]];
      seen := seen - {w[k]};
      k := k + 1;
    }
    assert w[..k] == w;
    var res := Enumerate(seen);
    return Q(res, None);
  }

  /** Ranging over a nil slice visits nothing. */
  function OrEmpty<T>(s: Option<seq<T>>): (r: seq<T>)
    ensures s.Some? ==> r == s.value
    ensures s.None? ==> r == []
  {
    if s.Some? then s.value else []
  }

  // ------------------------------------------------------------ DistinctBy

  /** Some kept position before j has an element `eq` declares equal to v[j]. */
  ghost predicate MarkedBy<T>(v: seq<T>, eq: (T, T) -> Outcome<bool>, kept: seq<int>, j: int)
    requires 0 <= j < |v|
    requires forall a :: 0 <= a < |kept| ==> 0 <= kept[a] < |v|
  {
    exists a :: 0 <= a < |kept| && kept[a] < j && eq(v[kept[a]], v[j]) == Ok(true)
  }

  /** `kept` lists strictly increasing positions of v. */
  ghost predicate Increasing(kept: seq<int>, n: int) {
    && (forall a :: 0 <= a < |kept| ==> 0 <= kept[a] < n)
    && (forall a, b :: 0 <= a < b < |kept| ==> kept[a] < kept[b])
  }

  /** The positions DistinctBy keeps: position 0 (when there is one); no two
      kept elements equal under `eq`, the earlier one compared to the later;
      every dropped element equal to an earlier kept one. */
  ghost predicate LeftmostRepresentatives<T>(v: seq<T>, eq: (T, T) -> Outcome<bool>, kept: seq<int>) {
    && Increasing(kept, |v|)
    && (|v| > 0 ==> |kept| > 0 && kept[0] == 0)
    && (forall a, b :: 0 <= a < b < |kept| ==> eq(v[kept[a]], v[kept[b]]) == Ok(false))
    && (forall j :: 0 <= j < |v| && j !in kept ==> MarkedBy(v, eq, kept, j))
  }

  /** Adding one more kept position i marks exactly the later elements that
      `eq` declares equal to v[i]. */
  lemma MarkedByAppend<T>(v: seq<T>, eq: (T, T) -> Outcome<bool>, kept: seq<int>, i: int, j: int)
    requires 0 <= i < |v| && 0 <= j < |v|
    requires forall a :: 0 <= a < |kept| ==> 0 <= kept[a] < |v|
    ensures MarkedBy(v, eq, kept + [i], j) <==>
              MarkedBy(v, eq, kept, j) || (i < j && eq(v[i], v[j]) == Ok(true))
  {
    var k2 := kept + [i];
    if MarkedBy(v, eq, k2, j) {
      var a :| 0 <= a < |k2| && k2[a] < j && eq(v[k2[a]], v[j]) == Ok(true);
      if a < |kept| {
        assert k2[a] == kept[a];
      }
    }
    if MarkedBy(v, eq, kept, j) {
      var a :| 0 <= a < |kept| && kept[a] < j && eq(v[kept[a]], v[j]) == Ok(true);
      assert k2[a] == kept[a];
    }
    if i < j && eq(v[i], v[j]) == Ok(true) {
      assert k2[|kept|] == i;
    }
  }

  /** The inner loop of DistinctBy: compare v[i] with every later element
      and mark the ones declared equal; the first failing call stops it. */
  method MarkEqualLater<T>(v: seq<T>, eq: (T, T) -> Outcome<bool>, i: int, included: seq<bool>)
    returns (marked: seq<bool>, failure: Option<Err>)
    requires 0 <= i < |v| && |included| == |v|
    ensures failure.None? ==> |marked| == |v|
    ensures failure.None? ==>
              forall m :: 0 <= m < |v| ==> (marked[m] <==> included[m] || (i < m && eq(v[i], v[m]) == Ok(true)))
    ensures failure.None? ==> forall m :: i < m < |v| ==> eq(v[i], v[m]).Ok?
    ensures failure.Some? ==>
              exists m :: i < m < |v| && eq(v[i], v[m]) == Fail(failure.value) &&
                forall m' :: i < m' < m ==> eq(v[i], v[m']).Ok?
  {
    marked := included;
    var j := i + 1;
    while j < |v|
      invariant i + 1 <= j <= |v| && |marked| == |v|
      invariant forall m :: i < m < j ==> eq(v[i], v[m]).Ok?
      invariant forall m :: 0 <= m < |v| ==> (marked[m] <==> included[m] || (i < m < j && eq(v[i], v[m]) == Ok(true)))
    {
      var equals := eq(v[i], v[j]);
      if equals.Fail? {
        return marked, Some(equals.error);
      }
      if equals.value {
        marked := marked[j := true];
      }
      j := j + 1;
    }
    return marked, None;
  }

  /** An increasing list of positions that contains 0 starts with it. */
  lemma IncreasingStartsAtZero(kept: seq<int>, n: int)
    requires Increasing(kept, n) && 0 in kept
    ensures |kept| > 0 && kept[0] == 0
  {
    var a :| 0 <= a < |kept| && kept[a] == 0;
  }

  /** What the outer loop of DistinctBy knows when it ends is exactly that
      the kept positions are the leftmost representatives. */
  lemma KeptAreLeftmost<T>(v: seq<T>, eq: (T, T) -> Outcome<bool>, kept: seq<int>, included: seq<bool>)
    requires |included| == |v| && Increasing(kept, |v|)
    requires forall k :: 0 <= k < |v| ==> (!included[k] <==> k in kept)
    requires forall j :: 0 <= j < |v| ==> (included[j] <==> MarkedBy(v, eq, kept, j))
    requires forall a, j :: 0 <= a < |kept| && kept[a] < j < |v| ==> eq(v[kept[a]], v[j]).Ok?
    ensures LeftmostRepresentatives(v, eq, kept)
  {
    if |v| > 0 {
      assert !MarkedBy(v, eq, kept, 0);
      assert 0 in kept;
      IncreasingStartsAtZero(kept, |v|);
    }
    forall a, b | 0 <= a < b < |kept| ensures eq(v[kept[a]], v[kept[b]]) == Ok(false) {
      assert kept[a] < kept[b];
      assert eq(v[kept[a]], v[kept[b]]).Ok?;
      assert kept[b] in kept;
      assert !MarkedBy(v, eq, kept, kept[b]);
      var o := eq(v[kept[a]], v[kept[b]]);
      assert o != Ok(true);
      assert o.Ok? && !o.value;
      assert o == Ok(false);
    }
  }

  /** One kept position: after the inner loop has marked the elements equal
      to v[i], the outer loop's invariant holds with i added to `kept`. */
  lemma KeepStep<T>(v: seq<T>, eq: (T, T) -> Outcome<bool>, kept: seq<int>, included: seq<bool>,
                    marked: seq<bool>, i: int)
    requires 0 <= i < |v| && |included| == |v| && Increasing(kept, i)
    requires !included[i]
    requires forall k :: 0 <= k < i ==> (!included[k] <==> k in kept)
    requires forall j :: 0 <= j < |v| ==> (included[j] <==> MarkedBy(v, eq, kept, j))
    requires forall a, j :: 0 <= a < |kept| && kept[a] < j < |v| ==> eq(v[kept[a]], v[j]).Ok?
    requires |marked| == |v|
    requires forall m :: 0 <= m < |v| ==> (marked[m] <==> included[m] || (i < m && eq(v[i], v[m]) == Ok(true)))
    requires forall m :: i < m < |v| ==> eq(v[i], v[m]).Ok?
    ensures Increasing(kept + [i], i + 1)
    ensures forall k :: 0 <= k < i + 1 ==> (!marked[k] <==> k in kept + [i])
    ensures forall j :: 0 <= j < |v| ==> (marked[j] <==> MarkedBy(v, eq, kept + [i], j))
    ensures forall a, j :: 0 <= a < |kept + [i]| && (kept + [i])[a] < j < |v| ==> eq(v[(kept + [i])[a]], v[j]).Ok?
  {
    var k2 := kept + [i];
    forall j | 0 <= j < |v| ensures marked[j] <==> MarkedBy(v, eq, k2, j) {
      MarkedByAppend(v, eq, kept, i, j);
    }
    forall k | 0 <= k < i + 1 ensures !marked[k] <==> k in k2 {
      if k < i {
        assert k in k2 <==> k in kept;
      }
    }
    forall a, j | 0 <= a < |k2| && k2[a] < j < |v| ensures eq(v[k2[a]], v[j]).Ok? {
      if a < |kept| {
        assert k2[a] == kept[a];
      }
    }
  }

  /** DistinctBy: a nil equality is reported even on a faulted receiver;
      otherwise the fault passes through, and the result is the receiver's
      leftmost representatives in their original order. A failing call
      aborts the scan with that error. */
  method DistinctBy<T>(q: Q<T>, f: Option<(T, T) -> Outcome<bool>>) returns (r: Q<T>)
    ensures f.None? ==> r == Q([], Some(NilFunc))
    ensures f.Some? && q.err.Some? ==> r == Q([], q.err)
    ensures f.Some? && q.err.None? && r.err.None? ==>
              exists kept :: LeftmostRepresentatives(q.values, f.value, kept) &&
                |kept| == |r.values| &&
                forall a :: 0 <= a < |kept| ==> r.values[a] == q.values[kept[a]]
    ensures f.Some? && q.err.None? && r.err.Some? ==>
              r.values == [] &&
              exists a, b :: 0 <= a < b < |q.values| && f.value(q.values[a], q.values[b]) == Fail(r.err.value)
  {
    if f.None? {
      return Q([], Some(NilFunc));
    }
    if q.err.Some? {
      return Q([], q.err);
    }
    var eq := f.value;
    var v := q.values;
    var l := |v|;
    var results: seq<T> := [];
    var included := seq(l, _ => false);
    ghost var kept: seq<int> := [];
    var i := 0;
    while i < l
      invariant 0 <= i <= l && |included| == l
      invariant Increasing(kept, i)
      invariant |results| == |kept| && forall a :: 0 <= a < |kept| ==> results[a] == v[kept[a]]
      invariant forall k :: 0 <= k < i ==> (!included[k] <==> k in kept)
      invariant forall j :: 0 <= j < l ==> (included[j] <==> MarkedBy(v, eq, kept, j))
      invariant forall a, j :: 0 <= a < |kept| && kept[a] < j < l ==> eq(v[kept[a]], v[j]).Ok?
    {
      if included[i] {
        i := i + 1;
        continue;
      }
      var marked, failure := MarkEqualLater(v, eq, i, included);
      if failure.Some? {
        return Q([], failure);
      }
      KeepStep(v, eq, kept, included, marked, i);
      included := marked;
      results := results + [v[i]];
      kept := kept + [i];
      i := i + 1;
    }
    KeptAreLeftmost(v, eq, kept, included);
    return Q(results, None);
  }
}

/** Ordering: Order (natural order picked from the kind of the first
    element) and OrderBy (a caller-supplied `less`). The library sort is
    modelled by an insertion sort; the contracts promise only what any
    correct comparison sort gives: a permutation that is sorted. */
module Ordering {
  import opened Types

  /** The dynamic kinds Order tells apart: Go int, string, float64 (kept as
      its IEEE bit pattern) and any other kind. */
  datatype Value = IntV(i: int) | StrV(s: string) | FloatV(bits: bv64) | OtherV(id: nat)

  // ------------------------------------------------------- sorting in general

  /** No later element sorts strictly before an earlier one. */
  ghost predicate SortedBy<T>(less: (T, T) -> bool, s: seq<T>) {
    forall i, j :: 0 <= i < j < |s| ==> !less(s[j], s[i])
  }

  /** `less` is a strict weak order on the values of u: asymmetric, and
      "not less" is transitive. This is what a sort's `Less` must be. */
  ghost predicate StrictWeakOrderOn<T>(less: (T, T) -> bool, u: seq<T>) {
    && (forall a, b :: a in u && b in u && less(a, b) ==> !less(b, a))
    && (forall a, b, c :: a in u && b in u && c in u && !less(a, b) && !less(b, c) ==> !less(a, c))
  }

  /** Any two different values of u are ordered one way or the other. */
  ghost predicate ConnectedOn<T>(less: (T, T) -> bool, u: seq<T>) {
    forall a, b :: a in u && b in u && a != b ==> less(a, b) || less(b, a)
  }

  /** Insert x after the leading elements that sort strictly before it. */
  function Insert<T>(x: T, s: seq<T>, less: (T, T) -> bool): (r: seq<T>)
    ensures multiset(r) == multiset(s) + multiset{x}
  {
    if |s| == 0 then [x]
    else if less(s[0], x) then
      assert s == [s[0]] + s[1..];
      [s[0]] + Insert(x, s[1..], less)
    else [x] + s
  }

  /** Insertion sort: the stand-in for the library sort. */
  function SortBy<T>(s: seq<T>, less: (T, T) -> bool): (r: seq<T>)
    ensures multiset(r) == multiset(s)
  {
    if |s| == 0 then []
    else
      assert s == [s[0]] + s[1..];
      Insert(s[0], SortBy(s[1..], less), less)
  }

  /** Putting in front of a sorted sequence an element that nothing in it
      sorts before keeps it sorted. */
  lemma ConsSorted<T>(less: (T, T) -> bool, h: T, s: seq<T>)
    requires SortedBy(less, s)
    requires forall j :: 0 <= j < |s| ==> !less(s[j], h)
    ensures SortedBy(less, [h] + s)
  {
    var r := [h] + s;
    forall i, j | 0 <= i < j < |r| ensures !less(r[j], r[i]) {
      assert r[j] == s[j - 1];
      if i > 0 {
        assert r[i] == s[i - 1];
      }
    }
  }

  /** Inserting into a sorted sequence keeps it sorted. */
  lemma {:induction false} InsertSorted<T>(x: T, s: seq<T>, less: (T, T) -> bool, u: seq<T>)
    requires StrictWeakOrderOn(less, u)
    requires x in u && forall a :: a in s ==> a in u
    requires SortedBy(less, s)
    ensures SortedBy(less, Insert(x, s, less))
    decreases |s|
  {
    if |s| == 0 {
    } else if less(s[0], x) {
      var t := s[1..];
      assert forall a :: a in t ==> a in s;
      SortedTail(less, s);
      InsertSorted(x, t, less, u);
      var r' := Insert(x, t, less);
      assert s[0] in u;
      forall j | 0 <= j < |r'| ensures !less(r'[j], s[0]) {
        var y := r'[j];
        assert y in multiset(r');
        if y != x {
          assert y in multiset(t);
          var k :| 0 <= k < |t| && t[k] == y;
          assert s[k + 1] == y;
        }
      }
      ConsSorted(less, s[0], r');
    } else {
      assert s[0] in s;
      forall j | 0 <= j < |s| ensures !less(s[j], x) {
        assert s[j] in s;
        if j > 0 {
          assert !less(s[j], s[0]);
        }
      }
      ConsSorted(less, x, s);
    }
  }

  /** Insertion sort under a strict weak order yields a sorted sequence. */
  lemma {:induction false} SortBySorted<T>(s: seq<T>, less: (T, T) -> bool, u: seq<T>)
    requires StrictWeakOrderOn(less, u)
    requires forall a :: a in s ==> a in u
    ensures SortedBy(less, SortBy(s, less))
    decreases |s|
  {
    if |s| > 0 {
      assert s[0] in s;
      assert forall a :: a in s[1..] ==> a in s;
      SortBySorted(s[1..], less, u);
      var t := SortBy(s[1..], less);
      forall a | a in t ensures a in u {
        assert a in multiset(t);
        assert a in multiset(s[1..]);
      }
      InsertSorted(s[0], t, less, u);
    }
  }

  /** The tail of a sorted sequence is sorted. */
  lemma SortedTail<T>(less: (T, T) -> bool, s: seq<T>)
    requires |s| > 0 && SortedBy(less, s)
    ensures SortedBy(less, s[1..])
  {
    forall i, j | 0 <= i < j < |s[1..]| ensures !less(s[1..][j], s[1..][i]) {
      assert s[1..][i] == s[i + 1] && s[1..][j] == s[j + 1];
    }
  }

  /** Two sorted permutations of one another start with the same value when
      the order relates any two different values. */
  lemma SortedPermutationsShareHead<T>(less: (T, T) -> bool, a: seq<T>, b: seq<T>)
    requires |a| > 0 && ConnectedOn(less, a)
    requires SortedBy(less, a) && SortedBy(less, b)
    requires multiset(a) == multiset(b)
    ensures |b| > 0 && a[0] == b[0]
  {
    assert a[0] in multiset(b);
    var k :| 0 <= k < |b| && b[k] == a[0];
    assert b[0] in multiset(a);
    var m :| 0 <= m < |a| && a[m] == b[0];
  }

  /** Under an order that relates any two different values, two sorted
      permutations of one another are equal: there is only one sort. */
  lemma {:induction false} SortedPermutationUnique<T>(less: (T, T) -> bool, a: seq<T>, b: seq<T>)
    requires ConnectedOn(less, a)
    requires SortedBy(less, a) && SortedBy(less, b)
    requires multiset(a) == multiset(b)
    ensures a == b
    decreases |a|
  {
    if |a| == 0 {
      assert |b| == |multiset(b)| == 0;
    } else {
      SortedPermutationsShareHead(less, a, b);
      assert a == [a[0]] + a[1..] && b == [b[0]] + b[1..];
      assert multiset(a[1..]) == multiset(a) - multiset{a[0]};
      assert multiset(b[1..]) == multiset(b) - multiset{b[0]};
      assert ConnectedOn(less, a[1..]) by {
        assert forall x :: x in a[1..] ==> x in a;
      }
      SortedTail(less, a);
      SortedTail(less, b);
      SortedPermutationUnique(less, a[1..], b[1..]);
    }
  }

  // ------------------------------------------------------------ OrderBy

  /** OrderBy sorts a copy of the values with the caller's `less`. Whatever
      `less` does, the result is a permutation; when `less` is a strict weak
      order on the values, the result is sorted by it. */
  function OrderBy<T>(q: Q<T>, less: Option<(T, T) -> bool>): (r: Q<T>)
    ensures q.err.Some? ==> r == Q([], q.err)
    ensures q.err.None? && less.None? ==> r == Q([], Some(NilFunc))
    ensures q.err.None? && less.Some? ==> r.err.None? && multiset(r.values) == multiset(q.values)
    ensures q.err.None? && less.Some? && StrictWeakOrderOn(less.value, q.values) ==>
              SortedBy(less.value, r.values)
  {
    if q.err.Some? then Q([], q.err)
    else if less.None? then Q([], Some(NilFunc))
    else
      var r := Q(SortBy(q.values, less.value), None);
      assert StrictWeakOrderOn(less.value, q.values) ==> SortedBy(less.value, r.values) by {
        if StrictWeakOrderOn(less.value, q.values) {
          SortBySorted(q.values, less.value, q.values);
        }
      }
      r
  }

  /** When `less` is a strict order relating any two different values,
      OrderBy returns the one sorted permutation of the input. */
  lemma OrderByIsTheSort<T>(q: Q<T>, less: (T, T) -> bool, s: seq<T>)
    requires q.err.None?
    requires StrictWeakOrderOn(less, q.values) && ConnectedOn(less, q.values)
    requires multiset(s) == multiset(q.values) && SortedBy(less, s)
    ensures OrderBy(q, Some(less)) == Q(s, None)
  {
    var r := OrderBy(q, Some(less));
    assert ConnectedOn(less, r.values) by {
      forall a, b | a in r.values && b in r.values && a != b ensures less(a, b) || less(b, a) {
        assert a in multiset(r.values) && b in multiset(r.values);
      }
    }
    SortedPermutationUnique(less, r.values, s);
  }

  // ------------------------------------------------------ string order

  /** Lexicographic order on sequences of Unicode code points. For valid
      UTF-8 this is the byte-wise order sort.Strings uses, because UTF-8
      encoding preserves code-point order. */
  predicate StrLess(a: string, b: string)
    decreases |a|
  {
    if |a| == 0 then |b| > 0
    else if |b| == 0 then false
    else if a[0] < b[0] then true
    else if a[0] == b[0] then StrLess(a[1..], b[1..])
    else false
  }

  lemma {:induction false} StrLessAsymmetric(a: string, b: string)
    ensures StrLess(a, b) ==> !StrLess(b, a)
    decreases |a|
  {
    if |a| > 0 && |b| > 0 && a[0] == b[0] {
      StrLessAsymmetric(a[1..], b[1..]);
    }
  }

  lemma {:induction false} StrLessTransitive(a: string, b: string, c: string)
    ensures StrLess(a, b) && StrLess(b, c) ==> StrLess(a, c)
    decreases |a|
  {
    if |a| > 0 && |b| > 0 && |c| > 0 && a[0] == b[0] && b[0] == c[0] {
      StrLessTransitive(a[1..], b[1..], c[1..]);
    }
  }

  lemma {:induction false} StrLessConnected(a: string, b: string)
    ensures a != b ==> StrLess(a, b) || StrLess(b, a)
    decreases |a|
  {
    if |a| > 0 && |b| > 0 && a[0] == b[0] {
      StrLessConnected(a[1..], b[1..]);
      if a[1..] == b[1..] {
        assert a == [a[0]] + a[1..] && b == [b[0]] + b[1..];
      }
    }
  }

  // -------------------------------------------------------------- Order

  /** The order Order uses: numeric on ints, lexicographic on strings. */
  predicate NaturalLess(a: Value, b: Value) {
    match (a, b)
    case (IntV(x), IntV(y)) => x < y
    case (StrV(x), StrV(y)) => StrLess(x, y)
    case _ => false
  }

  /** Every element is an int, in ascending order. */
  ghost predicate IntsAscending(s: seq<Value>) {
    && (forall k :: 0 <= k < |s| ==> s[k].IntV?)
    && (forall i, j :: 0 <= i < j < |s| ==> s[i].i <= s[j].i)
  }

  /** Every element is a string, in ascending lexicographic order. */
  ghost predicate StringsAscending(s: seq<Value>) {
    && (forall k :: 0 <= k < |s| ==> s[k].StrV?)
    && (forall i, j :: 0 <= i < j < |s| ==> !StrLess(s[j].s, s[i].s))
  }

  /** The inputs Order is modelled on: faulted, empty, or with a first
      element whose kind Order recognises and, for ints and strings, shared
      by all the elements. A first element of kind float64 is not modelled. */
  predicate Orderable(q: Q<Value>) {
    q.err.Some? || |q.values| == 0 ||
    match q.values[0]
    case IntV(_) => forall k :: 0 <= k < |q.values| ==> q.values[k].IntV?
    case StrV(_) => forall k :: 0 <= k < |q.values| ==> q.values[k].StrV?
    case FloatV(_) => false
    case OtherV(_) => true
  }

  /** On a sequence of one kind, NaturalLess is a strict weak order that
      relates any two different values. */
  lemma NaturalLessIsTotalOn(v: seq<Value>)
    requires (forall k :: 0 <= k < |v| ==> v[k].IntV?) || (forall k :: 0 <= k < |v| ==> v[k].StrV?)
    ensures StrictWeakOrderOn(NaturalLess, v)
    ensures ConnectedOn(NaturalLess, v)
  {
    var ints := forall k :: 0 <= k < |v| ==> v[k].IntV?;
    assert forall a :: a in v ==> (if ints then a.IntV? else a.StrV?);
    forall a, b | a in v && b in v && NaturalLess(a, b) ensures !NaturalLess(b, a) {
      if !ints { StrLessAsymmetric(a.s, b.s); }
    }
    forall a, b, c | a in v && b in v && c in v && !NaturalLess(a, b) && !NaturalLess(b, c)
      ensures !NaturalLess(a, c)
    {
      if !ints {
        StrLessConnected(a.s, b.s);
        StrLessConnected(b.s, c.s);
        StrLessTransitive(c.s, b.s, a.s);
        StrLessAsymmetric(a.s, c.s);
        StrLessAsymmetric(c.s, a.s);
      }
    }
    forall a, b | a in v && b in v && a != b ensures NaturalLess(a, b) || NaturalLess(b, a) {
      if !ints { StrLessConnected(a.s, b.s); }
    }
  }

  /** Order: empty input gives an empty result, an int or string first
      element gives the ascending sort, and any other kind gives
      UnsupportedType. */
  function Order(q: Q<Value>): (r: Q<Value>)
    requires Orderable(q)
    ensures q.err.Some? ==> r == Q([], q.err)
    ensures q.err.None? && |q.values| == 0 ==> r == Q([], None)
    ensures q.err.None? && |q.values| > 0 && q.values[0].OtherV? ==> r == Q([], Some(UnsupportedType))
    ensures q.err.None? && |q.values| > 0 && q.values[0].IntV? ==>
              r.err.None? && multiset(r.values) == multiset(q.values) && IntsAscending(r.values)
    ensures q.err.None? && |q.values| > 0 && q.values[0].StrV? ==>
              r.err.None? && multiset(r.values) == multiset(q.values) && StringsAscending(r.values)
  {
    if q.err.Some? then Q([], q.err)
    else if |q.values| == 0 then Q([], None)
    else if q.values[0].IntV? || q.values[0].StrV? then
      var r := Q(SortBy(q.values, NaturalLess), None);
      assert q.values[0].IntV? ==> IntsAscending(r.values) by {
        if q.values[0].IntV? { OrderSortsKind(q.values, r.values); }
      }
      assert q.values[0].StrV? ==> StringsAscending(r.values) by {
        if q.values[0].StrV? { OrderSortsKind(q.values, r.values); }
      }
      r
    else Q([], Some(UnsupportedType))
  }

  /** The insertion sort of a one-kind sequence under NaturalLess is
      ascending in that kind's own terms. */
  lemma OrderSortsKind(v: seq<Value>, s: seq<Value>)
    requires (forall k :: 0 <= k < |v| ==> v[k].IntV?) || (forall k :: 0 <= k < |v| ==> v[k].StrV?)
    requires s == SortBy(v, NaturalLess)
    ensures (forall k :: 0 <= k < |v| ==> v[k].IntV?) ==> IntsAscending(s)
    ensures (forall k :: 0 <= k < |v| ==> v[k].StrV?) ==> StringsAscending(s)
  {
    NaturalLessIsTotalOn(v);
    SortBySorted(v, NaturalLess, v);
    forall k | 0 <= k < |s| ensures s[k] in v {
      assert s[k] in multiset(s);
    }
  }

  /** Order returns THE ascending sort: any ascending permutation of an int
      or string input is what Order returns. */
  lemma OrderIsTheAscendingSort(q: Q<Value>, s: seq<Value>)
    requires q.err.None? && |q.values| > 0 && Orderable(q)
    requires multiset(s) == multiset(q.values)
    requires (q.values[0].IntV? && IntsAscending(s)) || (q.values[0].StrV? && StringsAscending(s))
    ensures Order(q) == Q(s, None)
  {
    var v := q.values;
    var r := Order(q);
    NaturalLessIsTotalOn(v);
    assert SortedBy(NaturalLess, s);
    assert SortedBy(NaturalLess, r.values);
    assert ConnectedOn(NaturalLess, r.values) by {
      forall a, b | a in r.values && b in r.values && a != b
        ensures NaturalLess(a, b) || NaturalLess(b, a)
      {
        assert a in multiset(r.values) && b in multiset(r.values);
      }
    }
    SortedPermutationUnique(NaturalLess, r.values, s);
  }

  /** Order of [3, 1, 2] is [1, 2, 3] with no fault. */
  lemma OrderSortsSmallExample()
    ensures Order(Q([IntV(3), IntV(1), IntV(2)], None)) == Q([IntV(1), IntV(2), IntV(3)], None)
  {
    var q := Q([IntV(3), IntV(1), IntV(2)], None);
    var s := [IntV(1), IntV(2), IntV(3)];
    assert multiset(s) == multiset(q.values);
    OrderIsTheAscendingSort(q, s);
  }

  /** On an int or string input, Order is OrderBy with the natural order. */
  lemma OrderIsOrderByNatural(q: Q<Value>)
    requires q.err.None? && |q.values| > 0 && Orderable(q)
    requires q.values[0].IntV? || q.values[0].StrV?
    ensures Order(q) == OrderBy(q, Some(NaturalLess))
  {
  }
}

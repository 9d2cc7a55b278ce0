/** Terminal operators: they consume a pipeline and return a (value, error)
    pair. Count and Any never look at the fault; every other one returns the
    receiver's fault first, then NilFunc for a nil callback. */
module Terminal {
  import opened Types
  import Elementwise
  import Windowing

  /** Position i is the first element, scanning front to back, that the
      predicate accepts; every earlier call answered false. */
  ghost predicate FirstHit<T>(p: T -> Outcome<bool>, v: seq<T>, i: int) {
    0 <= i < |v| && Holds(p, v[i]) && forall m :: 0 <= m < i ==> Rejects(p, v[m])
  }

  /** Position k is where a front-to-back scan first meets a callback error. */
  ghost predicate FirstFailure<T>(p: T -> Outcome<bool>, v: seq<T>, k: int) {
    0 <= k < |v| && p(v[k]).Fail? && forall m :: 0 <= m < k ==> Rejects(p, v[m])
  }

  /** Position i is the first element, scanning back to front, that the
      predicate accepts; every later element was rejected. */
  ghost predicate LastHit<T>(p: T -> Outcome<bool>, v: seq<T>, i: int) {
    0 <= i < |v| && Holds(p, v[i]) && forall m :: i < m < |v| ==> Rejects(p, v[m])
  }

  /** Position k is where a back-to-front scan first meets a callback error. */
  ghost predicate LastFailure<T>(p: T -> Outcome<bool>, v: seq<T>, k: int) {
    0 <= k < |v| && p(v[k]).Fail? && forall m :: k < m < |v| ==> Rejects(p, v[m])
  }

  /** The positions whose element the predicate accepts. */
  ghost function Matches<T>(p: T -> Outcome<bool>, v: seq<T>): set<int> {
    set i | 0 <= i < |v| && Holds(p, v[i])
  }

  // ---------------------------------------------------------------- counting

  /** Count is the number of values, returned next to the fault unchecked. */
  function Count<T>(q: Q<T>): (r: Answer<nat>)
    ensures r.value == |q.values| && r.err == q.err
  {
    Answer(|q.values|, q.err)
  }

  /** CountBy counts accepted elements; on a callback error it returns the
      count reached so far with that error. */
  function CountBy<T>(q: Q<T>, p: Option<T -> Outcome<bool>>): (r: Answer<nat>)
    decreases |q.values|
    ensures q.err.Some? ==> r == Answer(0, q.err)
    ensures q.err.None? && p.None? ==> r == Answer(0, Some(NilFunc))
    ensures q.err.None? && p.Some? ==> (r.err.None? <==> AllOk(p.value, q.values))
    ensures r.value <= |q.values|
  {
    if q.err.Some? then Answer(0, q.err)
    else if p.None? then Answer(0, Some(NilFunc))
    else if |q.values| == 0 then Answer(0, None)
    else
      var v := q.values;
      match p.value(v[0])
      case Fail(e) => Answer(0, Some(e))
      case Ok(b) =>
        var rest := CountBy(Q(v[1..], None), p);
        assert AllOk(p.value, v) <==> AllOk(p.value, v[1..]) by {
          if AllOk(p.value, v[1..]) {
            forall i | 0 <= i < |v| ensures p.value(v[i]).Ok? {
              if i > 0 { assert v[i] == v[1..][i - 1]; }
            }
          }
        }
        Answer((if b then 1 else 0) + rest.value, rest.err)
  }

  /** CountBy is the length of Where's result under the same predicate,
      with the same error, in every case including a failed scan, where
      both stop at the same element. */
  lemma {:induction false} CountByIsLengthOfWhere<T>(q: Q<T>, p: Option<T -> Outcome<bool>>)
    ensures CountBy(q, p) == Answer(|Elementwise.Where(q, p).values|, Elementwise.Where(q, p).err)
    decreases |q.values|
  {
    if q.err.None? && p.Some? && |q.values| > 0 && p.value(q.values[0]).Ok? {
      CountByIsLengthOfWhere(Q(q.values[1..], None), p);
    }
  }

  /** Appending one element adds one to the count exactly when it is accepted. */
  lemma {:induction false} CountBySnoc<T>(v: seq<T>, x: T, p: T -> Outcome<bool>)
    requires AllOk(p, v) && p(x).Ok?
    ensures CountBy(Q(v + [x], None), Some(p)).value
            == CountBy(Q(v, None), Some(p)).value + (if Holds(p, x) then 1 else 0)
    decreases |v|
  {
    if |v| > 0 {
      assert (v + [x])[0] == v[0];
      assert (v + [x])[1..] == v[1..] + [x];
      assert AllOk(p, v[1..]) by {
        forall i | 0 <= i < |v[1..]| ensures p(v[1..][i]).Ok? {
          assert v[1..][i] == v[i + 1];
        }
      }
      CountBySnoc(v[1..], x, p);
    }
  }

  /** When no call fails, CountBy is the number of accepted positions. */
  lemma {:induction false} CountByCountsMatches<T>(v: seq<T>, p: T -> Outcome<bool>)
    requires AllOk(p, v)
    ensures CountBy(Q(v, None), Some(p)) == Answer(|Matches(p, v)|, None)
    decreases |v|
  {
    if |v| > 0 {
      var n := |v| - 1;
      var w := v[..n];
      assert v == w + [v[n]];
      assert AllOk(p, w) by {
        forall i | 0 <= i < |w| ensures p(w[i]).Ok? {
          assert w[i] == v[i];
        }
      }
      assert p(v[n]).Ok?;
      CountByCountsMatches(w, p);
      CountBySnoc(w, v[n], p);
      MatchesSnoc(p, w, v[n]);
    }
  }

  /** Appending one element adds its position to the matches exactly when
      it is accepted. */
  lemma MatchesSnoc<T>(p: T -> Outcome<bool>, w: seq<T>, x: T)
    ensures Matches(p, w + [x]) == if Holds(p, x) then Matches(p, w) + {|w|} else Matches(p, w)
  {
    var v := w + [x];
    assert forall i :: 0 <= i < |w| ==> v[i] == w[i];
    assert v[|w|] == x;
  }

  /** Counting with an always-true predicate is Count. */
  lemma {:induction false} CountByTrueIsCount<T>(q: Q<T>)
    requires q.err.None?
    ensures CountBy(q, Some((x: T) => Ok(true))) == Count(q)
    decreases |q.values|
  {
    if |q.values| > 0 {
      CountByTrueIsCount(Q(q.values[1..], None));
    }
  }

  // ------------------------------------------------------------- quantifiers

  /** Any reports a non-empty sequence, next to the fault unchecked. */
  function Any<T>(q: Q<T>): (r: Answer<bool>)
    ensures r.value <==> |q.values| > 0
    ensures r.err == q.err
  {
    Answer(|q.values| > 0, q.err)
  }

  /** Any agrees with Count. */
  lemma AnyIsCountPositive<T>(q: Q<T>)
    ensures Any(q) == Answer(Count(q).value > 0, Count(q).err)
  {
  }

  /** AnyWith scans front to back and stops at the first accepted element
      or the first error. */
  function AnyWith<T>(q: Q<T>, p: Option<T -> Outcome<bool>>): (r: Answer<bool>)
    decreases |q.values|
    ensures r == Answer(FirstMatch(q, p).value.Some?, FirstMatch(q, p).err)
    ensures q.err.None? && p.Some? && AllOk(p.value, q.values) ==>
              r.err.None? && (r.value <==> exists i :: 0 <= i < |q.values| && Holds(p.value, q.values[i]))
  {
    if q.err.Some? then Answer(false, q.err)
    else if p.None? then Answer(false, Some(NilFunc))
    else if |q.values| == 0 then Answer(false, None)
    else
      var v := q.values;
      match p.value(v[0])
      case Fail(e) => Answer(false, Some(e))
      case Ok(true) => Answer(true, None)
      case Ok(false) => AnyWith(Q(v[1..], None), p)
  }

  /** Once an element is accepted, AnyWith is true whatever follows it: the
      callback is not consulted on the rest. */
  lemma {:induction false} AnyWithIgnoresRest<T>(v: seq<T>, w: seq<T>, p: T -> Outcome<bool>, i: nat)
    requires FirstHit(p, v, i)
    ensures AnyWith(Q(v[..i + 1] + w, None), Some(p)) == Answer(true, None)
    decreases i
  {
    var u := v[..i + 1] + w;
    assert u[0] == v[0];
    if i > 0 {
      assert Rejects(p, v[0]);
      assert u[1..] == v[1..][..i] + w;
      assert FirstHit(p, v[1..], i - 1) by {
        forall m | 0 <= m < i - 1 ensures Rejects(p, v[1..][m]) {
          assert v[1..][m] == v[m + 1];
        }
      }
      AnyWithIgnoresRest(v[1..], w, p, i - 1);
    }
  }

  /** All is a conjunctive scan that keeps calling the predicate after a
      false answer, so any later error is still reported. */
  function All<T>(q: Q<T>, p: Option<T -> Outcome<bool>>): (r: Answer<bool>)
    decreases |q.values|
    ensures q.err.Some? ==> r == Answer(false, q.err)
    ensures q.err.None? && p.None? ==> r == Answer(false, Some(NilFunc))
    ensures q.err.None? && p.Some? ==> (r.err.None? <==> AllOk(p.value, q.values))
    ensures q.err.None? && p.Some? && r.err.None? ==>
              (r.value <==> forall i :: 0 <= i < |q.values| ==> Holds(p.value, q.values[i]))
    ensures q.err.None? && p.Some? && |q.values| == 0 ==> r == Answer(true, None)
  {
    if q.err.Some? then Answer(false, q.err)
    else if p.None? then Answer(false, Some(NilFunc))
    else if |q.values| == 0 then Answer(true, None)
    else
      var v := q.values;
      match p.value(v[0])
      case Fail(e) => Answer(true, Some(e))
      case Ok(b) =>
        var rest := All(Q(v[1..], None), p);
        assert AllOk(p.value, v) <==> AllOk(p.value, v[1..]) by {
          if AllOk(p.value, v[1..]) {
            forall i | 0 <= i < |v| ensures p.value(v[i]).Ok? {
              if i > 0 { assert v[i] == v[1..][i - 1]; }
            }
          }
        }
        assert (forall i :: 0 <= i < |v| ==> Holds(p.value, v[i]))
               <==> b && forall i :: 0 <= i < |v[1..]| ==> Holds(p.value, v[1..][i]) by {
          if b && forall i :: 0 <= i < |v[1..]| ==> Holds(p.value, v[1..][i]) {
            forall i | 0 <= i < |v| ensures Holds(p.value, v[i]) {
              if i > 0 { assert v[i] == v[1..][i - 1]; }
            }
          }
        }
        Answer(b && rest.value, rest.err)
  }

  /** When the first error is at position k, All returns it together with
      the conjunction of the answers before k. */
  lemma {:induction false} AllStopsAtFirstFailure<T>(v: seq<T>, p: T -> Outcome<bool>, k: nat)
    requires k < |v| && p(v[k]).Fail?
    requires AllOk(p, v[..k])
    ensures All(Q(v, None), Some(p))
            == Answer(forall i :: 0 <= i < k ==> Holds(p, v[i]), Some(p(v[k]).error))
    decreases k
  {
    if k > 0 {
      assert p(v[0]) == p(v[..k][0]);
      var w := v[1..];
      var wk := w[..k - 1];
      assert AllOk(p, wk) by {
        forall i | 0 <= i < k - 1 ensures p(wk[i]).Ok? {
          assert wk[i] == v[..k][i + 1];
        }
      }
      AllStopsAtFirstFailure(w, p, k - 1);
      assert (forall i :: 0 <= i < k ==> Holds(p, v[i]))
             <==> Holds(p, v[0]) && forall i :: 0 <= i < k - 1 ==> Holds(p, w[i]) by {
        if Holds(p, v[0]) && forall i :: 0 <= i < k - 1 ==> Holds(p, w[i]) {
          forall i | 0 <= i < k ensures Holds(p, v[i]) {
            if i > 0 { assert v[i] == w[i - 1]; }
          }
        }
      }
    }
  }

  /** Single asks CountBy whether exactly one element is accepted. */
  function Single<T>(q: Q<T>, p: Option<T -> Outcome<bool>>): (r: Answer<bool>)
    ensures q.err.Some? ==> r == Answer(false, q.err)
    ensures q.err.None? && p.None? ==> r == Answer(false, Some(NilFunc))
    ensures q.err.None? && p.Some? ==> r.err == CountBy(q, p).err
    ensures q.err.None? && p.Some? && r.err.None? ==> (r.value <==> CountBy(q, p).value == 1)
    ensures r.err.Some? ==> !r.value
  {
    if q.err.Some? then Answer(false, q.err)
    else if p.None? then Answer(false, Some(NilFunc))
    else
      var c := CountBy(q, p);
      if c.err.Some? then Answer(false, c.err)
      else Answer(c.value == 1, None)
  }

  /** With no callback error, Single is true exactly when one position, and
      no other, holds an accepted element. */
  lemma SingleIffUniqueMatch<T>(v: seq<T>, p: T -> Outcome<bool>)
    requires AllOk(p, v)
    ensures Single(Q(v, None), Some(p)).err.None?
    ensures Single(Q(v, None), Some(p)).value <==>
              exists i :: 0 <= i < |v| && Holds(p, v[i]) &&
                forall j :: 0 <= j < |v| && Holds(p, v[j]) ==> j == i
  {
    CountByCountsMatches(v, p);
    var s := Matches(p, v);
    if |s| == 1 {
      var i :| i in s;
      assert s - {i} == {} by {
        assert |s - {i}| == 0;
      }
      assert forall j :: 0 <= j < |v| && Holds(p, v[j]) ==> j in s;
    }
    if exists i :: 0 <= i < |v| && Holds(p, v[i]) && forall j :: 0 <= j < |v| && Holds(p, v[j]) ==> j == i {
      var i :| 0 <= i < |v| && Holds(p, v[i]) && forall j :: 0 <= j < |v| && Holds(p, v[j]) ==> j == i;
      assert s == {i};
    }
  }

  // ---------------------------------------------------------- positional

  /** First returns the element at position 0, or NoElement when there is none. */
  function First<T>(q: Q<T>): (r: Answer<Option<T>>)
    ensures q.err.Some? ==> r == Answer(None, q.err)
    ensures q.err.None? ==> (r.err == Some(NoElement) <==> |q.values| == 0)
    ensures q.err.None? && |q.values| > 0 ==> r == Answer(Some(q.values[0]), None)
    ensures r.err.Some? ==> r.value.None?
  {
    if q.err.Some? then Answer(None, q.err)
    else if |q.values| == 0 then Answer(None, Some(NoElement))
    else Answer(Some(q.values[0]), None)
  }

  /** FirstOrNil returns the element at position 0, or nil without error. */
  function FirstOrNil<T>(q: Q<T>): (r: Answer<Option<T>>)
    ensures q.err.Some? ==> r == Answer(None, q.err)
    ensures q.err.None? ==> r.err.None?
    ensures q.err.None? ==> (r.value.None? <==> |q.values| == 0)
    ensures q.err.None? && |q.values| > 0 ==> r.value == Some(q.values[0])
  {
    if q.err.Some? then Answer(None, q.err)
    else if |q.values| > 0 then Answer(Some(q.values[0]), None)
    else Answer(None, None)
  }

  /** Last returns the element at position len-1, or NoElement when there is none. */
  function Last<T>(q: Q<T>): (r: Answer<Option<T>>)
    ensures q.err.Some? ==> r == Answer(None, q.err)
    ensures q.err.None? ==> (r.err == Some(NoElement) <==> |q.values| == 0)
    ensures q.err.None? && |q.values| > 0 ==> r == Answer(Some(q.values[|q.values| - 1]), None)
    ensures r.err.Some? ==> r.value.None?
  {
    if q.err.Some? then Answer(None, q.err)
    else if |q.values| == 0 then Answer(None, Some(NoElement))
    else Answer(Some(q.values[|q.values| - 1]), None)
  }

  /** LastOrNil returns the element at position len-1, or nil without error. */
  function LastOrNil<T>(q: Q<T>): (r: Answer<Option<T>>)
    ensures q.err.Some? ==> r == Answer(None, q.err)
    ensures q.err.None? ==> r.err.None?
    ensures q.err.None? ==> (r.value.None? <==> |q.values| == 0)
    ensures q.err.None? && |q.values| > 0 ==> r.value == Some(q.values[|q.values| - 1])
  {
    if q.err.Some? then Answer(None, q.err)
    else if |q.values| > 0 then Answer(Some(q.values[|q.values| - 1]), None)
    else Answer(None, None)
  }

  /** The OrNil variants differ from First and Last only by answering
      (nil, nil) where those answer NoElement. */
  lemma OrNilAgreesWithFirstAndLast<T>(q: Q<T>)
    ensures First(q) == if FirstOrNil(q) == Answer(None, None) then Answer(None, Some(NoElement)) else FirstOrNil(q)
    ensures Last(q) == if LastOrNil(q) == Answer(None, None) then Answer(None, Some(NoElement)) else LastOrNil(q)
  {
  }

  /** The last element is the first element of the reversed pipeline. */
  lemma LastIsFirstOfReverse<T>(q: Q<T>)
    ensures Last(q) == First(Windowing.Reverse(q))
    ensures LastOrNil(q) == FirstOrNil(Windowing.Reverse(q))
  {
  }

  // ------------------------------------------------------------- search

  /** firstBy: the position of the first accepted element, scanning front to
      back; the scan stops at the first error. */
  function FirstMatch<T>(q: Q<T>, p: Option<T -> Outcome<bool>>): (r: Answer<Option<nat>>)
    decreases |q.values|
    ensures q.err.Some? ==> r == Answer(None, q.err)
    ensures q.err.None? && p.None? ==> r == Answer(None, Some(NilFunc))
    ensures r.value.Some? ==>
              q.err.None? && p.Some? && r.err.None? && FirstHit(p.value, q.values, r.value.value)
    ensures q.err.None? && p.Some? && r == Answer(None, None) ==>
              forall i :: 0 <= i < |q.values| ==> Rejects(p.value, q.values[i])
    ensures q.err.None? && p.Some? && r.err.Some? ==>
              r.value.None? &&
              exists k :: FirstFailure(p.value, q.values, k) && p.value(q.values[k]) == Fail(r.err.value)
  {
    if q.err.Some? then Answer(None, q.err)
    else if p.None? then Answer(None, Some(NilFunc))
    else if |q.values| == 0 then Answer(None, None)
    else
      var v := q.values;
      match p.value(v[0])
      case Fail(e) =>
        assert FirstFailure(p.value, v, 0);
        Answer(None, Some(e))
      case Ok(true) => Answer(Some(0), None)
      case Ok(false) =>
        var rest := FirstMatch(Q(v[1..], None), p);
        var r := Answer(if rest.value.Some? then Some(rest.value.value + 1) else None, rest.err);
        assert r.value.Some? ==> FirstHit(p.value, v, r.value.value) by {
          if rest.value.Some? {
            var i := rest.value.value;
            forall m | 0 <= m < i + 1 ensures Rejects(p.value, v[m]) {
              if m > 0 { assert v[m] == v[1..][m - 1]; }
            }
            assert v[i + 1] == v[1..][i];
          }
        }
        assert r == Answer(None, None) ==> forall i :: 0 <= i < |v| ==> Rejects(p.value, v[i]) by {
          if r == Answer(None, None) {
            forall i | 0 <= i < |v| ensures Rejects(p.value, v[i]) {
              if i > 0 { assert v[i] == v[1..][i - 1]; }
            }
          }
        }
        assert r.err.Some? ==> exists k :: FirstFailure(p.value, v, k) && p.value(v[k]) == Fail(r.err.value) by {
          if r.err.Some? {
            var k :| FirstFailure(p.value, v[1..], k) && p.value(v[1..][k]) == Fail(r.err.value);
            forall m | 0 <= m < k + 1 ensures Rejects(p.value, v[m]) {
              if m > 0 { assert v[m] == v[1..][m - 1]; }
            }
            assert v[k + 1] == v[1..][k];
            assert FirstFailure(p.value, v, k + 1);
          }
        }
        r
  }

  /** FirstBy: the first accepted element; NoElement only when the scan
      ends without a match and without a callback error. */
  function FirstBy<T>(q: Q<T>, p: Option<T -> Outcome<bool>>): (r: Answer<Option<T>>)
    ensures q.err.Some? ==> r == Answer(None, q.err)
    ensures q.err.None? && p.None? ==> r == Answer(None, Some(NilFunc))
    ensures r.value.Some? ==> r.err.None?
    ensures q.err.None? && p.Some? && r.value.Some? ==>
              exists i :: FirstHit(p.value, q.values, i) && r.value.value == q.values[i]
    ensures q.err.None? && p.Some? && (forall i :: 0 <= i < |q.values| ==> Rejects(p.value, q.values[i])) ==>
              r == Answer(None, Some(NoElement))
    ensures q.err.None? && p.Some? && (exists k :: FirstFailure(p.value, q.values, k)) ==>
              exists k :: FirstFailure(p.value, q.values, k) && r == Answer(None, Some(p.value(q.values[k]).error))
    ensures forall i :: q.err.None? && p.Some? && FirstHit(p.value, q.values, i) ==>
              r == Answer(Some(q.values[i]), None)
  {
    var m := FirstMatch(q, p);
    if m.err.None? && m.value.None? then Answer(None, Some(NoElement))
    else if m.value.Some? then
      assert FirstHit(p.value, q.values, m.value.value);
      Answer(Some(q.values[m.value.value]), m.err)
    else Answer(None, m.err)
  }

  /** FirstOrNilBy: as FirstBy, but no match gives (nil, nil). */
  function FirstOrNilBy<T>(q: Q<T>, p: Option<T -> Outcome<bool>>): (r: Answer<Option<T>>)
    ensures q.err.Some? ==> r == Answer(None, q.err)
    ensures q.err.None? && p.None? ==> r == Answer(None, Some(NilFunc))
    ensures q.err.None? && p.Some? && (forall i :: 0 <= i < |q.values| ==> Rejects(p.value, q.values[i])) ==>
              r == Answer(None, None)
    ensures FirstBy(q, p) == if r == Answer(None, None) then Answer(None, Some(NoElement)) else r
  {
    var m := FirstMatch(q, p);
    Answer(if m.value.Some? then Some(q.values[m.value.value]) else None, m.err)
  }

  /** lastBy: the position of the first accepted element, scanning back to
      front; the scan stops at the first error. */
  function LastMatch<T>(q: Q<T>, p: Option<T -> Outcome<bool>>): (r: Answer<Option<nat>>)
    decreases |q.values|
    ensures q.err.Some? ==> r == Answer(None, q.err)
    ensures q.err.None? && p.None? ==> r == Answer(None, Some(NilFunc))
    ensures r.value.Some? ==>
              q.err.None? && p.Some? && r.err.None? && LastHit(p.value, q.values, r.value.value)
    ensures q.err.None? && p.Some? && r == Answer(None, None) ==>
              forall i :: 0 <= i < |q.values| ==> Rejects(p.value, q.values[i])
    ensures q.err.None? && p.Some? && r.err.Some? ==>
              r.value.None? &&
              exists k :: LastFailure(p.value, q.values, k) && p.value(q.values[k]) == Fail(r.err.value)
  {
    if q.err.Some? then Answer(None, q.err)
    else if p.None? then Answer(None, Some(NilFunc))
    else if |q.values| == 0 then Answer(None, None)
    else
      var v := q.values;
      var n := |v| - 1;
      match p.value(v[n])
      case Fail(e) =>
        assert LastFailure(p.value, v, n);
        Answer(None, Some(e))
      case Ok(true) => Answer(Some(n), None)
      case Ok(false) =>
        var rest := LastMatch(Q(v[..n], None), p);
        assert rest.value.Some? ==> LastHit(p.value, v, rest.value.value) by {
          if rest.value.Some? {
            var i := rest.value.value;
            forall m | i < m < |v| ensures Rejects(p.value, v[m]) {
              if m < n { assert v[m] == v[..n][m]; }
            }
            assert v[i] == v[..n][i];
          }
        }
        assert rest == Answer(None, None) ==> forall i :: 0 <= i < |v| ==> Rejects(p.value, v[i]) by {
          if rest == Answer(None, None) {
            forall i | 0 <= i < |v| ensures Rejects(p.value, v[i]) {
              if i < n { assert v[i] == v[..n][i]; }
            }
          }
        }
        assert rest.err.Some? ==> exists k :: LastFailure(p.value, v, k) && p.value(v[k]) == Fail(rest.err.value) by {
          if rest.err.Some? {
            var k :| LastFailure(p.value, v[..n], k) && p.value(v[..n][k]) == Fail(rest.err.value);
            forall m | k < m < |v| ensures Rejects(p.value, v[m]) {
              if m < n { assert v[m] == v[..n][m]; }
            }
            assert v[k] == v[..n][k];
            assert LastFailure(p.value, v, k);
          }
        }
        rest
  }

  /** LastBy: the last accepted element; NoElement only when the scan ends
      without a match and without a callback error. */
  function LastBy<T>(q: Q<T>, p: Option<T -> Outcome<bool>>): (r: Answer<Option<T>>)
    ensures q.err.Some? ==> r == Answer(None, q.err)
    ensures q.err.None? && p.None? ==> r == Answer(None, Some(NilFunc))
    ensures r.value.Some? ==> r.err.None?
    ensures q.err.None? && p.Some? && r.value.Some? ==>
              exists i :: LastHit(p.value, q.values, i) && r.value.value == q.values[i]
    ensures q.err.None? && p.Some? && (forall i :: 0 <= i < |q.values| ==> Rejects(p.value, q.values[i])) ==>
              r == Answer(None, Some(NoElement))
    ensures q.err.None? && p.Some? && (exists k :: LastFailure(p.value, q.values, k)) ==>
              exists k :: LastFailure(p.value, q.values, k) && r == Answer(None, Some(p.value(q.values[k]).error))
    ensures forall i :: q.err.None? && p.Some? && LastHit(p.value, q.values, i) ==>
              r == Answer(Some(q.values[i]), None)
  {
    var m := LastMatch(q, p);
    if m.err.None? && m.value.None? then Answer(None, Some(NoElement))
    else if m.value.Some? then
      assert LastHit(p.value, q.values, m.value.value);
      Answer(Some(q.values[m.value.value]), m.err)
    else Answer(None, m.err)
  }

  /** LastOrNilBy: as LastBy, but no match gives (nil, nil). */
  function LastOrNilBy<T>(q: Q<T>, p: Option<T -> Outcome<bool>>): (r: Answer<Option<T>>)
    ensures q.err.Some? ==> r == Answer(None, q.err)
    ensures q.err.None? && p.None? ==> r == Answer(None, Some(NilFunc))
    ensures q.err.None? && p.Some? && (forall i :: 0 <= i < |q.values| ==> Rejects(p.value, q.values[i])) ==>
              r == Answer(None, None)
    ensures LastBy(q, p) == if r == Answer(None, None) then Answer(None, Some(NoElement)) else r
  {
    var m := LastMatch(q, p);
    Answer(if m.value.Some? then Some(q.values[m.value.value]) else None, m.err)
  }

  /** The back-to-front scan over q meets the same elements, in the same
      order, as the front-to-back scan over the reversed q. */
  lemma {:induction false} LastMatchIsFirstMatchOfReverse<T>(q: Q<T>, p: Option<T -> Outcome<bool>>)
    ensures LastMatch(q, p).err == FirstMatch(Windowing.Reverse(q), p).err
    ensures LastMatch(q, p).value.None? <==> FirstMatch(Windowing.Reverse(q), p).value.None?
    ensures LastMatch(q, p).value.Some? ==>
              FirstMatch(Windowing.Reverse(q), p).value.value == |q.values| - 1 - LastMatch(q, p).value.value
    decreases |q.values|
  {
    if q.err.None? && p.Some? && |q.values| > 0 {
      var v := q.values;
      var n := |v| - 1;
      var rv := Windowing.Reverse(q);
      var sub := Q(v[..n], None);
      assert rv.values[1..] == Windowing.Reverse(sub).values;
      assert Q(rv.values[1..], None) == Windowing.Reverse(sub);
      LastMatchIsFirstMatchOfReverse(sub, p);
    }
  }

  /** LastBy is FirstBy run on the reversed pipeline, and likewise for the
      OrNil variants. */
  lemma LastByIsFirstByOfReverse<T>(q: Q<T>, p: Option<T -> Outcome<bool>>)
    ensures LastBy(q, p) == FirstBy(Windowing.Reverse(q), p)
    ensures LastOrNilBy(q, p) == FirstOrNilBy(Windowing.Reverse(q), p)
  {
    LastMatchIsFirstMatchOfReverse(q, p);
    var a := LastMatch(q, p);
    var rv := Windowing.Reverse(q);
    var b := FirstMatch(rv, p);
    if a.value.Some? {
      var i := a.value.value;
      assert rv.values[|q.values| - 1 - i] == q.values[i];
    }
  }

  /** AnyWith is true exactly when FirstBy finds an element. */
  lemma AnyWithIffFirstByFinds<T>(q: Q<T>, p: Option<T -> Outcome<bool>>)
    ensures AnyWith(q, p).value <==> FirstBy(q, p).value.Some?
  {
  }
}

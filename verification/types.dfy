/** Shared vocabulary of the go-linq model: the pipeline state, its errors,
    what a callback returns and what a terminal operator returns. */
module Types {

  /** Go's nil, for slices and callbacks that may be absent. */
  datatype Option<+T> = None | Some(value: T)

  /** The five sentinel errors of the package, plus any error a user
      callback returns (identified by an opaque number). */
  datatype Err =
    | NilInput
    | NilFunc
    | NoElement
    | NegativeParam
    | UnsupportedType
    | User(id: nat)

  /** What a callback returns: a value with a nil error, or a non-nil error. */
  datatype Outcome<+V> = Ok(value: V) | Fail(error: Err)

  /** The Queryable: the current values and the carried fault.
      The `less` field only exists to drive the library sort and is not
      part of the value. */
  datatype Q<+T> = Q(values: seq<T>, err: Option<Err>)

  /** The (value, error) pair a terminal operator returns. */
  datatype Answer<+V> = Answer(value: V, err: Option<Err>)

  /** A callback that answers a predicate holds (true with a nil error). */
  ghost predicate Holds<T>(p: T -> Outcome<bool>, x: T) {
    p(x) == Ok(true)
  }

  /** A callback that answers a predicate does not hold (false with a nil error). */
  ghost predicate Rejects<T>(p: T -> Outcome<bool>, x: T) {
    p(x) == Ok(false)
  }

  /** No call of `f` on an element of `v` returns an error. */
  ghost predicate AllOk<T, V>(f: T -> Outcome<V>, v: seq<T>) {
    forall i :: 0 <= i < |v| ==> f(v[i]).Ok?
  }

  /** `a` is obtained from `b` by deleting elements, keeping the order. */
  ghost predicate IsSubseq<T>(a: seq<T>, b: seq<T>)
    decreases |b|
  {
    |a| == 0 || (|b| > 0 && ((a[0] == b[0] && IsSubseq(a[1..], b[1..])) || IsSubseq(a, b[1..])))
  }

  /** The set of values occurring in a sequence (the keys of a Go map built from it). */
  ghost function Elems<T>(s: seq<T>): set<T> {
    set x | x in s
  }

  /** No value occurs twice. */
  ghost predicate NoDup<T>(s: seq<T>) {
    forall i, j :: 0 <= i < j < |s| ==> s[i] != s[j]
  }
}

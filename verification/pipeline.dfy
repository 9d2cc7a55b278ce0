/** Chains of the non-terminal operators Where, Select, Take, Skip, Reverse
    and OrderBy. Each of these returns the receiver's fault unchanged, so the
    first fault in such a chain is the one that comes out at the end.
    DistinctBy with a nil comparer is the exception among the operators: it
    replaces an earlier fault with NilFunc, so it is not a stage here. */
module Pipeline {
  import opened Types
  import Elementwise
  import Windowing
  import Ordering

  /** One non-terminal operator with its arguments (elements stay of one
      type, as they do for Go's interface{} values). The hash-based set
      operators are methods and are covered by their own contracts. */
  datatype Stage<!T> =
    | WhereStage(p: Option<T -> Outcome<bool>>)
    | SelectStage(f: Option<T -> Outcome<T>>)
    | TakeStage(n: int)
    | SkipStage(n: int)
    | ReverseStage
    | OrderByStage(less: Option<(T, T) -> bool>)

  /** Apply one operator; a faulted receiver comes back as that fault with
      no values, whatever the operator. */
  function Apply<T>(q: Q<T>, s: Stage<T>): (r: Q<T>)
    ensures q.err.Some? ==> r == Q([], q.err)
  {
    match s
    case WhereStage(p) => Elementwise.Where(q, p)
    case SelectStage(f) => Elementwise.Select(q, f)
    case TakeStage(n) => Windowing.Take(q, n)
    case SkipStage(n) => Windowing.Skip(q, n)
    case ReverseStage => Windowing.Reverse(q)
    case OrderByStage(less) => Ordering.OrderBy(q, less)
  }

  /** Run the stages left to right, as a fluent chain does. */
  function Run<T>(q: Q<T>, stages: seq<Stage<T>>): Q<T>
    decreases |stages|
  {
    if |stages| == 0 then q else Run(Apply(q, stages[0]), stages[1..])
  }

  /** Running two chains one after the other is running their concatenation. */
  lemma {:induction false} RunConcat<T>(q: Q<T>, s1: seq<Stage<T>>, s2: seq<Stage<T>>)
    ensures Run(q, s1 + s2) == Run(Run(q, s1), s2)
    decreases |s1|
  {
    if |s1| > 0 {
      assert (s1 + s2)[0] == s1[0];
      assert (s1 + s2)[1..] == s1[1..] + s2;
      RunConcat(Apply(q, s1[0]), s1[1..], s2);
    } else {
      assert s1 + s2 == s2;
    }
  }

  /** A faulted pipeline stays faulted with the same fault through any chain. */
  lemma {:induction false} FaultIsSticky<T>(q: Q<T>, stages: seq<Stage<T>>)
    requires q.err.Some?
    ensures Run(q, stages).err == q.err
    ensures |stages| > 0 ==> Run(q, stages) == Q([], q.err)
    decreases |stages|
  {
    if |stages| > 0 {
      FaultIsSticky(Apply(q, stages[0]), stages[1..]);
    }
  }

  /** The first fault wins: once a prefix of the chain has faulted, the
      whole chain ends with that fault. */
  lemma FirstFaultWins<T>(q: Q<T>, s1: seq<Stage<T>>, s2: seq<Stage<T>>)
    requires Run(q, s1).err.Some?
    ensures Run(q, s1 + s2).err == Run(q, s1).err
  {
    RunConcat(q, s1, s2);
    FaultIsSticky(Run(q, s1), s2);
  }
}

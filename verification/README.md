# go-linq Queryable, modelled in Dafny

This project models the `Queryable` query pipeline of the go-linq package
(`linq.go`). A `Queryable` carries a slice of values and a sticky error.
Every non-terminal operator (`Where`, `Select`, `Distinct`, `DistinctBy`,
`Union`, `Intersect`, `Except`, `Reverse`, `Take`, `Skip`, `Order`,
`OrderBy`) returns a new `Queryable`, and every terminal operator (`Count`,
`CountBy`, `Any`, `AnyWith`, `All`, `Single`, `First…`, `Last…`, `Results`)
returns a value together with an error.

Modules:

- `Types` holds the shared vocabulary:
  - `Q<T>(values, err)` is the `Queryable`;
  - `Err` lists the package's sentinel errors, plus `User(id)` for errors returned by callbacks;
  - `Outcome<V>` is a callback's `(value, error)` pair;
  - `Option` stands for a nil slice or a nil callback;
  - `Answer<V>` is a terminal operator's `(value, error)` result.
- `Construct` models `From` and `Results`.
- `Elementwise` models `Where` and `Select`.
- `SetAlgebra` models the hash-map operators as methods:
  - `Distinct`, `Union`, `Intersect` and `Except` build their key set with loops that mirror the map inserts and deletes, then list the keys in an order of the method's choosing, as Go's map iteration does;
  - `DistinctBy` keeps the nested comparison loops and the `included` flags.
- `Windowing` models `Take`, `Skip` and `Reverse`.
- `Terminal` models the counting, quantifier and element-access operators. The helpers `firstBy` and `lastBy` become `FirstMatch` and `LastMatch`, which return the index of the match.
- `Ordering` models `Order` and `OrderBy`:
  - `OrderBy` is an insertion sort driven by the caller's `less`;
  - `Order` dispatches on the kind of the first element, as the Go type switch does.
- `Pipeline` chains the stages `Where`, `Select`, `Take`, `Skip`, `Reverse` and `OrderBy`, and proves that the first fault in such a chain is the fault at its end. `DistinctBy` with a nil comparer is the exception to first-fault-wins, because it replaces an earlier fault with `NilFunc`.

Behaviour worth knowing:

- When a callback fails part-way, `Where` and `Select` return the values built so far together with the error. `CountBy` returns the count so far and `All` returns the conjunction so far.
- `DistinctBy` with a nil comparer reports `NilFunc` even on a receiver that already carries an error. It checks the callback before the receiver's fault, so the earlier fault is replaced.
- `Take` and `Skip` clamp a negative count to 0 instead of reporting `NegativeParam`. No operator ever produces `NegativeParam`.

## Model

| member | source | states |
|---|---|---|
| Construct.From | linq.go:26-34 | a nil input gives exactly the `NilInput` fault with no values; any other input is carried over unchanged with no fault |
| Construct.Results | linq.go:36-38 | the returned pair is exactly the pipeline's values and error, so nothing is lost |
| Construct.FromResultsRoundTrip | linq.go:26-38 | `Results(From(s))` gives back `s` with no error, and a nil input comes back as the `NilInput` error |
| Elementwise.Where | linq.go:40-61 | fault passes through and a nil predicate gives `NilFunc`; the error is absent exactly when every call succeeds; the result is a subsequence whose elements all satisfy the predicate; without error each satisfying element keeps its full multiplicity and the others vanish; an error is some element's callback error |
| Elementwise.WhereStopsAtFirstFailure | linq.go:50-55 | when the first failing call is at index k, the result is the filter of the prefix before k plus that call's error |
| Elementwise.WhereKeepsAllHolding | linq.go:50-59 | a predicate true on every element leaves the sequence unchanged |
| Elementwise.WhereIdempotent | linq.go:40-61 | filtering twice gives the same error as filtering once, and the same result when there is no error |
| Elementwise.Select | linq.go:63-82 | fault passes through and a nil mapper gives `NilFunc`; each produced value is the mapper's result at the same index; without error the length is preserved; with error the values stop right before the failing element, whose callback error is reported |
| SetAlgebra.AddAll | linq.go:152-158 | inserting a slice into a key set gives the union of the set and the slice's elements |
| SetAlgebra.Enumerate | linq.go:164-169 | listing a key set gives every key exactly once |
| SetAlgebra.Distinct | linq.go:84-86 | fault passes through; otherwise the result has no duplicates and the same element set as the input |
| SetAlgebra.Union | linq.go:147-171 | fault passes through; otherwise the result has no duplicates and its elements are those of either side, a nil argument counting as empty |
| SetAlgebra.Intersect | linq.go:173-201 | fault passes through; otherwise the result has no duplicates and holds exactly the elements present on both sides |
| SetAlgebra.Except | linq.go:203-225 | fault passes through; otherwise the result has no duplicates and holds exactly the receiver's elements absent from the argument |
| SetAlgebra.MarkEqualLater | linq.go:130-139 | the inner loop flags every later element the comparer calls equal to element i, keeps the earlier flags, and on failure reports the error of the first later comparison that fails |
| SetAlgebra.DistinctBy | linq.go:88-145 | nil comparer gives `NilFunc` before the fault check; fault passes through; otherwise the result lists, in input order, the leftmost representative of each element: kept elements are pairwise unequal, every dropped element equals an earlier kept one, and each is kept only if no earlier kept element matched it; an error is some compared pair's callback error, with no values |
| Windowing.Clamp | linq.go:475-480 | the effective count lies in `[0, len]`: it equals n inside that range, 0 below it and len above it |
| Windowing.Take | linq.go:470-483 | fault passes through; otherwise the result is a prefix of the input of the clamped length |
| Windowing.Skip | linq.go:485-498 | fault passes through; otherwise the result is the input with the clamped number of leading elements removed |
| Windowing.TakeSkipSplit | linq.go:470-498 | for every n, `Take(n)` followed by `Skip(n)` reassembles the input |
| Windowing.TakeSkipClampEdges | linq.go:475-480 | a count of at most 0 takes nothing and skips nothing; a count of at least the length takes everything and skips everything |
| Windowing.Reverse | linq.go:455-468 | fault passes through; otherwise element j of the result is element `len-1-j` of the input |
| Windowing.ReverseInvolutive | linq.go:455-468 | reversing twice gives the input back |
| Windowing.ReversePermutes | linq.go:455-468 | reversal keeps the multiset of elements |
| Terminal.Count | linq.go:227-229 | the count is the number of values, and the pipeline's error is returned alongside it |
| Terminal.CountBy | linq.go:231-252 | fault gives 0 with the fault; nil predicate gives 0 with `NilFunc`; the error is absent exactly when every call succeeds; the count never exceeds the length |
| Terminal.CountByIsLengthOfWhere | linq.go:231-252 | `CountBy` returns exactly the length and error of `Where` with the same predicate, including the partial count on failure |
| Terminal.CountByCountsMatches | linq.go:241-250 | when every call succeeds, the count is the number of indices the predicate accepts |
| Terminal.CountByTrueIsCount | linq.go:227-252 | counting with an always-true predicate equals `Count` |
| Terminal.Any | linq.go:254-256 | the answer is true exactly when there is at least one value, and the pipeline's error is returned alongside it |
| Terminal.AnyIsCountPositive | linq.go:227-256 | `Any` is `Count > 0` with the same error |
| Terminal.AnyWith | linq.go:258-280 | the answer and error are those of the first-match scan, so it is true exactly when a match is found before any failure; when every call succeeds it is true exactly when some element satisfies the predicate |
| Terminal.AnyWithIgnoresRest | linq.go:268-278 | once the first match is found, later elements are never looked at: any suffix gives true with no error |
| Terminal.AnyWithIffFirstByFinds | linq.go:258-280 | `AnyWith` is true exactly when `FirstBy` finds an element |
| Terminal.All | linq.go:282-302 | fault gives false with the fault; nil predicate gives false with `NilFunc`; the error is absent exactly when every call succeeds; without error the answer is true exactly when every element satisfies the predicate, and an empty input gives true |
| Terminal.AllStopsAtFirstFailure | linq.go:292-300 | with the first failure at index k, the answer is whether every element before k satisfied the predicate, and the error is the one at k |
| Terminal.Single | linq.go:304-320 | fault and nil predicate give false with that error; otherwise the error is `CountBy`'s, and without error the answer is true exactly when the count is 1 |
| Terminal.SingleIffUniqueMatch | linq.go:304-320 | when every call succeeds, `Single` is true exactly when exactly one index satisfies the predicate |
| Terminal.First | linq.go:322-333 | fault passes through; an empty input gives `NoElement`; otherwise the first element with no error |
| Terminal.FirstOrNil | linq.go:335-344 | like `First`, but an empty input gives nil with no error |
| Terminal.Last | linq.go:388-399 | fault passes through; an empty input gives `NoElement`; otherwise the last element with no error |
| Terminal.LastOrNil | linq.go:401-410 | like `Last`, but an empty input gives nil with no error |
| Terminal.OrNilAgreesWithFirstAndLast | linq.go:322-344 | `First` and `Last` are their `OrNil` variants with a nil result turned into `NoElement` |
| Terminal.LastIsFirstOfReverse | linq.go:388-410 | `Last` and `LastOrNil` equal `First` and `FirstOrNil` of the reversed pipeline |
| Terminal.FirstMatch | linq.go:346-368 | a found index is the first one the predicate accepts, with everything before it rejected; "nothing found" with no error means every element was rejected; an error is the first failing call after only rejections |
| Terminal.FirstBy | linq.go:346-378 | fault and nil predicate pass through; when a first accepted element exists it is returned with no error, and any returned element is that one; an all-rejecting scan gives `NoElement`; a failure before any match gives that failure |
| Terminal.FirstOrNilBy | linq.go:380-386 | fault and nil predicate pass through; an all-rejecting scan gives nil with no error, and `FirstBy` is this result with that case turned into `NoElement` |
| Terminal.LastMatch | linq.go:412-435 | the back-to-front mirror of `FirstMatch`: a found index is the last one accepted with everything after it rejected, and an error is the first failure met scanning from the end |
| Terminal.LastBy | linq.go:412-445 | fault and nil predicate pass through; when a last accepted element exists it is returned with no error, and any returned element is that one; an all-rejecting scan gives `NoElement`; a failure met scanning from the end, before any match, gives that failure |
| Terminal.LastOrNilBy | linq.go:447-453 | fault and nil predicate pass through; an all-rejecting scan gives nil with no error, and `LastBy` is this result with that case turned into `NoElement` |
| Terminal.LastMatchIsFirstMatchOfReverse | linq.go:412-435 | scanning from the end finds index i exactly when scanning the reversed sequence from the front finds `len-1-i`, with the same error |
| Terminal.LastByIsFirstByOfReverse | linq.go:437-453 | `LastBy` and `LastOrNilBy` equal `FirstBy` and `FirstOrNilBy` of the reversed pipeline |
| Ordering.Insert | linq.go:540 | inserting into a sorted run adds exactly one copy of the element |
| Ordering.SortBy | linq.go:540 | the sort returns a permutation of its input |
| Ordering.SortBySorted | linq.go:540 | when `less` is a strict weak order on the elements, the sort's output is ordered by it |
| Ordering.SortedPermutationUnique | linq.go:528-541 | two sorted permutations of the same elements are equal when `less` relates every pair of distinct elements, so the output of `OrderBy` does not depend on the sorting algorithm |
| Ordering.OrderBy | linq.go:528-541 | fault passes through; nil `less` gives `NilFunc`; otherwise the result is a permutation of the input, sorted by `less` whenever `less` is a strict weak order on the values |
| Ordering.OrderByIsTheSort | linq.go:528-541 | for a total strict order, `OrderBy` returns the one sorted permutation of the input |
| Ordering.StrLessTransitive | linq.go:513-516 | byte-wise string comparison is transitive |
| Ordering.NaturalLessIsTotalOn | linq.go:507-516 | on all-int or all-string input, the natural `<` is a strict weak order that relates every pair of distinct values |
| Ordering.Order | linq.go:501-526 | fault passes through; empty input stays empty; a first element of an unsupported kind gives `UnsupportedType`; int input comes back as an ascending permutation, and string input as a lexicographically ascending permutation |
| Ordering.OrderSortsKind | linq.go:507-516 | sorting all-int input with the natural order gives ascending ints, and all-string input gives ascending strings |
| Ordering.OrderIsTheAscendingSort | linq.go:507-516 | any ascending permutation of int or string input is exactly what `Order` returns |
| Ordering.OrderSortsSmallExample | linq.go:507-512 | `Order` on `[3, 1, 2]` gives `[1, 2, 3]` |
| Ordering.OrderIsOrderByNatural | linq.go:501-541 | for int and string input, `Order` equals `OrderBy` with the natural `<` |
| Pipeline.Apply | linq.go:40-44 | every non-terminal stage maps a faulted receiver to that fault with no values |
| Pipeline.RunConcat | linq.go:40-44 | running two chains in turn is running their concatenation |
| Pipeline.FaultIsSticky | linq.go:40-44 | a faulted pipeline keeps its fault through any chain of stages |
| Pipeline.FirstFaultWins | linq.go:40-44 | once a prefix of a chain has faulted, the whole chain ends with that fault |

## Left out

- Ordering.Order: the `float64` branch is not modelled. Its `requires` excludes a float first element, and it also excludes mixed-kind input. The conversion helpers are called at linq.go:510 and linq.go:514, but their behaviour on mixed-kind input is not shown in linq.go, so mixed kinds are excluded. The float order involves NaN comparisons, and floating point is outside this model.
- Ordering.StrLess: strings are sequences of Unicode code points. Go strings are byte strings, and `sort.Strings` compares them byte by byte. The two orders agree on valid UTF-8, but a Go string that holds invalid UTF-8 cannot be represented here.
- The conversion helpers `toInts`, `toStrings` and `toFloat64s` are not part of this model. `Order` works on the `Value` datatype directly.
- The `sort.Interface` adapter (`Len`, `Swap`, `Less`) and the hidden `less` field are replaced by the insertion sort `SortBy`. Only its result is specified: a permutation, sorted under a strict weak order. Stability is not claimed, because `sort.Sort` is not stable either.
- Go distinguishes a nil slice from an empty one in results, for example `Where` with no match returns a nil slice. Both are the empty sequence here.
- Slice aliasing is not modelled: `From` and the operators that return the receiver's slice share its backing array in Go.
- Error messages are not modelled. Errors are the `Err` constructors, and callback errors are `User(id)`.
- Go map iteration order is unspecified. `Distinct`, `Union`, `Intersect` and `Except` promise only the element set and the absence of duplicates, not an order.
- Keys that are not hashable make Go's map operations panic. The set operators require `T(==)` instead.
- Callbacks are pure functions here. Side effects and call counts are not modelled, except that short-circuiting is stated by the "stops at first" lemmas.
- Go's `int` width does not matter here: counts are lengths, and `Take`/`Skip` clamp into the slice length.
- SetAlgebra.DistinctBy: on a comparer failure the contract names some failing pair, not necessarily the first pair in scan order.
- Terminal.FirstOrNil and Terminal.LastOrNil: a nil element stored in the slice cannot be told apart from "no element" in Go. The model has no nil elements, so this ambiguity is left out.

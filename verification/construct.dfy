/** Entry and exit of a pipeline: From and Results. */
module Construct {
  import opened Types

  /** From wraps a slice; a nil slice (None) is the only construction error,
      and an empty non-nil slice is accepted. */
  function From<T>(input: Option<seq<T>>): (r: Q<T>)
    ensures r.err == Some(NilInput) <==> input.None?
    ensures r.err.Some? ==> r.err == Some(NilInput)
    ensures input.Some? ==> r.values == input.value
    ensures input.None? ==> |r.values| == 0
  {
    match input
    case None => Q([], Some(NilInput))
    case Some(s) => Q(s, None)
  }

  /** Results hands back the stored values and the stored fault. */
  function Results<T>(q: Q<T>): (r: Answer<seq<T>>)
    ensures Q(r.value, r.err) == q
  {
    Answer(q.values, q.err)
  }

  /** A non-nil input comes back out of Results untouched and unfaulted;
      a nil input comes back empty with NilInput. */
  lemma FromResultsRoundTrip<T>(input: Option<seq<T>>)
    ensures input.Some? ==> Results(From(input)) == Answer(input.value, None)
    ensures input.None? ==> Results(From(input)) == Answer([], Some(NilInput))
  {
  }
}

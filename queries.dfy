/**
 * `parseQueryResult`: the first sample of an instant-query result, optionally transformed,
 * or `null` when there is none.
 */
module Queries {
  import opened Wrappers

  /** A sample: its timestamp and its value (Prometheus values are numbers; NaN is not modelled). */
  datatype SampleValue = SampleValue(time: int, value: real)

  /** One series of an instant vector: its labels and its sample. */
  datatype InstantVector = InstantVector(metric: map<string, string>, value: SampleValue)

  /** What the Prometheus driver returns for an instant query; `result` may be absent. */
  datatype QueryResult = QueryResult(resultType: string, result: Option<seq<InstantVector>>)

  /** `result` is present and has at least one series. */
  predicate HasSample(q: QueryResult)
  {
    q.result.Some? && |q.result.value| > 0
  }

  /** The value of the first series, the only one the monitor ever looks at. */
  function FirstValue(q: QueryResult): real
    requires HasSample(q)
  {
    q.result.value[0].value.value
  }

  /** `parseQueryResult(queryResult, transformer)`. */
  function ParseQueryResult<T>(q: QueryResult, transformer: real -> T): (r: Option<T>)
    ensures r.None? <==> q.result.None? || |q.result.value| == 0
    ensures r.Some? ==> r.value == transformer(q.result.value[0].value.value)
  {
    if q.result.None? || |q.result.value| == 0 then None
    else Some(transformer(q.result.value[0].value.value))
  }

  /** `parseQueryResult(queryResult)` without a transformer: the raw first value. */
  function ParseQueryValue(q: QueryResult): (r: Option<real>)
    ensures r.None? <==> !HasSample(q)
    ensures r.Some? ==> r.value == FirstValue(q)
  {
    ParseQueryResult(q, v => v)
  }

  /** Only the first series is consulted: results that agree on it parse the same. */
  lemma OnlyFirstSeriesMatters<T>(q1: QueryResult, q2: QueryResult, transformer: real -> T)
    requires HasSample(q1) && HasSample(q2)
    requires q1.result.value[0].value.value == q2.result.value[0].value.value
    ensures ParseQueryResult(q1, transformer) == ParseQueryResult(q2, transformer)
  {
  }

  /** Transforming the parsed value is the same as parsing with the transformer. */
  lemma TransformerCommutes<T>(q: QueryResult, transformer: real -> T)
    ensures ParseQueryResult(q, transformer) ==
      match ParseQueryValue(q) case None => None case Some(v) => Some(transformer(v))
  {
  }
}

/**
 * The aggregation queries: average uptime over an interval, connectivity at an instant and
 * validator info at an instant, each answered from instant queries on the time-series store.
 * The Prometheus driver is a function from a query and an instant (milliseconds) to its result.
 */
module Aggregations {
  import opened Wrappers
  import opened Queries
  import opened Time

  /** `driver.instantQuery(query, time)`. */
  type Driver = (string, int) -> QueryResult

  /** One instant query issued: the PromQL expression and the evaluation instant. */
  datatype Query = Query(expr: string, at: int)

  /** A JavaScript `Date`, by its time value in milliseconds. */
  datatype Date = Date(time: int)

  /** The error the manager throws: an HTTP 400 with its message. */
  datatype HttpError = BadRequest(message: string)

  datatype UptimeResponse = UptimeResponse(uptime: real)
  datatype ConnectedResponse = ConnectedResponse(connected: bool)
  datatype ValidatorInfoResponse =
    ValidatorInfoResponse(nodeID: string, startTime: Date, endTime: Date, uptime: real)

  /** A reply together with the instant queries that produced it, in the order they were issued. */
  datatype Answer<T> = Answer(reply: Option<T>, issued: seq<Query>)

  /** `Boolean(v)` for a number: every value but zero is truthy. */
  predicate Truthy(v: real) { v != 0.0 }

  /** `new Date(v)`: the time value is the sample truncated toward zero to whole milliseconds. */
  function DateFromValue(v: real): (d: Date)
    ensures v >= 0.0 ==> 0 <= d.time && d.time as real <= v < d.time as real + 1.0
    ensures v < 0.0 ==> d.time <= 0 && d.time as real - 1.0 < v <= d.time as real
  {
    if v >= 0.0 then Date(v.Floor) else Date(-((-v).Floor))
  }

  /** The selector `<metric>{NodeID="<id>"}`. */
  function Selector(metric: string, nodeId: string): string
  {
    metric + "{NodeID=\"" + nodeId + "\"}"
  }

  /** The text in front of the window in an average-connectivity query. */
  function AveragePrefix(nodeId: string): string
  {
    "avg_over_time(" + Selector("validators_connected", nodeId) + "["
  }

  /** `avg_over_time(validators_connected{NodeID="<id>"}[<window>])`. */
  function AverageQuery(nodeId: string, window: string): string
  {
    AveragePrefix(nodeId) + window + "])"
  }

  /** The window of an average-connectivity query for a known node id. */
  function WindowOf(query: string, nodeId: string): string
    requires |query| >= |AveragePrefix(nodeId)| + 2
  {
    query[|AveragePrefix(nodeId)|..|query| - 2]
  }

  /** The window can be read back out of the query built from it. */
  lemma WindowOfAverageQuery(nodeId: string, window: string)
    ensures WindowOf(AverageQuery(nodeId, window), nodeId) == window
  {
    var q := AverageQuery(nodeId, window);
    assert q == AveragePrefix(nodeId) + (window + "])");
  }

  /**
   * `averageValidatorUptime(nodeId, from, to)`: a BAD_REQUEST, with no query issued, when the
   * interval is not positive; otherwise one average query over the interval rendered by
   * `toPrometheusTime`, evaluated at `to`, and an answer only when its value is truthy.
   */
  function AverageValidatorUptime(driver: Driver, nodeId: string, from: Date, to: Date)
    : (r: Result<Answer<UptimeResponse>, HttpError>)
    ensures r.Failure? <==> to.time - from.time <= 0
    ensures r.Success? ==>
      var q := Query(AverageQuery(nodeId, ToPrometheusTime(to.time - from.time)), to.time);
      && r.value.issued == [q]
      && (r.value.reply.Some? <==> HasSample(driver(q.expr, q.at)) && Truthy(FirstValue(driver(q.expr, q.at))))
      && (r.value.reply.Some? ==> r.value.reply.value.uptime == FirstValue(driver(q.expr, q.at)))
  {
    var duration := to.time - from.time;
    if duration <= 0 then Failure(BadRequest("Invalid duration"))
    else
      var query := Query(AverageQuery(nodeId, ToPrometheusTime(duration)), to.time);
      var value := ParseQueryValue(driver(query.expr, query.at));
      var reply := if value.Some? && Truthy(value.value) then Some(UptimeResponse(value.value)) else None;
      Success(Answer(reply, [query]))
  }

  /**
   * The window of the query `averageValidatorUptime` issues is the requested interval rounded to
   * whole seconds (empty when the interval is under half a second).
   */
  lemma UptimeQueryWindow(driver: Driver, nodeId: string, from: Date, to: Date)
    requires to.time - from.time > 0
    ensures var r := AverageValidatorUptime(driver, nodeId, from, to);
      && r.Success? && |r.value.issued| == 1
      && |r.value.issued[0].expr| >= |AveragePrefix(nodeId)| + 2
      && ParseDuration(WindowOf(r.value.issued[0].expr, nodeId)) == Some(RoundedSeconds(to.time - from.time))
  {
    var duration := to.time - from.time;
    var window := ToPrometheusTime(duration);
    var r := AverageValidatorUptime(driver, nodeId, from, to);
    var expr := AverageQuery(nodeId, window);
    assert r.value.issued == [Query(expr, to.time)];
    assert |expr| == |AveragePrefix(nodeId)| + |window| + 2;
    WindowOfAverageQuery(nodeId, window);
    RenderParseRoundTrip(duration);
  }

  /**
   * `validatorConnectedAt(nodeId, at)`: one query of the node's connectivity gauge at `at`; the
   * answer is `{connected: true}` when the value is truthy and `null` otherwise, never
   * `{connected: false}`.
   */
  function ValidatorConnectedAt(driver: Driver, nodeId: string, at: Date): (r: Answer<ConnectedResponse>)
    ensures r.issued == [Query(Selector("validators_connected", nodeId), at.time)]
    ensures var q := driver(Selector("validators_connected", nodeId), at.time);
      r.reply.Some? <==> HasSample(q) && Truthy(FirstValue(q))
    ensures r.reply.Some? ==> r.reply.value.connected
  {
    var query := Query(Selector("validators_connected", nodeId), at.time);
    var value := ParseQueryResult(driver(query.expr, query.at), Truthy);
    Answer(if value.Some? && value.value then Some(ConnectedResponse(value.value)) else None, [query])
  }

  /**
   * `validatorInfoAt(nodeId, at)`: the start time at `at`, then the end time at `at`, stopping
   * with `null` after the first empty result; then the average connectivity over
   * `endTime - startTime`, evaluated at `endTime` and with no positivity check. A `Date` is always
   * truthy, so only an empty result stops the chain; a zero average answers `null`.
   */
  function ValidatorInfoAt(driver: Driver, nodeId: string, at: Date): (r: Answer<ValidatorInfoResponse>)
    ensures 1 <= |r.issued| <= 3
    ensures r.issued[0] == Query(Selector("validators_start_time", nodeId), at.time)
    ensures |r.issued| == 1 <==> !HasSample(driver(r.issued[0].expr, r.issued[0].at))
    ensures |r.issued| >= 2 ==> r.issued[1] == Query(Selector("validators_end_time", nodeId), at.time)
    ensures |r.issued| == 2 <==> |r.issued| >= 2 && !HasSample(driver(r.issued[1].expr, r.issued[1].at))
    ensures |r.issued| == 3 ==>
      var start := DateFromValue(FirstValue(driver(r.issued[0].expr, r.issued[0].at)));
      var end := DateFromValue(FirstValue(driver(r.issued[1].expr, r.issued[1].at)));
      var avg := driver(r.issued[2].expr, r.issued[2].at);
      && r.issued[2] == Query(AverageQuery(nodeId, ToPrometheusTime(end.time - start.time)), end.time)
      && (r.reply.Some? <==> HasSample(avg) && Truthy(FirstValue(avg)))
      && (r.reply.Some? ==> r.reply.value == ValidatorInfoResponse(nodeId, start, end, FirstValue(avg)))
    ensures r.reply.Some? ==> |r.issued| == 3
  {
    var startQuery := Query(Selector("validators_start_time", nodeId), at.time);
    var startTime := ParseQueryResult(driver(startQuery.expr, startQuery.at), DateFromValue);
    if startTime.None? then Answer(None, [startQuery])
    else
      var endQuery := Query(Selector("validators_end_time", nodeId), at.time);
      var endTime := ParseQueryResult(driver(endQuery.expr, endQuery.at), DateFromValue);
      if endTime.None? then Answer(None, [startQuery, endQuery])
      else
        var duration := endTime.value.time - startTime.value.time;
        var avgQuery := Query(AverageQuery(nodeId, ToPrometheusTime(duration)), endTime.value.time);
        var average := ParseQueryValue(driver(avgQuery.expr, avgQuery.at));
        var issued := [startQuery, endQuery, avgQuery];
        if average.None? || !Truthy(average.value) then Answer(None, issued)
        else Answer(Some(ValidatorInfoResponse(nodeId, startTime.value, endTime.value, average.value)), issued)
  }
}

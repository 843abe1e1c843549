/**
 * What one tick makes of the sources' answers: the per-node records folded from every
 * observation, the gauge contents derived from them, and the per-source availability flags.
 * These functions specify the imperative tick commits of both revisions of the uptime manager.
 */
module Reconcile {
  import opened Types

  /** The folded record of one node: connected in any observation, times of the first one. */
  datatype MetricsData = MetricsData(connected: bool, startTime: int, endTime: int)

  /**
   * The insertion-ordered map `nodeID -> MetricsData`: the ids in first-seen order and the
   * record of each.
   */
  datatype Reconciled = Reconciled(order: seq<string>, data: map<string, MetricsData>)

  /** The records a source contributes: its list, or nothing when it answered `null`/`undefined`. */
  function Records(response: Response): seq<ValidatorResponse>
  {
    if response.List? then response.validators else []
  }

  /** Every observation of the tick, source by source in URL order, each source's list in order. */
  function Observations(responses: seq<SourceResponse>): seq<ValidatorResponse>
  {
    if |responses| == 0 then []
    else Observations(responses[..|responses| - 1]) + Records(responses[|responses| - 1].response)
  }

  /** At least one source answered with a list. */
  predicate Answered(responses: seq<SourceResponse>)
  {
    exists k :: 0 <= k < |responses| && !responses[k].response.IsNullish()
  }

  /** Folding one observation: OR into a known node's flag, or a new record at the end. */
  function Observe(r: Reconciled, v: ValidatorResponse): Reconciled
  {
    if v.nodeID in r.data then
      var md := r.data[v.nodeID];
      r.(data := r.data[v.nodeID := md.(connected := md.connected || v.connected)])
    else
      Reconciled(r.order + [v.nodeID], r.data[v.nodeID := MetricsData(v.connected, v.startTime, v.endTime)])
  }

  /** The fold of a sequence of observations from the empty map. */
  function ObserveAll(obs: seq<ValidatorResponse>): Reconciled
  {
    if |obs| == 0 then Reconciled([], map[])
    else Observe(ObserveAll(obs[..|obs| - 1]), obs[|obs| - 1])
  }

  lemma ObserveAllSnoc(obs: seq<ValidatorResponse>, v: ValidatorResponse)
    ensures ObserveAll(obs + [v]) == Observe(ObserveAll(obs), v)
  {
    assert (obs + [v])[..|obs|] == obs;
  }

  lemma ObservationsSnoc(responses: seq<SourceResponse>, i: nat)
    requires i < |responses|
    ensures Observations(responses[..i + 1]) == Observations(responses[..i]) + Records(responses[i].response)
  {
    assert responses[..i + 1][..i] == responses[..i];
  }

  /** Some observation is about `id`. */
  predicate Reported(obs: seq<ValidatorResponse>, id: string)
  {
    exists k :: 0 <= k < |obs| && obs[k].nodeID == id
  }

  /** The order lists each known id exactly once. */
  ghost predicate WellFormed(r: Reconciled)
  {
    && (forall i, j :: 0 <= i < j < |r.order| ==> r.order[i] != r.order[j])
    && (forall id :: id in r.data <==> id in r.order)
  }

  /** The fold is a well-formed ordered map whose keys are exactly the reported ids. */
  lemma {:induction false} ObserveAllKeys(obs: seq<ValidatorResponse>)
    ensures WellFormed(ObserveAll(obs))
    ensures forall id :: id in ObserveAll(obs).data <==> Reported(obs, id)
  {
    if |obs| > 0 {
      var prefix := obs[..|obs| - 1];
      ObserveAllKeys(prefix);
      forall id ensures Reported(obs, id) <==> Reported(prefix, id) || obs[|obs| - 1].nodeID == id {
        if Reported(obs, id) && obs[|obs| - 1].nodeID != id {
          var k :| 0 <= k < |obs| && obs[k].nodeID == id;
          assert prefix[k].nodeID == id;
        }
        if Reported(prefix, id) {
          var k :| 0 <= k < |prefix| && prefix[k].nodeID == id;
          assert obs[k].nodeID == id;
        }
      }
    }
  }

  /** A node's reconciled `connected` is the OR of its flags over every observation of it. */
  lemma {:induction false} ConnectedIsOr(obs: seq<ValidatorResponse>, id: string)
    requires Reported(obs, id)
    ensures id in ObserveAll(obs).data
    ensures ObserveAll(obs).data[id].connected
      <==> exists k :: 0 <= k < |obs| && obs[k].nodeID == id && obs[k].connected
  {
    ObserveAllKeys(obs);
    var prefix := obs[..|obs| - 1];
    var v := obs[|obs| - 1];
    if Reported(prefix, id) {
      ConnectedIsOr(prefix, id);
      if ObserveAll(obs).data[id].connected && v.nodeID != id {
        var k :| 0 <= k < |prefix| && prefix[k].nodeID == id && prefix[k].connected;
        assert obs[k] == prefix[k];
      }
      if ObserveAll(prefix).data[id].connected {
        var k :| 0 <= k < |prefix| && prefix[k].nodeID == id && prefix[k].connected;
        assert obs[k] == prefix[k];
      }
      forall k | 0 <= k < |prefix| && obs[k].nodeID == id && obs[k].connected
        ensures ObserveAll(prefix).data[id].connected
      {
        assert prefix[k] == obs[k];
      }
    } else {
      ObserveAllKeys(prefix);
      assert v.nodeID == id;
      forall k | 0 <= k < |prefix| ensures obs[k].nodeID != id {
        assert prefix[k] == obs[k];
      }
    }
  }

  /**
   * The start and end times of a node are those of its first observation; later observations
   * never change them.
   */
  lemma {:induction false} FirstObservationWins(obs: seq<ValidatorResponse>, k: nat)
    requires k < |obs| && forall j :: 0 <= j < k ==> obs[j].nodeID != obs[k].nodeID
    ensures obs[k].nodeID in ObserveAll(obs).data
    ensures ObserveAll(obs).data[obs[k].nodeID].startTime == obs[k].startTime
    ensures ObserveAll(obs).data[obs[k].nodeID].endTime == obs[k].endTime
    decreases |obs|
  {
    var prefix := obs[..|obs| - 1];
    var id := obs[k].nodeID;
    if k == |obs| - 1 {
      ObserveAllKeys(prefix);
      forall j | 0 <= j < |prefix| ensures prefix[j].nodeID != id {
        assert prefix[j] == obs[j];
      }
    } else {
      FirstObservationWins(prefix, k);
    }
  }

  // ---------------------------------------------------------------------------------------------
  // Gauge contents after a tick that had an answer
  // ---------------------------------------------------------------------------------------------

  /** `validators_connected`: 1 or 0 per node. */
  function ConnectedGauge(data: map<string, MetricsData>): map<string, int>
  {
    map id | id in data :: if data[id].connected then 1 else 0
  }

  /** `validators_start_time`: the start time in milliseconds per node. */
  function StartTimeGauge(data: map<string, MetricsData>): map<string, int>
  {
    map id | id in data :: data[id].startTime * 1000
  }

  /** `validators_end_time`: the end time in milliseconds per node. */
  function EndTimeGauge(data: map<string, MetricsData>): map<string, int>
  {
    map id | id in data :: data[id].endTime * 1000
  }

  /** The reconciled records of the ids in `ids` only. */
  function Only(data: map<string, MetricsData>, ids: set<string>): map<string, MetricsData>
  {
    map id | id in data && id in ids :: data[id]
  }

  /** Writing one more node's series extends each node gauge by that node. */
  lemma GaugesStep(data: map<string, MetricsData>, ids: set<string>, id: string)
    requires id in data
    ensures ConnectedGauge(Only(data, ids + {id}))
      == ConnectedGauge(Only(data, ids))[id := if data[id].connected then 1 else 0]
    ensures StartTimeGauge(Only(data, ids + {id})) == StartTimeGauge(Only(data, ids))[id := data[id].startTime * 1000]
    ensures EndTimeGauge(Only(data, ids + {id})) == EndTimeGauge(Only(data, ids))[id := data[id].endTime * 1000]
  {
    assert Only(data, ids + {id}) == Only(data, ids)[id := data[id]];
  }

  /**
   * After a tick, each node gauge holds exactly the reported ids: `validators_connected` is 1
   * exactly for the ids some observation reported connected, and the times are those of the
   * id's first observation, in milliseconds.
   */
  lemma GaugesOfTick(obs: seq<ValidatorResponse>, k: nat)
    requires k < |obs| && forall j :: 0 <= j < k ==> obs[j].nodeID != obs[k].nodeID
    ensures var data := ObserveAll(obs).data; var id := obs[k].nodeID;
      && (forall x :: x in ConnectedGauge(data) <==> Reported(obs, x))
      && ConnectedGauge(data)[id] == (if exists j :: 0 <= j < |obs| && obs[j].nodeID == id && obs[j].connected then 1 else 0)
      && StartTimeGauge(data)[id] == obs[k].startTime * 1000
      && EndTimeGauge(data)[id] == obs[k].endTime * 1000
  {
    ObserveAllKeys(obs);
    ConnectedIsOr(obs, obs[k].nodeID);
    FirstObservationWins(obs, k);
  }

  // ---------------------------------------------------------------------------------------------
  // node_available
  // ---------------------------------------------------------------------------------------------

  /** 0 for a source that answered `null` or `undefined`, 1 otherwise. */
  function Availability(response: Response): (flag: int)
    ensures flag == 0 || flag == 1
    ensures flag == 1 <==> response.List?
  {
    if response.IsNullish() then 0 else 1
  }

  /** `node_available` after setting the flag of every source in turn. */
  function ApplyAvailability(gauge: map<string, int>, responses: seq<SourceResponse>): map<string, int>
  {
    if |responses| == 0 then gauge
    else
      var last := responses[|responses| - 1];
      ApplyAvailability(gauge, responses[..|responses| - 1])[last.url := Availability(last.response)]
  }

  lemma ApplyAvailabilitySnoc(gauge: map<string, int>, responses: seq<SourceResponse>, i: nat)
    requires i < |responses|
    ensures ApplyAvailability(gauge, responses[..i + 1])
      == ApplyAvailability(gauge, responses[..i])[responses[i].url := Availability(responses[i].response)]
  {
    assert responses[..i + 1][..i] == responses[..i];
  }

  /** The URLs of a responses map are distinct, as the keys of a map are. */
  predicate DistinctUrls(responses: seq<SourceResponse>)
  {
    forall i, j :: 0 <= i < j < |responses| ==> responses[i].url != responses[j].url
  }

  /** The gauge gains exactly the sources' URLs. */
  lemma {:induction false} AvailabilityKeys(gauge: map<string, int>, responses: seq<SourceResponse>, url: string)
    ensures url in ApplyAvailability(gauge, responses)
      <==> url in gauge || exists k :: 0 <= k < |responses| && responses[k].url == url
  {
    if |responses| > 0 {
      var prefix := responses[..|responses| - 1];
      AvailabilityKeys(gauge, prefix, url);
      if url != responses[|responses| - 1].url && exists k :: 0 <= k < |responses| && responses[k].url == url {
        var k :| 0 <= k < |responses| && responses[k].url == url;
        assert prefix[k].url == url;
      }
      if exists k :: 0 <= k < |prefix| && prefix[k].url == url {
        var k :| 0 <= k < |prefix| && prefix[k].url == url;
        assert responses[k].url == url;
      }
    }
  }

  /** Every source's URL maps to its own flag. */
  lemma {:induction false} AvailabilityOfSource(gauge: map<string, int>, responses: seq<SourceResponse>, k: nat)
    requires DistinctUrls(responses) && k < |responses|
    ensures responses[k].url in ApplyAvailability(gauge, responses)
    ensures ApplyAvailability(gauge, responses)[responses[k].url] == Availability(responses[k].response)
  {
    if k < |responses| - 1 {
      var prefix := responses[..|responses| - 1];
      assert prefix[k] == responses[k];
      AvailabilityOfSource(gauge, prefix, k);
    }
  }

  /** The flags of URLs that are not sources are untouched. */
  lemma {:induction false} AvailabilityElsewhere(gauge: map<string, int>, responses: seq<SourceResponse>, url: string)
    requires url in gauge && forall k :: 0 <= k < |responses| ==> responses[k].url != url
    ensures url in ApplyAvailability(gauge, responses) && ApplyAvailability(gauge, responses)[url] == gauge[url]
  {
    if |responses| > 0 {
      var prefix := responses[..|responses| - 1];
      forall k | 0 <= k < |prefix| ensures prefix[k].url != url {
        assert prefix[k] == responses[k];
      }
      AvailabilityElsewhere(gauge, prefix, url);
    }
  }

}

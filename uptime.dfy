/**
 * The uptime manager of the service: on each tick it folds the sources' answers into one
 * record per node, publishes the per-source and per-node gauges, keeps the watched-node map in
 * step with the reported nodes and asks for a dashboard update when that map changed.
 */
module Uptime {
  import opened Types
  import opened Reconcile
  import opened WatchSet
  import Prometheus

  /**
   * The inner loop of `updateMetrics` over one source's list: each record is OR-ed into its
   * node's entry or added as a new entry at the end.
   */
  method FoldRecords(order: seq<string>, data: map<string, MetricsData>, validators: seq<ValidatorResponse>,
                     ghost seen: seq<ValidatorResponse>)
    returns (metricsOrder: seq<string>, metricsData: map<string, MetricsData>)
    requires Reconciled(order, data) == ObserveAll(seen)
    ensures Reconciled(metricsOrder, metricsData) == ObserveAll(seen + validators)
  {
    metricsOrder, metricsData := order, data;
    var j := 0;
    assert seen + validators[..0] == seen;
    while j < |validators|
      invariant 0 <= j <= |validators|
      invariant Reconciled(metricsOrder, metricsData) == ObserveAll(seen + validators[..j])
    {
      var v := validators[j];
      ObserveAllSnoc(seen + validators[..j], v);
      assert seen + validators[..j + 1] == (seen + validators[..j]) + [v];
      if v.nodeID in metricsData {
        var md := metricsData[v.nodeID];
        metricsData := metricsData[v.nodeID := md.(connected := md.connected || v.connected)];
      } else {
        metricsData := metricsData[v.nodeID := MetricsData(v.connected, v.startTime, v.endTime)];
        metricsOrder := metricsOrder + [v.nodeID];
      }
      j := j + 1;
    }
    assert validators[..j] == validators;
  }

  class UptimeManager {
    const registry: Prometheus.Registry
    /** `validatorNodeData`: the entries of the watched-node map ... */
    var validatorNodeData: Entries
    /** ... and its insertion order. */
    var watchOrder: seq<string>
    /** The node lists passed to the dashboard manager's `update`, oldest first. */
    ghost var dashboardUpdates: seq<seq<ValidatorNodeDataItem>>

    ghost predicate Valid()
      reads this
    {
      Consistent(watchOrder, validatorNodeData) && KeyedById(validatorNodeData)
    }

    constructor (registry: Prometheus.Registry)
      ensures Valid()
      ensures this.registry == registry
      ensures validatorNodeData == map[] && watchOrder == [] && dashboardUpdates == []
    {
      this.registry := registry;
      validatorNodeData := map[];
      watchOrder := [];
      dashboardUpdates := [];
    }

    /** The watched items in insertion order: `[...this.validatorNodeData.values()]`. */
    function WatchedItems(): seq<ValidatorNodeDataItem>
      reads this
      requires Valid()
    {
      Items(watchOrder, validatorNodeData)
    }

    /**
     * `updateMetrics(responses)`: every source's `node_available` flag is written, even when no
     * source answered; if none did, nothing else changes. Otherwise the three node gauges hold
     * exactly the reconciled nodes, the watched map becomes the reported nodes (in the order
     * `NextOrder` gives), and the dashboard update is requested exactly when the map changed.
     */
    method UpdateMetrics(responses: seq<SourceResponse>)
      requires Valid()
      modifies this, registry
      ensures Valid()
      ensures registry.nodeAvailable == ApplyAvailability(old(registry.nodeAvailable), responses)
      ensures !Answered(responses) ==>
        && registry.connectedCounter == old(registry.connectedCounter)
        && registry.validatorStartTime == old(registry.validatorStartTime)
        && registry.validatorEndTime == old(registry.validatorEndTime)
        && validatorNodeData == old(validatorNodeData) && watchOrder == old(watchOrder)
        && dashboardUpdates == old(dashboardUpdates)
      ensures Answered(responses) ==>
        var r := ObserveAll(Observations(responses));
        && registry.connectedCounter == ConnectedGauge(r.data)
        && registry.validatorStartTime == StartTimeGauge(r.data)
        && registry.validatorEndTime == EndTimeGauge(r.data)
        && validatorNodeData == NextEntries(old(validatorNodeData), r.data)
        && watchOrder == NextOrder(old(watchOrder), old(validatorNodeData), r)
        && dashboardUpdates == old(dashboardUpdates)
             + (if Changed(old(validatorNodeData), r.data) then [WatchedItems()] else [])
    {
      var metricsOrder, metricsData, hasValidResponse := Fold(responses);
      if !hasValidResponse {
        return;
      }
      ghost var r := Reconciled(metricsOrder, metricsData);
      ObserveAllKeys(Observations(responses));
      assert forall k :: 0 <= k < |metricsOrder| ==> metricsOrder[k] in metricsData;
      CommitGauges(metricsOrder, metricsData);
      SyncWatched(metricsOrder, metricsData);
    }

    /**
     * The second and third loops of `updateMetrics` and the dashboard call: the watched map
     * becomes the reported nodes, and the dashboard update is requested exactly when the map
     * changed.
     */
    method SyncWatched(metricsOrder: seq<string>, metricsData: map<string, MetricsData>)
      requires Valid() && WellFormed(Reconciled(metricsOrder, metricsData))
      modifies this
      ensures Valid()
      ensures validatorNodeData == NextEntries(old(validatorNodeData), metricsData)
      ensures watchOrder == NextOrder(old(watchOrder), old(validatorNodeData), Reconciled(metricsOrder, metricsData))
      ensures dashboardUpdates == old(dashboardUpdates)
        + (if Changed(old(validatorNodeData), metricsData) then [WatchedItems()] else [])
    {
      ghost var r := Reconciled(metricsOrder, metricsData);
      ghost var before, beforeOrder := validatorNodeData, watchOrder;
      UpsertedConsistent(before, beforeOrder, r);
      var added := UpsertWatched(metricsOrder, metricsData);
      var removed := PruneWatched(metricsData);
      assert validatorNodeData == NextEntries(before, metricsData)
        && (removed <==> exists id :: id in before && id !in metricsData) by {
        UpsertThenPrune(before, metricsData);
      }
      assert watchOrder == NextOrder(beforeOrder, before, r) by {
        UpsertThenPruneOrder(beforeOrder, before, r);
      }
      assert Valid() by {
        NextOrderConsistent(beforeOrder, before, r);
        forall id | id in metricsData ensures validatorNodeData[id].nodeId == id {
          NextEntriesContents(before, metricsData, id);
        }
      }
      if added || removed {
        dashboardUpdates := dashboardUpdates + [WatchedItems()];
      }
    }

    /**
     * The first loop of `updateMetrics`: the insertion-ordered `metricsData` fold, the
     * `node_available` flags and whether any source answered.
     */
    method Fold(responses: seq<SourceResponse>)
      returns (metricsOrder: seq<string>, metricsData: map<string, MetricsData>, hasValidResponse: bool)
      modifies registry
      ensures Reconciled(metricsOrder, metricsData) == ObserveAll(Observations(responses))
      ensures hasValidResponse <==> Answered(responses)
      ensures registry.nodeAvailable == ApplyAvailability(old(registry.nodeAvailable), responses)
      ensures registry.connectedCounter == old(registry.connectedCounter)
      ensures registry.validatorStartTime == old(registry.validatorStartTime)
      ensures registry.validatorEndTime == old(registry.validatorEndTime)
    {
      metricsOrder, metricsData := [], map[];
      hasValidResponse := false;
      var i := 0;
      while i < |responses|
        invariant 0 <= i <= |responses|
        invariant Reconciled(metricsOrder, metricsData) == ObserveAll(Observations(responses[..i]))
        invariant hasValidResponse <==> exists k :: 0 <= k < i && !responses[k].response.IsNullish()
        invariant registry.nodeAvailable == ApplyAvailability(old(registry.nodeAvailable), responses[..i])
        invariant registry.connectedCounter == old(registry.connectedCounter)
        invariant registry.validatorStartTime == old(registry.validatorStartTime)
        invariant registry.validatorEndTime == old(registry.validatorEndTime)
      {
        var url, response := responses[i].url, responses[i].response;
        ApplyAvailabilitySnoc(old(registry.nodeAvailable), responses, i);
        ObservationsSnoc(responses, i);
        if response.IsNullish() {
          ghost var seen := Observations(responses[..i]);
          assert Observations(responses[..i + 1]) == seen + [] == seen;
          registry.nodeAvailable := registry.nodeAvailable[url := 0];
        } else {
          registry.nodeAvailable := registry.nodeAvailable[url := 1];
          ghost var seen := Observations(responses[..i]);
          var validators := response.validators;
          metricsOrder, metricsData := FoldRecords(metricsOrder, metricsData, validators, seen);
          assert Observations(responses[..i + 1]) == seen + validators;
          hasValidResponse := true;
        }
        i := i + 1;
      }
      assert responses[..i] == responses;
    }

    /** Clearing the three node gauges and writing one series per reconciled node. */
    method CommitGauges(metricsOrder: seq<string>, metricsData: map<string, MetricsData>)
      requires forall k :: 0 <= k < |metricsOrder| ==> metricsOrder[k] in metricsData
      requires forall id :: id in metricsData ==> id in metricsOrder
      modifies registry
      ensures registry.connectedCounter == ConnectedGauge(metricsData)
      ensures registry.validatorStartTime == StartTimeGauge(metricsData)
      ensures registry.validatorEndTime == EndTimeGauge(metricsData)
      ensures registry.nodeAvailable == old(registry.nodeAvailable)
    {
      registry.connectedCounter := map[];
      registry.validatorStartTime := map[];
      registry.validatorEndTime := map[];
      ghost var written: set<string> := {};
      assert Only(metricsData, written) == map[];
      for n := 0 to |metricsOrder|
        invariant forall k :: 0 <= k < n ==> metricsOrder[k] in written
        invariant registry.connectedCounter == ConnectedGauge(Only(metricsData, written))
        invariant registry.validatorStartTime == StartTimeGauge(Only(metricsData, written))
        invariant registry.validatorEndTime == EndTimeGauge(Only(metricsData, written))
        invariant registry.nodeAvailable == old(registry.nodeAvailable)
      {
        var nodeID := metricsOrder[n];
        var md := metricsData[nodeID];
        GaugesStep(metricsData, written, nodeID);
        registry.connectedCounter := registry.connectedCounter[nodeID := if md.connected then 1 else 0];
        registry.validatorStartTime := registry.validatorStartTime[nodeID := md.startTime * 1000];
        registry.validatorEndTime := registry.validatorEndTime[nodeID := md.endTime * 1000];
        written := written + {nodeID};
      }
      forall id | id in metricsData ensures id in written {
        var k :| 0 <= k < |metricsOrder| && metricsOrder[k] == id;
      }
      assert Only(metricsData, written) == metricsData;
    }

    /**
     * The insert-or-update half of the second loop: each reconciled node is added with an empty
     * name or takes the new times; the result says whether any entry was added or re-timed.
     */
    method UpsertWatched(metricsOrder: seq<string>, metricsData: map<string, MetricsData>) returns (nodesChanged: bool)
      requires Distinct(metricsOrder)
      requires forall k :: 0 <= k < |metricsOrder| ==> metricsOrder[k] in metricsData
      requires forall id :: id in metricsData ==> id in metricsOrder
      modifies this
      ensures validatorNodeData == Upserted(old(validatorNodeData), metricsData)
      ensures watchOrder == old(watchOrder) + Filter(metricsOrder, old(validatorNodeData).Keys, false)
      ensures nodesChanged <==> exists id :: id in metricsData && StepChanges(old(validatorNodeData), id, metricsData[id])
      ensures dashboardUpdates == old(dashboardUpdates)
    {
      ghost var before := validatorNodeData;
      nodesChanged := UpsertEach(metricsOrder, metricsData, before);
      if id :| id in metricsData && StepChanges(before, id, metricsData[id]) {
        var k :| 0 <= k < |metricsOrder| && metricsOrder[k] == id;
      }
    }

    /** The loop of `UpsertWatched`, over the reconciled nodes in their order. */
    method UpsertEach(metricsOrder: seq<string>, metricsData: map<string, MetricsData>, ghost before: Entries)
      returns (nodesChanged: bool)
      requires Distinct(metricsOrder) && validatorNodeData == before
      requires forall k :: 0 <= k < |metricsOrder| ==> metricsOrder[k] in metricsData
      requires forall id :: id in metricsData ==> id in metricsOrder
      modifies this
      ensures validatorNodeData == Upserted(before, metricsData)
      ensures watchOrder == old(watchOrder) + Filter(metricsOrder, before.Keys, false)
      ensures nodesChanged <==> exists k :: 0 <= k < |metricsOrder| && StepChanges(before, metricsOrder[k], metricsData[metricsOrder[k]])
      ensures dashboardUpdates == old(dashboardUpdates)
    {
      ghost var done: set<string> := {};
      nodesChanged := false;
      for n := 0 to |metricsOrder|
        invariant done <= metricsData.Keys
        invariant forall k :: 0 <= k < n ==> metricsOrder[k] in done
        invariant forall k :: n <= k < |metricsOrder| ==> metricsOrder[k] !in done
        invariant validatorNodeData == UpsertedWith(before, metricsData, done)
        invariant watchOrder == old(watchOrder) + FilterUpTo(metricsOrder, n, before.Keys, false)
        invariant nodesChanged <==> exists k :: 0 <= k < n && StepChanges(before, metricsOrder[k], metricsData[metricsOrder[k]])
        invariant dashboardUpdates == old(dashboardUpdates)
      {
        var changed := UpsertAt(metricsOrder, n, metricsData, before, done, old(watchOrder));
        nodesChanged := nodesChanged || changed;
        done := done + {metricsOrder[n]};
      }
      assert done == metricsData.Keys;
    }

    /** The `n`-th step of the insert-or-update loop, stated against the loop's invariant. */
    method UpsertAt(ids: seq<string>, n: nat, metricsData: map<string, MetricsData>, ghost before: Entries,
                    ghost done: set<string>, ghost watched: seq<string>)
      returns (changed: bool)
      requires n < |ids| && ids[n] in metricsData && ids[n] !in done && done <= metricsData.Keys
      requires validatorNodeData == UpsertedWith(before, metricsData, done)
      requires watchOrder == watched + FilterUpTo(ids, n, before.Keys, false)
      modifies this
      ensures validatorNodeData == UpsertedWith(before, metricsData, done + {ids[n]})
      ensures watchOrder == watched + FilterUpTo(ids, n + 1, before.Keys, false)
      ensures changed == StepChanges(before, ids[n], metricsData[ids[n]])
      ensures dashboardUpdates == old(dashboardUpdates)
    {
      var nodeID := ids[n];
      var md := metricsData[nodeID];
      UpsertedWithStep(before, metricsData, done, nodeID);
      assert nodeID in validatorNodeData <==> nodeID in before;
      changed := UpsertOne(nodeID, md.startTime * 1000, md.endTime * 1000);
    }

    /** One step of the delete loop: drop the node when the tick did not report it. */
    method DeleteUnreported(nodeID: string, metricsData: map<string, MetricsData>) returns (deleted: bool)
      modifies this
      ensures deleted <==> nodeID !in metricsData
      ensures validatorNodeData == if deleted then old(validatorNodeData) - {nodeID} else old(validatorNodeData)
      ensures watchOrder == if deleted then Remove(old(watchOrder), nodeID) else old(watchOrder)
      ensures dashboardUpdates == old(dashboardUpdates)
    {
      deleted := false;
      if nodeID !in metricsData {
        validatorNodeData := validatorNodeData - {nodeID};
        watchOrder := Remove(watchOrder, nodeID);
        deleted := true;
      }
    }

    /** The `j`-th step of the delete loop, stated against the loop's invariant. */
    method PruneAt(ids: seq<string>, j: nat, metricsData: map<string, MetricsData>, ghost upserted: Entries)
      returns (deleted: bool)
      requires Distinct(ids) && j < |ids|
      requires validatorNodeData == PrunedUpTo(upserted, metricsData, ids, j)
      requires watchOrder == FilterUpTo(ids, j, metricsData.Keys, true) + ids[j..]
      modifies this
      ensures deleted <==> ids[j] !in metricsData
      ensures validatorNodeData == PrunedUpTo(upserted, metricsData, ids, j + 1)
      ensures watchOrder == FilterUpTo(ids, j + 1, metricsData.Keys, true) + ids[j + 1..]
      ensures dashboardUpdates == old(dashboardUpdates)
    {
      PruneOrderStep(ids, j, metricsData.Keys);
      deleted := DeleteUnreported(ids[j], metricsData);
    }

    /** One step of the insert-or-update loop: add the node with an empty name, or re-time it. */
    method UpsertOne(nodeID: string, startTime: int, endTime: int) returns (changed: bool)
      modifies this
      ensures validatorNodeData == old(validatorNodeData)[nodeID :=
        if nodeID in old(validatorNodeData) then old(validatorNodeData)[nodeID].(startTime := startTime, endTime := endTime)
        else ValidatorNodeDataItem(nodeID, "", startTime, endTime)]
      ensures watchOrder == old(watchOrder) + (if nodeID in old(validatorNodeData) then [] else [nodeID])
      ensures changed <==> (nodeID !in old(validatorNodeData)
        || old(validatorNodeData)[nodeID].startTime != startTime || old(validatorNodeData)[nodeID].endTime != endTime)
      ensures dashboardUpdates == old(dashboardUpdates)
    {
      changed := false;
      if nodeID !in validatorNodeData {
        validatorNodeData := validatorNodeData[nodeID := ValidatorNodeDataItem(nodeID, "", startTime, endTime)];
        watchOrder := watchOrder + [nodeID];
        changed := true;
      } else if validatorNodeData[nodeID].startTime != startTime || validatorNodeData[nodeID].endTime != endTime {
        validatorNodeData := validatorNodeData[nodeID := validatorNodeData[nodeID].(startTime := startTime, endTime := endTime)];
        changed := true;
      } else {
        assert validatorNodeData[nodeID].(startTime := startTime, endTime := endTime) == validatorNodeData[nodeID];
      }
    }

    /**
     * The delete loop: every watched node the tick did not report is dropped; the result says
     * whether any was.
     */
    method PruneWatched(metricsData: map<string, MetricsData>) returns (nodesChanged: bool)
      requires Consistent(watchOrder, validatorNodeData)
      modifies this
      ensures validatorNodeData == Pruned(old(validatorNodeData), metricsData)
      ensures watchOrder == Filter(old(watchOrder), metricsData.Keys, true)
      ensures nodesChanged <==> exists id :: id in old(validatorNodeData) && id !in metricsData
      ensures dashboardUpdates == old(dashboardUpdates)
    {
      ghost var upserted := validatorNodeData;
      var ids := watchOrder;
      nodesChanged := PruneEach(ids, metricsData, upserted);
      PrunedAll(upserted, metricsData, ids);
      UnreportedAll(upserted, metricsData, ids);
    }

    /** The loop of `PruneWatched`, over the watched ids in the order they were watched. */
    method PruneEach(ids: seq<string>, metricsData: map<string, MetricsData>, ghost upserted: Entries)
      returns (nodesChanged: bool)
      requires Distinct(ids) && validatorNodeData == upserted && watchOrder == ids
      modifies this
      ensures validatorNodeData == PrunedUpTo(upserted, metricsData, ids, |ids|)
      ensures watchOrder == Filter(ids, metricsData.Keys, true)
      ensures nodesChanged == AnyUnreported(ids, |ids|, metricsData)
      ensures dashboardUpdates == old(dashboardUpdates)
    {
      nodesChanged := false;
      for j := 0 to |ids|
        invariant validatorNodeData == PrunedUpTo(upserted, metricsData, ids, j)
        invariant watchOrder == FilterUpTo(ids, j, metricsData.Keys, true) + ids[j..]
        invariant nodesChanged == AnyUnreported(ids, j, metricsData)
        invariant dashboardUpdates == old(dashboardUpdates)
      {
        var deleted := PruneAt(ids, j, metricsData, upserted);
        nodesChanged := nodesChanged || deleted;
      }
      FilterUpToAll(ids, metricsData.Keys, true);
    }
  }
}

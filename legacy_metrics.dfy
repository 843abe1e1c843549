/**
 * The older metrics module: a fixed set of watched validators, a `validators_connected` gauge
 * that has a series for every watched node (0 when no source reported it connected), the
 * `node_available` gauge per source, and the start-up helpers that read the node URLs, the
 * watched ids and the polling step from the environment.
 */
module LegacyMetrics {
  import opened Wrappers
  import opened Types
  import opened Reconcile
  import opened EnvParsing
  import Config
  import Prometheus

  // ---------------------------------------------------------------------------------------------
  // The `connected` map of a tick
  // ---------------------------------------------------------------------------------------------

  /**
   * The `connected` map after folding a sequence of observations: records of unwatched nodes
   * are skipped, and a watched node's flag is OR-ed with each of its records.
   */
  function WatchedConnected(watch: set<string>, obs: seq<ValidatorResponse>): map<string, bool>
  {
    if |obs| == 0 then map[]
    else
      var m := WatchedConnected(watch, obs[..|obs| - 1]);
      var v := obs[|obs| - 1];
      if v.nodeID in watch then m[v.nodeID := v.connected || (v.nodeID in m && m[v.nodeID])] else m
  }

  lemma WatchedConnectedSnoc(watch: set<string>, obs: seq<ValidatorResponse>, v: ValidatorResponse)
    ensures WatchedConnected(watch, obs + [v])
      == var m := WatchedConnected(watch, obs);
         if v.nodeID in watch then m[v.nodeID := v.connected || (v.nodeID in m && m[v.nodeID])] else m
  {
    assert (obs + [v])[..|obs|] == obs;
  }

  /**
   * The map holds exactly the watched nodes that some source reported, and a node's flag is set
   * exactly when one of its records says it is connected.
   */
  lemma {:induction false} WatchedConnectedIsOr(watch: set<string>, obs: seq<ValidatorResponse>, id: string)
    ensures id in WatchedConnected(watch, obs) <==> id in watch && Reported(obs, id)
    ensures id in WatchedConnected(watch, obs) ==>
      (WatchedConnected(watch, obs)[id] <==> exists k :: 0 <= k < |obs| && obs[k].nodeID == id && obs[k].connected)
  {
    if |obs| > 0 {
      var prefix := obs[..|obs| - 1];
      var v := obs[|obs| - 1];
      WatchedConnectedIsOr(watch, prefix, id);
      forall k | 0 <= k < |prefix| ensures obs[k] == prefix[k] { }
      if Reported(obs, id) && v.nodeID != id {
        var k :| 0 <= k < |obs| && obs[k].nodeID == id;
        assert prefix[k].nodeID == id;
      }
      if id in WatchedConnected(watch, obs) && WatchedConnected(watch, obs)[id] && !(v.nodeID == id && v.connected) {
        var k :| 0 <= k < |prefix| && prefix[k].nodeID == id && prefix[k].connected;
        assert obs[k].nodeID == id && obs[k].connected;
      }
    }
  }

  /** The value written for one watched node: `connected.get(nodeID) ? 1 : 0`. */
  function ConnectedFlag(connected: map<string, bool>, id: string): (flag: int)
    ensures flag == 0 || flag == 1
    ensures flag == 1 <==> id in connected && connected[id]
  {
    if id in connected && connected[id] then 1 else 0
  }

  /** `validators_connected` after the reset and the loop over the watched set. */
  function WatchedGauge(watch: set<string>, connected: map<string, bool>): map<string, int>
  {
    map id | id in watch :: ConnectedFlag(connected, id)
  }

  /**
   * For a watched node the two revisions publish the same value where the newer one has a
   * series; a watched node that no source reported reads 0 here and has no series there.
   */
  lemma RevisionsAgree(watch: set<string>, obs: seq<ValidatorResponse>, id: string)
    requires id in watch
    ensures id in WatchedGauge(watch, WatchedConnected(watch, obs))
    ensures var newer := ConnectedGauge(ObserveAll(obs).data);
      WatchedGauge(watch, WatchedConnected(watch, obs))[id] == if id in newer then newer[id] else 0
  {
    WatchedConnectedIsOr(watch, obs, id);
    ObserveAllKeys(obs);
    if Reported(obs, id) {
      ConnectedIsOr(obs, id);
    }
  }

  /**
   * The inner loop of `updateMetrics` over one source's list: records of watched nodes are
   * OR-ed into `connected`.
   */
  method FoldConnected(watch: set<string>, connected: map<string, bool>, validators: seq<ValidatorResponse>,
                       ghost seen: seq<ValidatorResponse>)
    returns (result: map<string, bool>)
    requires connected == WatchedConnected(watch, seen)
    ensures result == WatchedConnected(watch, seen + validators)
  {
    result := connected;
    var j := 0;
    assert seen + validators[..0] == seen;
    while j < |validators|
      invariant 0 <= j <= |validators|
      invariant result == WatchedConnected(watch, seen + validators[..j])
    {
      var v := validators[j];
      WatchedConnectedSnoc(watch, seen + validators[..j], v);
      assert seen + validators[..j + 1] == (seen + validators[..j]) + [v];
      if v.nodeID in watch {
        result := result[v.nodeID := v.connected || (v.nodeID in result && result[v.nodeID])];
      }
      j := j + 1;
    }
    assert validators[..j] == validators;
  }

  // ---------------------------------------------------------------------------------------------
  // The manager
  // ---------------------------------------------------------------------------------------------

  /** The polling schedule when none is given: every ten seconds. */
  const DefaultCronString: string := "*/10 * * * * *"

  /** Some source answered: `Array.from(responses.values()).some(v => v !== null)`. */
  predicate AnyNotNull(responses: seq<SourceResponse>)
  {
    exists k :: 0 <= k < |responses| && responses[k].response != Null
  }

  /**
   * The older `UptimeManager`. The sources' answers of a tick arrive as a sequence of
   * (url, answer) pairs in URL order; the gauges live in `registry`.
   */
  class UptimeManager {
    const nodeURLs: seq<string>
    /** `new Set(validatorNodeIDs)`: the watched ids, duplicates collapsed. */
    const validatorNodeIDs: set<string>
    const cronString: string
    const registry: Prometheus.Registry

    constructor (nodeURLs: seq<string>, validatorNodeIDs: seq<string>, cronString: Option<string>,
                 registry: Prometheus.Registry)
      ensures this.nodeURLs == nodeURLs && this.registry == registry
      ensures forall id :: id in this.validatorNodeIDs <==> id in validatorNodeIDs
      ensures this.cronString == if cronString.Some? then cronString.value else DefaultCronString
    {
      this.nodeURLs := nodeURLs;
      this.validatorNodeIDs := set id | id in validatorNodeIDs;
      this.cronString := if cronString.Some? then cronString.value else DefaultCronString;
      this.registry := registry;
    }

    /**
     * `update()` after the fetch: the gauges are written only when some answer is not `null`;
     * an `undefined` list passes that test and then counts as unavailable.
     */
    method Update(responses: seq<SourceResponse>)
      modifies registry
      ensures AnyNotNull(responses) ==>
        && registry.nodeAvailable == ApplyAvailability(old(registry.nodeAvailable), responses)
        && registry.connectedCounter == WatchedGauge(validatorNodeIDs, WatchedConnected(validatorNodeIDs, Observations(responses)))
      ensures !AnyNotNull(responses) ==>
        registry.nodeAvailable == old(registry.nodeAvailable) && registry.connectedCounter == old(registry.connectedCounter)
      ensures registry.validatorStartTime == old(registry.validatorStartTime)
      ensures registry.validatorEndTime == old(registry.validatorEndTime)
    {
      if AnyNotNull(responses) {
        UpdateMetrics(responses);
      }
    }

    /**
     * `updateMetrics(responses)`: every source's `node_available` flag is written; then
     * `validators_connected` is reset and has exactly one series per watched node, 1 when some
     * source reported that node connected and 0 otherwise.
     */
    method UpdateMetrics(responses: seq<SourceResponse>)
      modifies registry
      ensures registry.nodeAvailable == ApplyAvailability(old(registry.nodeAvailable), responses)
      ensures registry.connectedCounter == WatchedGauge(validatorNodeIDs, WatchedConnected(validatorNodeIDs, Observations(responses)))
      ensures registry.validatorStartTime == old(registry.validatorStartTime)
      ensures registry.validatorEndTime == old(registry.validatorEndTime)
    {
      var connected: map<string, bool> := map[];
      var i := 0;
      while i < |responses|
        invariant 0 <= i <= |responses|
        invariant connected == WatchedConnected(validatorNodeIDs, Observations(responses[..i]))
        invariant registry.nodeAvailable == ApplyAvailability(old(registry.nodeAvailable), responses[..i])
        invariant registry.validatorStartTime == old(registry.validatorStartTime)
        invariant registry.validatorEndTime == old(registry.validatorEndTime)
      {
        var url, response := responses[i].url, responses[i].response;
        ApplyAvailabilitySnoc(old(registry.nodeAvailable), responses, i);
        ObservationsSnoc(responses, i);
        ghost var seen := Observations(responses[..i]);
        if response.IsNullish() {
          assert Observations(responses[..i + 1]) == seen + [] == seen;
          registry.nodeAvailable := registry.nodeAvailable[url := 0];
        } else {
          registry.nodeAvailable := registry.nodeAvailable[url := 1];
          connected := FoldConnected(validatorNodeIDs, connected, response.validators, seen);
        }
        i := i + 1;
      }
      assert responses[..i] == responses;
      CommitConnected(connected);
    }

    /** The reset of `validators_connected` and the loop over the watched set. */
    method CommitConnected(connected: map<string, bool>)
      modifies registry
      ensures registry.connectedCounter == WatchedGauge(validatorNodeIDs, connected)
      ensures registry.nodeAvailable == old(registry.nodeAvailable)
      ensures registry.validatorStartTime == old(registry.validatorStartTime)
      ensures registry.validatorEndTime == old(registry.validatorEndTime)
    {
      registry.connectedCounter := map[];
      var rest := validatorNodeIDs;
      while rest != {}
        invariant rest <= validatorNodeIDs
        invariant registry.connectedCounter.Keys == validatorNodeIDs - rest
        invariant forall id :: id in registry.connectedCounter ==> registry.connectedCounter[id] == ConnectedFlag(connected, id)
        invariant registry.nodeAvailable == old(registry.nodeAvailable)
        invariant registry.validatorStartTime == old(registry.validatorStartTime)
        invariant registry.validatorEndTime == old(registry.validatorEndTime)
        decreases |rest|
      {
        var nodeID :| nodeID in rest;
        registry.connectedCounter := registry.connectedCounter[nodeID := ConnectedFlag(connected, nodeID)];
        rest := rest - {nodeID};
      }
    }
  }

  // ---------------------------------------------------------------------------------------------
  // Start-up
  // ---------------------------------------------------------------------------------------------

  /**
   * `getAvalancheNodeURLs()`: the parsed `AVALANCHE_NODE_URLS` list when the setting is truthy
   * and the list is not empty, otherwise `[]`.
   */
  function GetAvalancheNodeURLs(setting: Option<string>): (urls: seq<string>)
  {
    if Config.IsTruthy(setting) then
      var parsed := NodeURLList(setting.value);
      if |parsed| > 0 then parsed else []
    else []
  }

  /** Both revisions read the same list of node URLs from the same setting. */
  lemma NodeURLsAgree(setting: Option<string>)
    ensures GetAvalancheNodeURLs(setting) == Config.InitNodeURLs(setting)
    ensures forall k :: 0 <= k < |GetAvalancheNodeURLs(setting)| ==> IsListEntry(GetAvalancheNodeURLs(setting)[k])
  {
  }

  /** One entry of the validators file. */
  datatype ValidatorData = ValidatorData(nodeId: string)

  function NodeIds(vData: seq<ValidatorData>): (ids: seq<string>)
    ensures |ids| == |vData| && forall k :: 0 <= k < |ids| ==> ids[k] == vData[k].nodeId
  {
    if vData == [] then [] else [vData[0].nodeId] + NodeIds(vData[1..])
  }

  /**
   * `getValidatorIDs()`, given the parsed validators file: the non-empty node ids, in file
   * order.
   */
  function GetValidatorIDs(vData: seq<ValidatorData>): (ids: seq<string>)
    ensures |ids| <= |vData|
    ensures forall id :: id in ids <==> id != "" && exists k :: 0 <= k < |vData| && vData[k].nodeId == id
  {
    var all := NodeIds(vData);
    assert forall id :: id in all <==> exists k :: 0 <= k < |vData| && vData[k].nodeId == id;
    NonEmpty(all)
  }

  /**
   * `getCronString()`, given what `parseInt(STEP_SECONDS)` returned (`None` for NaN): the
   * cron string fires every `step` seconds, with 10 for NaN or 0.
   */
  function GetCronString(parsed: Option<int>): (cron: string)
    ensures CronStringStep(cron) == Some(if parsed.Some? && parsed.value != 0 then parsed.value else 10)
  {
    CronStringReadBack(CronStep(parsed));
    CronString(CronStep(parsed))
  }

  /**
   * The module's start-up: the manager built from the three helpers. The file read and the
   * `parseInt` of `STEP_SECONDS` are parameters.
   */
  method CreateManager(urlSetting: Option<string>, vData: seq<ValidatorData>, stepParsed: Option<int>,
                       registry: Prometheus.Registry)
    returns (manager: UptimeManager)
    ensures manager.nodeURLs == GetAvalancheNodeURLs(urlSetting)
    ensures forall id :: id in manager.validatorNodeIDs <==> id in GetValidatorIDs(vData)
    ensures manager.cronString == GetCronString(stepParsed)
    ensures manager.registry == registry
  {
    manager := new UptimeManager(GetAvalancheNodeURLs(urlSetting), GetValidatorIDs(vData),
                                 Some(GetCronString(stepParsed)), registry);
  }
}

/**
 * Record shapes shared by the uptime monitor: what a validator node reports through
 * `platform.getCurrentValidators`, and the watched-node items handed to the dashboard.
 */
module Types {

  /** One delegator entry of a validator record; the amount stays the wire's decimal string. */
  datatype DelegatorResponse = DelegatorResponse(stakeAmount: string)

  /**
   * One validator record as one source reports it. `startTime` and `endTime` arrive as decimal
   * strings of unix seconds and are taken here already converted by `Number(...)`.
   * The stake, uptime and delegator fields are carried but never read by the tick commit.
   */
  datatype ValidatorResponse = ValidatorResponse(
    nodeID: string,
    stakeAmount: string,
    uptime: string,
    connected: bool,
    startTime: int,
    endTime: int,
    delegators: seq<DelegatorResponse>)

  /**
   * What one source yielded this tick: `Null` when the request failed (the poller stores `null`),
   * `Undefined` when the reply had no `validators` field, `List` otherwise.
   */
  datatype Response = Null | Undefined | List(validators: seq<ValidatorResponse>)
  {
    /** JavaScript's loose `response == null`, true for both `null` and `undefined`. */
    predicate IsNullish() { !List? }
  }

  /** One entry of the per-tick responses map: node URL to what it returned (insertion ordered). */
  datatype SourceResponse = SourceResponse(url: string, response: Response)

  /** A watched validator: its id, display name and start/end times. */
  datatype ValidatorNodeDataItem = ValidatorNodeDataItem(
    nodeId: string,
    name: string,
    startTime: int,
    endTime: int)

  /** The ids of a list of watched items, in order. */
  function Ids(items: seq<ValidatorNodeDataItem>): (ids: seq<string>)
    ensures |ids| == |items|
    ensures forall k :: 0 <= k < |items| ==> ids[k] == items[k].nodeId
  {
    seq(|items|, k requires 0 <= k < |items| => items[k].nodeId)
  }

  /** No two watched items share an id, as in a map keyed by id. */
  predicate DistinctIds(items: seq<ValidatorNodeDataItem>)
  {
    forall i, j :: 0 <= i < j < |items| ==> items[i].nodeId != items[j].nodeId
  }
}

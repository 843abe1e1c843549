/**
 * The exported gauges. Each gauge is the map from its one label's value to the sample value;
 * `reset` empties it and `set` writes one series. Rendering the registry as text is not modelled.
 */
module Prometheus {

  class Registry {
    /** `validators_connected`, labelled by `NodeID`. */
    var connectedCounter: map<string, int>
    /** `node_available`, labelled by `NodeURL`. */
    var nodeAvailable: map<string, int>
    /** `validators_start_time` in milliseconds, labelled by `NodeID`. */
    var validatorStartTime: map<string, int>
    /** `validators_end_time` in milliseconds, labelled by `NodeID`. */
    var validatorEndTime: map<string, int>

    constructor ()
      ensures connectedCounter == map[] && nodeAvailable == map[]
      ensures validatorStartTime == map[] && validatorEndTime == map[]
    {
      connectedCounter := map[];
      nodeAvailable := map[];
      validatorStartTime := map[];
      validatorEndTime := map[];
    }
  }
}

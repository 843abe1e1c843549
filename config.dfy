/**
 * The configuration service: node URLs, the initial validator list, the polling cron string and
 * the URL-like settings, read once from the configuration source at construction.
 */
module Config {
  import opened Wrappers
  import opened Types
  import opened EnvParsing

  /** `configService.get(key)`: the setting, or `None` when it is not set. */
  function Get(settings: map<string, string>, key: string): Option<string>
  {
    if key in settings then Some(settings[key]) else None
  }

  /** A setting is truthy when it is set and not the empty string. */
  predicate IsTruthy(value: Option<string>) { value.Some? && value.value != "" }

  /**
   * `initNodeURLs`: the parsed list when `AVALANCHE_NODE_URLS` is truthy, otherwise the list
   * stays `[]`. Every URL is a non-empty trimmed comma-free piece of the setting.
   */
  function InitNodeURLs(setting: Option<string>): (urls: seq<string>)
    ensures !IsTruthy(setting) ==> urls == []
    ensures forall k :: 0 <= k < |urls| ==> IsListEntry(urls[k])
    ensures IsTruthy(setting) ==>
      forall u :: u in urls <==> u != "" && u in TrimAll(Strings.Split(setting.value, ','))
    ensures IsTruthy(setting) ==> urls == NodeURLList(setting.value)
  {
    if IsTruthy(setting) then NodeURLList(setting.value) else []
  }

  /**
   * `initCronString`: the cron string that fires every `step` seconds, where the step is `parseInt` of the
   * `VALIDATORS_FILE` setting (not of a step setting), falling back to 10 for NaN or 0.
   * `parseInt` is given as a function; an unset setting parses to NaN.
   */
  function InitCronString(validatorsFile: Option<string>, parseInt: string -> Option<int>): (cron: string)
    ensures var parsed := if validatorsFile.Some? then parseInt(validatorsFile.value) else None;
      CronStringStep(cron) == Some(if parsed.Some? && parsed.value != 0 then parsed.value else 10)
  {
    var parsed := if validatorsFile.Some? then parseInt(validatorsFile.value) else None;
    CronStringReadBack(CronStep(parsed));
    CronString(CronStep(parsed))
  }

  /** The configuration object; the file read and JSON parse of the validator list are a function. */
  class Configuration {
    var nodeURLs: seq<string>
    var validatorNodes: seq<ValidatorNodeDataItem>
    var cronString: string
    var refreshUrl: Option<string>
    var refreshCronString: Option<string>
    var dashboardTemplateUrl: Option<string>
    var dashboardPath: Option<string>
    var prometheusUrl: Option<string>

    /**
     * Reads every setting once: the URL list, the validator list from the file named by
     * `VALIDATORS_FILE` when that is truthy, the cron string, and the other settings verbatim.
     */
    constructor (settings: map<string, string>,
                 readValidatorsFile: string -> seq<ValidatorNodeDataItem>,
                 parseInt: string -> Option<int>)
      ensures nodeURLs == InitNodeURLs(Get(settings, "AVALANCHE_NODE_URLS"))
      ensures validatorNodes ==
        (if IsTruthy(Get(settings, "VALIDATORS_FILE"))
         then readValidatorsFile(settings["VALIDATORS_FILE"]) else [])
      ensures cronString == InitCronString(Get(settings, "VALIDATORS_FILE"), parseInt)
      ensures refreshUrl == Get(settings, "VALIDATORS_URL")
      ensures refreshCronString == Get(settings, "VALIDATORS_REFRESH_CRON")
      ensures dashboardPath == Get(settings, "GRAFANA_DASHBOARD_PATH")
      ensures dashboardTemplateUrl == Get(settings, "GRAFANA_DASHBOARD_TEMPLATE_URL")
      ensures prometheusUrl == Get(settings, "PROMETHEUS_URL")
    {
      nodeURLs := [];
      validatorNodes := [];
      var envNodeURLs := Get(settings, "AVALANCHE_NODE_URLS");
      if IsTruthy(envNodeURLs) {
        nodeURLs := NodeURLList(envNodeURLs.value);
      }
      var envValidatorsFile := Get(settings, "VALIDATORS_FILE");
      if IsTruthy(envValidatorsFile) {
        validatorNodes := readValidatorsFile(envValidatorsFile.value);
      }
      cronString := InitCronString(envValidatorsFile, parseInt);
      refreshUrl := Get(settings, "VALIDATORS_URL");
      refreshCronString := Get(settings, "VALIDATORS_REFRESH_CRON");
      dashboardPath := Get(settings, "GRAFANA_DASHBOARD_PATH");
      dashboardTemplateUrl := Get(settings, "GRAFANA_DASHBOARD_TEMPLATE_URL");
      prometheusUrl := Get(settings, "PROMETHEUS_URL");
    }
  }
}

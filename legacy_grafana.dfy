/**
 * The older dashboard manager: the same regeneration as the service's, configured directly
 * with the template URL and the dashboard path (both possibly unset) instead of through the
 * configuration service.
 */
module LegacyGrafana {
  import opened Wrappers
  import opened Types
  import opened Grafana
  import Config

  class DashboardManager {
    const templateUrl: Option<string>
    const dashboardPath: Option<string>
    /** The files written so far, by path; the last write to a path wins. */
    var written: map<string, Dashboard>

    constructor (templateUrl: Option<string>, dashboardPath: Option<string>)
      ensures this.templateUrl == templateUrl && this.dashboardPath == dashboardPath
      ensures written == map[]
    {
      this.templateUrl := templateUrl;
      this.dashboardPath := dashboardPath;
      written := map[];
    }

    /**
     * `update(nodes)`: nothing without a template URL and a dashboard path; otherwise `fetched`
     * is what reading the template yielded (`None` for an error, `null` or empty data), and a
     * template that regenerates is written to the path. A failed regeneration is logged and
     * nothing is written.
     */
    method Update(nodes: seq<ValidatorNodeDataItem>, fetched: Option<Dashboard>)
      modifies this
      ensures !Config.IsTruthy(templateUrl) || !Config.IsTruthy(dashboardPath) ==> written == old(written)
      ensures fetched.None? ==> written == old(written)
      ensures Config.IsTruthy(templateUrl) && Config.IsTruthy(dashboardPath) && fetched.Some? ==>
        written == if CanGenerate(fetched.value.panels, nodes)
                   then old(written)[dashboardPath.value := fetched.value.(panels := GeneratedPanels(fetched.value.panels, nodes))]
                   else old(written)
    {
      if !Config.IsTruthy(templateUrl) || !Config.IsTruthy(dashboardPath) {
        return;
      }
      if fetched.None? {
        return;
      }
      var generated := DashboardFromTemplate(fetched.value, nodes);
      if generated.Success? {
        written := written[dashboardPath.value := generated.value];
      }
    }
  }

  /** The module's manager, built from `GRAFANA_DASHBOARD_TEMPLATE_URL` and `GRAFANA_DASHBOARD_PATH`. */
  method CreateDashboardManager(env: map<string, string>) returns (manager: DashboardManager)
    ensures manager.templateUrl == Config.Get(env, "GRAFANA_DASHBOARD_TEMPLATE_URL")
    ensures manager.dashboardPath == Config.Get(env, "GRAFANA_DASHBOARD_PATH")
    ensures manager.written == map[]
  {
    manager := new DashboardManager(Config.Get(env, "GRAFANA_DASHBOARD_TEMPLATE_URL"), Config.Get(env, "GRAFANA_DASHBOARD_PATH"));
  }
}

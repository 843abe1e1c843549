# validator-monitor — a Dafny model of the uptime monitor's core

The monitor polls one or more Avalanche nodes for `platform.getCurrentValidators` and exports
per-validator Prometheus gauges: `node_available` per node URL, and `validators_connected`,
`validators_start_time` and `validators_end_time` per validator. It also regenerates a Grafana
dashboard with one panel per watched validator, and it answers uptime queries against Prometheus.
The repository holds two revisions of the tick commit:

- the current NestJS service, `src/services/uptime-manager.ts`. It keeps a watch map of the
  validators reported on the last tick and asks the dashboard manager to regenerate the dashboard
  when that map changes;
- the older script, `src/tools/metrics-tools.ts`. Its watch set is fixed at start-up, and it
  publishes only `validators_connected`.

Modules:

| file | module | models |
|---|---|---|
| `types.dfy` | `Types` | validator records, the three-way per-source answer (`null`, `undefined`, a list), watched items |
| `prometheus.dfy` | `Prometheus` | the gauges, one `map<string, int>` field per gauge |
| `reconcile.dfy` | `Reconcile` | the per-node fold of one tick's records and the `node_available` flags, as specification functions |
| `watchset.dfy` | `WatchSet` | the watch map's insert/update/delete diff, its insertion order and the "changed" flag, as specification functions |
| `uptime.dfy` | `Uptime` | `UptimeManager.updateMetrics` of the current service, as a class whose methods are proved against `Reconcile` and `WatchSet` |
| `legacy_metrics.dfy` | `LegacyMetrics` | the older `UptimeManager` (`update`, `updateMetrics`) and its start-up helpers |
| `time.dfy` | `Time` | `toPrometheusTime` and a parser of its output, for the round trip |
| `grafana.dfy` | `Grafana` | `dashboardFromTemplate` and the current `DashboardManager.update` |
| `legacy_grafana.dfy` | `LegacyGrafana` | the older `DashboardManager`; its generator is text-identical to the current one (`src/tools/grafana-tools.ts:42-71`), so it calls `Grafana.DashboardFromTemplate` |
| `aggregations.dfy` | `Aggregations` | the three queries of `AggregationsManager`, with the Prometheus driver a function |
| `queries.dfy` | `Queries` | `parseQueryResult` |
| `config.dfy`, `envparsing.dfy`, `strings.dfy` | `Config`, `EnvParsing`, `Strings` | the configuration object: the URL list, the cron string, and the string helpers they use |
| `utils.dfy` | `Utils` | `AverageCollector` |

The current tick commit is imperative, as in the source. `Uptime.UptimeManager.UpdateMetrics`
runs the same loops: the fold into `metricsData`, the gauge reset and refill, the upsert into
`validatorNodeData` and the deletion of unreported entries. Each loop is a method whose
`ensures` ties its new state to a specification function (`Reconcile.ObserveAll`,
`WatchSet.Upserted`, `WatchSet.Pruned`, `WatchSet.NextEntries`). The lemmas in `Reconcile` and
`WatchSet` prove what those functions mean:

- `connected` is the OR of all observations;
- the times are those of the first observation;
- the gauge keys are exactly the reported ids;
- the watch map becomes the reported ids, keeps names and takes the new times;
- the dashboard call happens exactly when the map changed;
- a repeated tick changes neither the watch map nor its order, and calls no dashboard update.

The JavaScript `Map` of watched nodes is a `map` keyed by node id plus a `seq` of ids in
insertion order, because that order fixes the dashboard panels. The dashboard calls are recorded
in a ghost log.

Points where the code's behaviour is easy to misread, which the model follows as written:

- A node's `connected` is the logical OR of its observations across sources (`||`, `src/services/uptime-manager.ts:82`).
- Start and end times come from the first observation of an id; later observations never change them.
- `toPrometheusTime` of anything that rounds to 0 seconds or less is `""`. The `?? '0s'` fallback never applies, because `res` is never null.
- The current service's cron step is `parseInt` of the `VALIDATORS_FILE` setting (`src/services/config.ts:86`). The older script parses `STEP_SECONDS` instead.
- The watch map stores times in milliseconds, as written to the gauges.
- `src/services/prometheus.ts` declares no `validatorStartTime` or `validatorEndTime` gauge, although `src/services/uptime-manager.ts:102-111` uses both. The model's registry declares them.

## Model

| member | source | states |
|---|---|---|
| Uptime.UptimeManager.UpdateMetrics | src/services/uptime-manager.ts:68-143 | `node_available` is the per-URL flag fold on every tick. When no source answered, nothing else changes. Otherwise the three node gauges hold exactly the reconciled records. The watch map becomes `NextEntries` in `NextOrder`. The dashboard log grows by the watched items exactly when `Changed` holds |
| Uptime.UptimeManager.Fold | src/services/uptime-manager.ts:69-92 | the fold yields `ObserveAll` of every answering source's records. `hasValidResponse` holds iff some source answered a list. `node_available` is written per URL; the other gauges are untouched |
| Uptime.FoldRecords | src/services/uptime-manager.ts:79-90 | the inner loop over one source's records extends the reconciled map exactly as `ObserveAll` of the longer observation list |
| Uptime.UptimeManager.CommitGauges | src/services/uptime-manager.ts:100-111 | after reset and refill the three gauges are `connected ? 1 : 0`, `startTime*1000` and `endTime*1000` over exactly the reported ids; `node_available` unchanged |
| Uptime.UptimeManager.SyncWatched | src/services/uptime-manager.ts:113-142 | the watch map becomes `NextEntries`, its order `NextOrder`, the map/order invariant is kept, and the dashboard is called iff the map changed |
| Uptime.UptimeManager.UpsertWatched | src/services/uptime-manager.ts:104-129 | the upsert loop yields `Upserted`. New ids are appended to the order in reported order. `nodesChanged` holds iff some reported id is new or has new times |
| Uptime.UptimeManager.UpsertOne | src/services/uptime-manager.ts:114-128 | one id: a new entry with an empty name and millisecond times, or an existing one whose name is kept and times updated; `changed` iff new or times differ |
| Uptime.UptimeManager.UpsertEach | src/services/uptime-manager.ts:104-129 | the upsert loop over the reconciled ids in order: it yields `Upserted`, appends the new ids in reported order, and `nodesChanged` holds iff some visited id is new or has new times |
| Uptime.UptimeManager.UpsertAt | src/services/uptime-manager.ts:114-128 | one step of the upsert loop adds or re-times one more id, appends it to the order iff it is new, and reports a change iff it is new or its times moved |
| Uptime.UptimeManager.PruneWatched | src/services/uptime-manager.ts:130-137 | the deletion loop leaves exactly the watched ids still reported, in their order; `nodesChanged` iff some watched id went unreported |
| Uptime.UptimeManager.PruneEach | src/services/uptime-manager.ts:130-137 | the deletion loop over the watched ids in order drops exactly the unreported ones, keeps the rest in order, and reports a deletion iff some id went unreported |
| Uptime.UptimeManager.PruneAt | src/services/uptime-manager.ts:131-136 | one step of the deletion loop advances the pruned map and the filtered order by one id and reports a deletion iff that id is unreported |
| Uptime.UptimeManager.DeleteUnreported | src/services/uptime-manager.ts:132-136 | an unreported id is removed from the map and the order; a reported one is kept |
| Uptime.UptimeManager.constructor | src/services/uptime-manager.ts:24-34 | a new manager watches nothing and has asked for no dashboard |
| Reconcile.ObserveAllKeys | src/services/uptime-manager.ts:79-90 | the reconciled ids are exactly the ids some observation reported |
| Reconcile.ConnectedIsOr | src/services/uptime-manager.ts:80-89 | a reported id is connected iff some observation of it, duplicates included, is connected |
| Reconcile.FirstObservationWins | src/services/uptime-manager.ts:80-89 | an id's start and end times are those of its first observation |
| Reconcile.GaugesOfTick | src/services/uptime-manager.ts:101-111 | the gauge keys are exactly the reported ids, with value 1 iff some observation is connected, and the times of the first observation times 1000 |
| Reconcile.Availability | src/services/uptime-manager.ts:72-77 | the flag is 0 or 1, and 1 iff the source answered a list (`null` and `undefined` give 0) |
| Reconcile.AvailabilityKeys | src/services/uptime-manager.ts:72-77 | after the tick a URL has a `node_available` series iff it had one or was polled |
| Reconcile.AvailabilityOfSource | src/services/uptime-manager.ts:72-77 | each polled URL's `node_available` is its source's availability flag |
| Reconcile.AvailabilityElsewhere | src/services/uptime-manager.ts:72-77 | URLs not polled keep their old value |
| WatchSet.NextEntries | src/services/uptime-manager.ts:113-137 | the next watch map has exactly the reported ids as keys |
| WatchSet.NextEntriesContents | src/services/uptime-manager.ts:114-128 | each next entry has its id as its `nodeId`, the reported times in milliseconds, and its old name or `''` if new |
| WatchSet.UpsertedConsistent | src/services/uptime-manager.ts:114-128 | after the upsert the order still lists each key once |
| WatchSet.UpsertThenPrune | src/services/uptime-manager.ts:113-137 | upserting then deleting the unreported ids gives `NextEntries`. After the upsert, some id is unreported iff one was before it |
| WatchSet.UpsertThenPruneOrder | src/services/uptime-manager.ts:113-137 | old ids keep their places, and new ids follow in reported order |
| WatchSet.PrunedAll | src/services/uptime-manager.ts:131-137 | the deletion loop over the watched ids yields exactly the reported part of the map |
| WatchSet.UnreportedAll | src/services/uptime-manager.ts:131-137 | the loop's flag holds iff some watched id is unreported |
| WatchSet.NextOrderConsistent | src/services/uptime-manager.ts:113-137 | the next order lists exactly the next map's keys, each once |
| WatchSet.ChangedIff | src/services/uptime-manager.ts:100-137 | `nodesChanged` (an id added, removed or re-timed) holds iff the watch map differs from before |
| WatchSet.NextEntriesIdempotent | src/services/uptime-manager.ts:100-142 | a second tick with the same responses leaves the map as it is and calls no dashboard update |
| WatchSet.NextOrderIdempotent | src/services/uptime-manager.ts:113-137 | a second tick with the same responses leaves the watch order, and so the order of the dashboard panels, as it is |
| WatchSet.FilterMembers | src/services/uptime-manager.ts:131-137 | the filtered order holds exactly the ids of the old order on the chosen side of the key set |
| WatchSet.FilterAppend | src/services/uptime-manager.ts:104-137 | filtering distributes over concatenation |
| WatchSet.Remove | src/services/uptime-manager.ts:133 | deleting an id leaves every other id and only those |
| LegacyMetrics.UptimeManager.Update | src/tools/metrics-tools.ts:75-87 | when some answer is not `null` (an `undefined` one passes), `node_available` and `validators_connected` are written. Otherwise no gauge changes |
| LegacyMetrics.UptimeManager.UpdateMetrics | src/tools/metrics-tools.ts:89-112 | `node_available` is the per-URL flag fold. `validators_connected` is the watched-connected gauge of all answering sources' records |
| LegacyMetrics.FoldConnected | src/tools/metrics-tools.ts:99-104 | the inner loop extends the `connected` map exactly as the fold over the longer record list |
| LegacyMetrics.UptimeManager.CommitConnected | src/tools/metrics-tools.ts:107-111 | after reset, `validators_connected` has exactly the watched ids, 1 iff connected and 0 otherwise |
| LegacyMetrics.WatchedConnectedIsOr | src/tools/metrics-tools.ts:99-104 | an id is in `connected` iff it is watched and reported, and is true iff some observation of it is connected |
| LegacyMetrics.ConnectedFlag | src/tools/metrics-tools.ts:109 | the gauge value is 0 or 1, and 1 iff the id is present and connected |
| LegacyMetrics.RevisionsAgree | src/tools/metrics-tools.ts:99-111 | for a watched id, the older revision's value equals the newer revision's gauge where that has a series, and is 0 otherwise |
| LegacyMetrics.UptimeManager.constructor | src/tools/metrics-tools.ts:45-47 | the watch set holds exactly the given ids; the cron string defaults to every 10 seconds |
| LegacyMetrics.NodeURLsAgree | src/tools/metrics-tools.ts:124-136 | `getAvalancheNodeURLs` equals the current service's `initNodeURLs`, and every URL is a trimmed, non-empty, comma-free entry |
| LegacyMetrics.NodeIds | src/tools/metrics-tools.ts:145 | the ids of the records, in order |
| LegacyMetrics.GetValidatorIDs | src/tools/metrics-tools.ts:142-153 | an id is returned iff it is non-empty and some record has it; no more ids than records |
| LegacyMetrics.GetCronString | src/tools/metrics-tools.ts:155-158 | the cron string reads back as step `parseInt(STEP_SECONDS)`, or 10 when that is NaN or 0; by `CronStringStepExact` the text is exactly `*/<step> * * * * *` |
| LegacyMetrics.CreateManager | src/tools/metrics-tools.ts:160-164 | the manager is built from the three start-up helpers |
| Time.RoundedSeconds | src/tools/time.ts:7 | milliseconds rounded to the nearest second, half up |
| Time.Decompose | src/tools/time.ts:7-13 | exactly four components, with units `d`, `h`, `m`, `s` in that order |
| Time.DecomposeRecompose | src/tools/time.ts:7-13 | for non-negative input, s < 60, m < 60, h < 24, and `d*86400 + h*3600 + m*60 + s` is the rounded second count |
| Time.RenderEmptyIff | src/tools/time.ts:15-19 | the rendering is empty iff no component is positive |
| Time.EmptyIffNotPositive | src/tools/time.ts:15-20 | the result is `""` (never `"0s"`) iff the rounded seconds are ≤ 0 |
| Time.RenderParse | src/tools/time.ts:15-19 | the non-zero components, each followed by its unit in the order d, h, m, s, parse back to their total |
| Time.RenderParseRoundTrip | src/tools/time.ts:6-21 | for non-negative input, parsing the output recovers the rounded second count |
| Time.Examples | src/tools/time.ts:6-21 | 90061000 → `1d1h1m1s`, 59000 → `59s`, 3600000 → `1h` |
| Time.RoundingExamples | src/tools/time.ts:7-20 | 1499 → `1s`, 1500 → `2s`, 0 and 499 → `""` |
| Grafana.DashboardFromTemplate | src/services/grafana-tools.ts:32-61 | the template's panels become the regenerated list. It fails with the source's `TypeError` exactly when there is no prototype panel, or there are nodes and the prototype has no query |
| Grafana.CopyForNode | src/services/grafana-tools.ts:42-52 | the loop body's copy is the prototype with the node's query, title, id and position |
| Grafana.GeneratedPanels | src/services/grafana-tools.ts:33-60 | `panels[0]` followed by one panel per node; further template panels are dropped |
| Grafana.GeneratedPanelAt | src/services/grafana-tools.ts:41-58 | the copy for node k is the prototype copied for it at the k-th grid position |
| Grafana.GeneratedPanelFields | src/services/grafana-tools.ts:43-51 | the copy for node k has id k + 2 and the node's title, and keeps every other field of the prototype |
| Grafana.PanelsSelectNodes | src/services/grafana-tools.ts:44-47 | the copy's query matches the prototype's up to the first `NodeID="..."` selector, which now names the node |
| Grafana.ReplaceLeftmostSelector | src/services/grafana-tools.ts:46 | only the leftmost selector is replaced, with what precedes and follows it kept |
| Grafana.ReplaceWithoutSelector | src/services/grafana-tools.ts:46 | a query without a selector is unchanged |
| Grafana.PositionsOnGrid | src/services/grafana-tools.ts:54-58 | x stays non-negative, and after the first panel it is at most 24, since the wrap happens only beyond 24 |
| Grafana.PositionsAdvance | src/services/grafana-tools.ts:54-58 | later panels come strictly later in row-major order |
| Grafana.WrapExample | src/services/grafana-tools.ts:54-58 | with width 12, the panels sit at x 0, 12 and 24, and the fourth wraps to (0, 8) |
| Grafana.DashboardManager.Update | src/services/grafana-tools.ts:63-79 | nothing is written without a template URL and path, or when the fetch yields nothing. Otherwise the regenerated template is written to the path, and nothing is written when generation throws |
| Grafana.DashboardManager.constructor | src/services/grafana-tools.ts:11 | the manager takes the configuration's template URL and path, and has written nothing |
| LegacyGrafana.DashboardManager.Update | src/tools/grafana-tools.ts:73-89 | the same guards and write as the current manager |
| LegacyGrafana.DashboardManager.constructor | src/tools/grafana-tools.ts:24-27 | the manager keeps the given template URL and path |
| LegacyGrafana.CreateDashboardManager | src/tools/grafana-tools.ts:92-95 | the manager is built from `GRAFANA_DASHBOARD_TEMPLATE_URL` and `GRAFANA_DASHBOARD_PATH` |
| Aggregations.AverageValidatorUptime | src/services/aggregations-manager.ts:28-46 | `BAD_REQUEST`, before any query, iff `to - from <= 0`. Otherwise exactly one query of the windowed average, evaluated at `to`, and `{uptime}` iff the value is present and truthy |
| Aggregations.UptimeQueryWindow | src/services/aggregations-manager.ts:35-39 | the window in that query parses back to the interval rounded to seconds |
| Aggregations.WindowOfAverageQuery | src/services/aggregations-manager.ts:39 | the window can be read back out of the query string |
| Aggregations.ValidatorConnectedAt | src/services/aggregations-manager.ts:48-56 | one query at `at`; an answer iff the value is present and truthy, and never `{connected: false}` |
| Aggregations.ValidatorInfoAt | src/services/aggregations-manager.ts:58-87 | the chain stops after the first empty result. The average uses `endTime - startTime` at `endTime`. An answer is returned only after all three queries and a truthy average |
| Aggregations.DateFromValue | src/services/aggregations-manager.ts:61 | `new Date(v)` truncates toward zero to whole milliseconds: the date lies between zero and the value, less than a millisecond from it |
| Queries.ParseQueryResult | src/tools/queries.ts:3-12 | `null` iff the result is missing or empty; otherwise the transformer applied to the first sample |
| Queries.ParseQueryValue | src/tools/queries.ts:9-11 | without a transformer, the first sample's value unchanged |
| Queries.OnlyFirstSeriesMatters | src/tools/queries.ts:8-10 | results that agree on the first sample parse alike |
| Queries.TransformerCommutes | src/tools/queries.ts:7-10 | the transformed result is the transformer applied to the untransformed one |
| Config.InitNodeURLs | src/services/config.ts:63-75 | `[]` when the setting is unset or empty. Otherwise the list is `NodeURLList` of the setting: exactly the non-empty trimmed comma-separated pieces, each a trimmed comma-free entry, in the setting's order |
| Config.InitCronString | src/services/config.ts:85-88 | the cron string reads back as step `parseInt(VALIDATORS_FILE)`, or 10 when that is NaN or 0; by `CronStringStepExact` the text is exactly `*/<step> * * * * *` |
| Config.Configuration.constructor | src/services/config.ts:51-60 | every field is set as its `init…` method or its config key gives it |
| EnvParsing.NodeURLList | src/services/config.ts:66-71 | the URL list holds exactly the non-empty trimmed pieces of the setting, each a list entry |
| EnvParsing.NodeURLListConcat | src/services/config.ts:67-70 | the URLs before a comma come first, then those after it: order and repeats are kept |
| EnvParsing.NodeURLListPiece | src/services/config.ts:67-70 | a comma-free setting lists its trimmed text, or nothing when that is empty |
| EnvParsing.NodeURLListKeepsOrder | src/services/config.ts:67-70 | `b,,a,b` lists `b`, `a`, `b`: the empty entry goes, the order and the repeat stay |
| EnvParsing.NodeURLListRoundTrip | src/services/config.ts:67-70 | a list of trimmed, non-empty, comma-free URLs joined by commas parses back to itself, in order |
| EnvParsing.TrimmedPieceIsEntry | src/services/config.ts:67-70 | a non-empty trimmed piece of a split is a valid list entry |
| EnvParsing.TrimAll | src/services/config.ts:69 | each piece trimmed, in order |
| EnvParsing.NonEmpty | src/services/config.ts:70 | keeps only non-empty pieces, and every non-empty piece occurs in the result |
| EnvParsing.NonEmptyAppend | src/services/config.ts:70 | the filter of a concatenation is the concatenation of the filters, so order and repeats are kept |
| EnvParsing.NonEmptySingle | src/services/config.ts:70 | one piece is kept iff it is not empty |
| EnvParsing.TrimAllAppend | src/services/config.ts:69 | trimming a concatenation trims each part in place |
| EnvParsing.NonEmptyKeepsAll | src/services/config.ts:70 | a list without empty pieces is unchanged |
| EnvParsing.CronStep | src/services/config.ts:86 | `parseInt(...) \|\| 10`: the parsed step unless NaN or 0, then 10 |
| EnvParsing.CronStringReadBack | src/services/config.ts:87 | `*/<step> * * * * *` reads back as its step |
| EnvParsing.CronStringStepExact | src/services/config.ts:87 | a cron string that reads back as a step is exactly `*/<step> * * * * *`, so the read-back pins the text |
| Strings.Split | src/services/config.ts:68 | at least one piece, and no piece holds the separator |
| Strings.JoinSplit | src/services/config.ts:68 | joining the pieces of a split gives back the string |
| Strings.SplitJoin | src/services/config.ts:68 | splitting a join of separator-free pieces gives back the pieces |
| Strings.SplitAppend | src/services/config.ts:68 | the pieces on either side of one separator are split independently and listed in order |
| Strings.SplitWithoutSeparator | src/services/config.ts:68 | a string without the separator is one piece |
| Strings.Trim | src/services/config.ts:69 | the result is a slice of the input with only whitespace before and after it, and has no whitespace at either end; an already trimmed input is returned as it is |
| Strings.TrimIsSlice | src/services/config.ts:69 | cutting whitespace from the start and then from the end leaves the slice between the cuts |
| Strings.TrimKeepsCharacters | src/services/config.ts:69 | trimming adds no characters |
| Strings.NatToString | src/services/config.ts:87 | the decimal numeral: digits only, no leading zero |
| Strings.IntToStringRoundTrip | src/services/config.ts:87 | the numeral of an integer parses back to it |
| Strings.NatToStringRoundTrip | src/tools/time.ts:16-19 | the numeral of a natural number denotes it |
| Utils.AverageCollector.Add | src/tools/utils.ts:6-10 | `sum` grows by the value and `count` by 1, and the collector itself is returned |
| Utils.AverageCollector.Average | src/tools/utils.ts:12-14 | with at least one value, the mean times the count is the sum of the values |
| Utils.AverageCollector.constructor | src/tools/utils.ts:2-4 | an empty collector |
| Prometheus.Registry.constructor | src/services/prometheus.ts:12-28 | every gauge starts with no series |

## Left out

- HTTP polling (`callGetCurrentValidators`) and the template fetch (`readTemplate`) are network I/O. The tick takes the per-URL answers as a sequence, and `update` takes the fetched template as an `Option`.
- `CronJob` scheduling, the `async-mutex` lock and `waitForUnlock` exist for concurrency. Each `update` is one atomic call.
- The prom-client library: metric rendering, `contentType` and `getMetrics`. Each gauge is a map from its label value to its sample.
- File reads and writes: `fs.readFileSync` of the validators file is a function parameter. The dashboard file write is the `written` map from path to dashboard; a write that throws is caught and logged in the source, and the model treats every write as successful. JSON parse and stringify are record copies.
- Loggers and bootstrap code, the HTTP controllers and `src/analyze-metrics.ts` are not part of this model.
- The stake, uptime-fraction and delegator fields of a validator record are carried but never read, as in the tick commit.
- `parseInt` and `Number` are not modelled in full. Times arrive already converted to integers, and `parseInt` is a function to `Option<int>` where `None` is NaN.
- Sample values are `real`: no NaN and no floating-point rounding. `Truthy` is `v != 0`.
- The `NodeID="(.*?)"` regular expression is modelled as its leftmost match, with no line terminator inside the quotes. Other regular-expression features do not occur in it.
- Grafana.ReplaceNodeID: the replacement text is inserted verbatim. `String.prototype.replace` expands `$&`, `` $` ``, `$'`, `$$` and `$1` in it; the model assumes node ids contain no `$`, so these patterns are not modelled.
- Aggregations.AverageValidatorUptime: the Prometheus driver is a total function that always returns a result. A rejected query and the error it throws out of the method are not modelled. So "Failure iff `to - from <= 0`" holds only when the query succeeds. One such rejection: an interval of 1-499 ms renders as the empty window `[]`, which the server refuses.
- Aggregations.ValidatorConnectedAt: a rejected query, which throws out of the method, is not modelled.
- Aggregations.ValidatorInfoAt: rejected queries are not modelled, for example an average window where `endTime - startTime` rounds to 0 s or less and renders as `[]`.
- Aggregations.DateFromValue: a sample beyond ±8.64e15 ms gives an Invalid Date in JavaScript. The model still returns its truncation.
- The responses map is a sequence of URL/answer pairs in insertion order. Distinct URLs are required only where a per-URL value is stated.
- The older watch set is a Dafny `set`. Its iteration order cannot affect the resulting gauge map.
- The dashboard manager's asynchronous `update`, as called from the tick, is a ghost log of the items it was given.
- LegacyMetrics.GetAvalancheNodeURLs has no contract of its own; `NodeURLsAgree` states it equals `Config.InitNodeURLs`.

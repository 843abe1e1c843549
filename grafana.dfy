/**
 * Dashboard regeneration: from a template whose first panel shows all nodes and whose second
 * panel is the per-node prototype, build one copy of the prototype per watched node, with the
 * node's id in the query selector, a title, a sequential id and a position on a 24-wide grid.
 */
module Grafana {
  import opened Wrappers
  import opened Types
  import Config

  /** Width of the dashboard grid in Grafana's units. */
  const GridWidth: int := 24

  datatype GridPos = GridPos(x: int, y: int, w: int, h: int)

  /** A panel query; `other` stands for the target's remaining JSON fields. */
  datatype Target = Target(expr: string, other: map<string, string>)

  /** A dashboard panel; `other` stands for the panel's remaining JSON fields. */
  datatype Panel = Panel(id: int, title: string, gridPos: GridPos, targets: seq<Target>, other: map<string, string>)

  /** A dashboard; `other` stands for its top-level fields besides `panels`. */
  datatype Dashboard = Dashboard(panels: seq<Panel>, other: map<string, string>)

  /** The `TypeError` the generator throws when the template lacks what it reads. */
  datatype GenerateError = TypeError

  // ---------------------------------------------------------------------------------------------
  // expr.replace(/NodeID="(.*?)"/, `NodeID="${nodeId}"`)
  // ---------------------------------------------------------------------------------------------

  const SelectorStart: string := "NodeID=\""

  /** The characters `.` does not match in a JavaScript regular expression. */
  predicate IsLineTerminator(c: char)
  {
    c == '\n' || c == '\r' || c == '\U{2028}' || c == '\U{2029}'
  }

  /**
   * Where the lazy `(.*?)"` that starts at `i` stops: the first `"` at or after `i`, unless a line
   * terminator or the end of the string comes first.
   */
  function ClosingQuote(s: string, i: nat): (j: Option<nat>)
    requires i <= |s|
    ensures j.Some? ==> i <= j.value < |s| && s[j.value] == '"'
    ensures j.Some? ==> forall k :: i <= k < j.value ==> s[k] != '"' && !IsLineTerminator(s[k])
    decreases |s| - i
  {
    if i == |s| then None
    else if s[i] == '"' then Some(i)
    else if IsLineTerminator(s[i]) then None
    else ClosingQuote(s, i + 1)
  }

  /** The pattern matches starting at index `k`. */
  predicate MatchesAt(s: string, k: nat)
  {
    k + |SelectorStart| <= |s| && s[k..k + |SelectorStart|] == SelectorStart
    && ClosingQuote(s, k + |SelectorStart|).Some?
  }

  /** The leftmost match at or after `i`: where it starts and where its closing quote is. */
  function FirstMatch(s: string, i: nat): (m: Option<(nat, nat)>)
    requires i <= |s|
    ensures m.None? ==> forall k :: i <= k <= |s| ==> !MatchesAt(s, k)
    ensures m.Some? ==>
      && i <= m.value.0 && MatchesAt(s, m.value.0)
      && m.value.1 == ClosingQuote(s, m.value.0 + |SelectorStart|).value
      && forall k :: i <= k < m.value.0 ==> !MatchesAt(s, k)
    decreases |s| - i
  {
    if MatchesAt(s, i) then Some((i, ClosingQuote(s, i + |SelectorStart|).value))
    else if i == |s| then None
    else FirstMatch(s, i + 1)
  }

  /** The selector `NodeID="<id>"`. */
  function NodeSelector(nodeId: string): string
  {
    SelectorStart + nodeId + "\""
  }

  /**
   * The expression with its leftmost `NodeID="..."` (closed before any line break) replaced by
   * the node's selector; without such a selector the expression is unchanged.
   */
  function ReplaceNodeID(expr: string, nodeId: string): string
  {
    match FirstMatch(expr, 0)
    case None => expr
    case Some((i, j)) => expr[..i] + NodeSelector(nodeId) + expr[j + 1..]
  }

  /** Without a selector in the expression, the replacement leaves it unchanged. */
  lemma ReplaceWithoutSelector(expr: string, nodeId: string)
    requires forall k :: 0 <= k <= |expr| ==> !MatchesAt(expr, k)
    ensures ReplaceNodeID(expr, nodeId) == expr
  {
    assert FirstMatch(expr, 0).None?;
  }

  /**
   * When the leftmost selector starts at `i`, the replacement keeps what precedes it and what
   * follows its closing quote, and puts the node's selector in between.
   */
  lemma ReplaceLeftmostSelector(expr: string, nodeId: string, i: nat)
    requires i <= |expr| && MatchesAt(expr, i)
    requires forall k :: 0 <= k < i ==> !MatchesAt(expr, k)
    ensures ReplaceNodeID(expr, nodeId)
      == expr[..i] + NodeSelector(nodeId) + expr[ClosingQuote(expr, i + |SelectorStart|).value + 1..]
  {
    var m := FirstMatch(expr, 0);
    assert m.Some? && m.value.0 == i;
  }

  // ---------------------------------------------------------------------------------------------
  // Layout
  // ---------------------------------------------------------------------------------------------

  datatype Position = Position(x: int, y: int)

  /** The next position: `w` to the right, or the start of the next row when that passes 24. */
  function Advance(p: Position, w: int, h: int): Position
  {
    if p.x + w > GridWidth then Position(0, p.y + h) else Position(p.x + w, p.y)
  }

  /** The position of the `k`-th node panel when the first one sits at `start`. */
  function PositionAt(start: Position, w: int, h: int, k: nat): Position
  {
    if k == 0 then start else Advance(PositionAt(start, w, h, k - 1), w, h)
  }

  /**
   * With a non-negative start column and width, every panel after the first starts within the
   * grid: its column is between 0 and 24 inclusive (a panel may start exactly at column 24).
   */
  lemma {:induction false} PositionsOnGrid(start: Position, w: int, h: int, k: nat)
    requires start.x >= 0 && w >= 0
    ensures PositionAt(start, w, h, k).x >= 0
    ensures k > 0 ==> PositionAt(start, w, h, k).x <= GridWidth
  {
    if k > 0 {
      PositionsOnGrid(start, w, h, k - 1);
    }
  }

  /** `p` comes strictly before `q` in reading order: an earlier row, or the same row further left. */
  predicate Before(p: Position, q: Position)
  {
    p.y < q.y || (p.y == q.y && p.x < q.x)
  }

  /**
   * With a positive width and height and a non-negative start column, later panels come strictly
   * later in reading order, so no two node panels share a position.
   */
  lemma {:induction false} PositionsAdvance(start: Position, w: int, h: int, k1: nat, k2: nat)
    requires start.x >= 0 && w > 0 && h > 0 && k1 < k2
    ensures Before(PositionAt(start, w, h, k1), PositionAt(start, w, h, k2))
    decreases k2
  {
    if k1 < k2 - 1 {
      PositionsAdvance(start, w, h, k1, k2 - 1);
    }
  }

  /** At width 12 three panels fill a row from column 0 (the third at column 24) before it wraps. */
  lemma WrapExample()
    ensures PositionAt(Position(0, 0), 12, 8, 1) == Position(12, 0)
    ensures PositionAt(Position(0, 0), 12, 8, 2) == Position(24, 0)
    ensures PositionAt(Position(0, 0), 12, 8, 3) == Position(0, 8)
  {
  }

  // ---------------------------------------------------------------------------------------------
  // Panels
  // ---------------------------------------------------------------------------------------------

  /** `Uptime of ${node.name || node.nodeId}`. */
  function PanelTitle(node: ValidatorNodeDataItem): string
  {
    "Uptime of " + (if node.name != "" then node.name else node.nodeId)
  }

  /** The copy of the prototype for the `index`-th node, placed at `pos`. */
  function NodePanel(prototype: Panel, node: ValidatorNodeDataItem, index: nat, pos: Position): Panel
    requires |prototype.targets| > 0
  {
    var target := prototype.targets[0];
    prototype.(
      id := index + 2,
      title := PanelTitle(node),
      gridPos := prototype.gridPos.(x := pos.x, y := pos.y),
      targets := prototype.targets[0 := target.(expr := ReplaceNodeID(target.expr, node.nodeId))])
  }

  /** The template has what the generator reads: two panels, and a query in the prototype when a node needs it. */
  predicate CanGenerate(panels: seq<Panel>, nodes: seq<ValidatorNodeDataItem>)
  {
    |panels| >= 2 && (|nodes| > 0 ==> |panels[1].targets| > 0)
  }

  /** The start of the prototype's grid position. */
  function StartOf(prototype: Panel): Position
  {
    Position(prototype.gridPos.x, prototype.gridPos.y)
  }

  /**
   * The regenerated panel list: the all-nodes panel, then one prototype copy per node in node
   * order; template panels after the second are dropped.
   */
  function GeneratedPanels(panels: seq<Panel>, nodes: seq<ValidatorNodeDataItem>): (r: seq<Panel>)
    requires CanGenerate(panels, nodes)
    ensures |r| == |nodes| + 1 && r[0] == panels[0]
  {
    [panels[0]] + NodePanels(panels[1], nodes)
  }

  /** One copy of the prototype per node, in node order, laid out from the prototype's position. */
  function NodePanels(prototype: Panel, nodes: seq<ValidatorNodeDataItem>): (r: seq<Panel>)
    requires |nodes| > 0 ==> |prototype.targets| > 0
    ensures |r| == |nodes|
  {
    seq(|nodes|, k requires 0 <= k < |nodes| =>
      NodePanel(prototype, nodes[k], k, PositionAt(StartOf(prototype), prototype.gridPos.w, prototype.gridPos.h, k)))
  }

  /** Extending the node list by one node appends that node's copy. */
  lemma NodePanelsSnoc(prototype: Panel, nodes: seq<ValidatorNodeDataItem>, i: nat)
    requires i < |nodes| && |prototype.targets| > 0
    ensures NodePanels(prototype, nodes[..i + 1])
      == NodePanels(prototype, nodes[..i])
         + [NodePanel(prototype, nodes[i], i, PositionAt(StartOf(prototype), prototype.gridPos.w, prototype.gridPos.h, i))]
  {
    var a := NodePanels(prototype, nodes[..i + 1]);
    var b := NodePanels(prototype, nodes[..i]);
    assert forall k :: 0 <= k < i ==> a[k] == b[k];
  }

  /** The copy for the `k`-th node is the prototype copied for it at its grid position. */
  lemma GeneratedPanelAt(panels: seq<Panel>, nodes: seq<ValidatorNodeDataItem>, k: nat)
    requires CanGenerate(panels, nodes) && k < |nodes|
    ensures GeneratedPanels(panels, nodes)[k + 1]
      == NodePanel(panels[1], nodes[k], k, PositionAt(StartOf(panels[1]), panels[1].gridPos.w, panels[1].gridPos.h, k))
  {
    assert GeneratedPanels(panels, nodes)[k + 1] == NodePanels(panels[1], nodes)[k];
  }

  /**
   * The copy for each node keeps the prototype's fields, size and further queries, and takes
   * the id `k + 2` and the node's title.
   */
  lemma GeneratedPanelFields(panels: seq<Panel>, nodes: seq<ValidatorNodeDataItem>, k: nat)
    requires CanGenerate(panels, nodes) && k < |nodes|
    ensures var p := GeneratedPanels(panels, nodes)[k + 1];
      && p.id == k + 2
      && p.title == PanelTitle(nodes[k])
      && p.other == panels[1].other
      && p.gridPos.w == panels[1].gridPos.w && p.gridPos.h == panels[1].gridPos.h
      && |p.targets| == |panels[1].targets| && p.targets[1..] == panels[1].targets[1..]
      && p.targets[0].other == panels[1].targets[0].other
  {
    GeneratedPanelAt(panels, nodes, k);
  }

  /**
   * When the prototype's query has a `NodeID="..."` selector, the copy for each node selects that
   * node: its query starts as the prototype's does up to the selector, then names the node.
   */
  lemma PanelsSelectNodes(panels: seq<Panel>, nodes: seq<ValidatorNodeDataItem>, k: nat, i: nat)
    requires CanGenerate(panels, nodes) && k < |nodes|
    requires var expr := panels[1].targets[0].expr;
      i <= |expr| && MatchesAt(expr, i) && forall j :: 0 <= j < i ==> !MatchesAt(expr, j)
    ensures var copy := GeneratedPanels(panels, nodes)[k + 1];
      && |copy.targets| > 0
      && var expr := copy.targets[0].expr;
      && i + |NodeSelector(nodes[k].nodeId)| <= |expr|
      && expr[..i] == panels[1].targets[0].expr[..i]
      && expr[i..i + |NodeSelector(nodes[k].nodeId)|] == NodeSelector(nodes[k].nodeId)
  {
    var e := panels[1].targets[0].expr;
    ReplaceLeftmostSelector(e, nodes[k].nodeId, i);
    var sel := NodeSelector(nodes[k].nodeId);
    var replaced := ReplaceNodeID(e, nodes[k].nodeId);
    GeneratedPanelAt(panels, nodes, k);
    assert replaced[..i] == e[..i];
    assert replaced[i..i + |sel|] == sel;
  }

  /** The body of the generator's loop for one node: the copy of the prototype, edited field by field. */
  method CopyForNode(panelNode: Panel, node: ValidatorNodeDataItem, i: nat, gridPosX: int, gridPosY: int)
    returns (panelCopy: Panel)
    requires |panelNode.targets| > 0
    ensures panelCopy == NodePanel(panelNode, node, i, Position(gridPosX, gridPosY))
  {
    var expr := panelNode.targets[0].expr;
    expr := ReplaceNodeID(expr, node.nodeId);
    panelCopy := panelNode.(targets := panelNode.targets[0 := panelNode.targets[0].(expr := expr)]);
    panelCopy := panelCopy.(title := PanelTitle(node));
    panelCopy := panelCopy.(id := i + 2);
    panelCopy := panelCopy.(gridPos := panelCopy.gridPos.(x := gridPosX));
    panelCopy := panelCopy.(gridPos := panelCopy.gridPos.(y := gridPosY));
  }

  /**
   * `dashboardFromTemplate(template, nodes)`: the template with its panels replaced by the
   * regenerated list, or the `TypeError` the source throws when the template lacks the
   * prototype panel, or (once a node is processed) the prototype lacks a query.
   */
  method DashboardFromTemplate(template: Dashboard, nodes: seq<ValidatorNodeDataItem>)
    returns (result: Result<Dashboard, GenerateError>)
    ensures result.Success? <==> CanGenerate(template.panels, nodes)
    ensures result.Success? ==>
      result.value == template.(panels := GeneratedPanels(template.panels, nodes))
  {
    var panels := template.panels;
    if |panels| < 2 {
      return Failure(TypeError);
    }
    var panelAll := panels[0];
    var panelNode := panels[1];
    ghost var start := StartOf(panelNode);
    var newPanels := [panelAll];
    var gridPosX := panelNode.gridPos.x;
    var gridPosY := panelNode.gridPos.y;
    var i := 0;
    while i < |nodes|
      invariant 0 <= i <= |nodes|
      invariant i > 0 ==> |panelNode.targets| > 0
      invariant newPanels == [panelAll] + NodePanels(panelNode, nodes[..i])
      invariant Position(gridPosX, gridPosY) == PositionAt(start, panelNode.gridPos.w, panelNode.gridPos.h, i)
    {
      var node := nodes[i];
      if |panelNode.targets| == 0 {
        return Failure(TypeError);
      }
      var panelCopy := CopyForNode(panelNode, node, i, gridPosX, gridPosY);
      NodePanelsSnoc(panelNode, nodes, i);
      assert panelCopy == NodePanel(panelNode, node, i, PositionAt(start, panelNode.gridPos.w, panelNode.gridPos.h, i));
      newPanels := newPanels + [panelCopy];
      assert newPanels == [panelAll] + NodePanels(panelNode, nodes[..i + 1]);

      gridPosX := gridPosX + panelNode.gridPos.w;
      if gridPosX > GridWidth {
        gridPosX := 0;
        gridPosY := gridPosY + panelNode.gridPos.h;
      }
      i := i + 1;
    }
    assert nodes[..i] == nodes;
    result := Success(template.(panels := newPanels));
  }

  /**
   * The dashboard manager. The written dashboards stand for the files it writes: the path and
   * the JSON text of the dashboard, represented by the dashboard value.
   */
  class DashboardManager {
    const dashboardTemplateUrl: Option<string>
    const dashboardPath: Option<string>
    var written: map<string, Dashboard>

    constructor (config: Config.Configuration)
      ensures dashboardTemplateUrl == config.dashboardTemplateUrl
      ensures dashboardPath == config.dashboardPath
      ensures written == map[]
    {
      dashboardTemplateUrl := config.dashboardTemplateUrl;
      dashboardPath := config.dashboardPath;
      written := map[];
    }

    /**
     * `update(nodes)`: nothing without a template URL and a dashboard path; otherwise `fetched`
     * is what reading the template yielded (`None` for an error, `null` or empty data), and a
     * template that regenerates is written to the path. A failed regeneration is logged and
     * nothing is written.
     */
    method Update(nodes: seq<ValidatorNodeDataItem>, fetched: Option<Dashboard>)
      modifies this
      ensures !Config.IsTruthy(dashboardTemplateUrl) || !Config.IsTruthy(dashboardPath) ==> written == old(written)
      ensures fetched.None? ==> written == old(written)
      ensures Config.IsTruthy(dashboardTemplateUrl) && Config.IsTruthy(dashboardPath) && fetched.Some? ==>
        written == if CanGenerate(fetched.value.panels, nodes)
                   then old(written)[dashboardPath.value := fetched.value.(panels := GeneratedPanels(fetched.value.panels, nodes))]
                   else old(written)
    {
      if !Config.IsTruthy(dashboardTemplateUrl) || !Config.IsTruthy(dashboardPath) {
        return;
      }
      if fetched.None? {
        return;
      }
      var generated := DashboardFromTemplate(fetched.value, nodes);
      if generated.Success? {
        written := written[dashboardPath.value := generated.value];
      }
    }
  }
}

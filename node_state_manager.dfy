/**
 * The node-state-manager's editor extension: one saved state per node, a
 * Save button while nothing is saved, and a Load | Save split bar once
 * something is.
 */
module NodeStateManager {
  import opened JsValues
  import opened Widgets
  import opened HostGraph
  import opened Downstream

  // ---------------------------------------------------------------------------
  // Applying a saved state
  // ---------------------------------------------------------------------------

  /** Widget `w` after a load from `m`: it takes the saved value unless that is absent or `undefined`. */
  function AppliedWidget(w: Widget, m: map<string, Value>): Widget
  {
    if Get(m, w.name) != Undefined then w.(value := m[w.name]) else w
  }

  function Applied(ws: seq<Widget>, m: map<string, Value>): (r: seq<Widget>)
    ensures |r| == |ws| && forall j :: 0 <= j < |ws| ==> r[j] == AppliedWidget(ws[j], m)
  {
    seq(|ws|, j requires 0 <= j < |ws| => AppliedWidget(ws[j], m))
  }

  /** A widget whose callback a load calls: it is assigned, has a callback and is not a button. */
  predicate Triggers(w: Widget, m: map<string, Value>)
  {
    Get(m, w.name) != Undefined && w.hasCallback && w.kind != "button"
  }

  function TriggersOn(m: map<string, Value>): Widget -> bool
  {
    w => Triggers(w, m)
  }

  /**
   * The loop of `doLoad` over the target's widgets: every widget whose name
   * has a defined saved value takes it, and the callbacks of the assigned
   * non-button widgets are called (their indices are returned in order).
   */
  method ApplyState(ws: seq<Widget>, m: map<string, Value>) returns (r: seq<Widget>, fired: seq<nat>)
    ensures r == Applied(ws, m)
    ensures fired == IndicesWhere(ws, TriggersOn(m))
  {
    r, fired := ws, [];
    for i := 0 to |ws|
      invariant |r| == |ws|
      invariant forall j :: 0 <= j < i ==> r[j] == AppliedWidget(ws[j], m)
      invariant forall j :: i <= j < |ws| ==> r[j] == ws[j]
      invariant fired == IndicesWhere(ws[..i], TriggersOn(m))
    {
      assert ws[..i + 1][..i] == ws[..i];
      var w := r[i];
      if Get(m, w.name) != Undefined {
        r := r[i := w.(value := m[w.name])];
        if w.hasCallback && w.kind != "button" {
          fired := fired + [i];
        }
      }
    }
    assert ws[..|ws|] == ws;
  }

  /**
   * Saving a widget list with unique names and loading the result into the
   * same list restores every widget whose saved value was defined; a widget
   * saved as `undefined` keeps the value it has now.
   */
  lemma {:induction false} LoadAfterSave(saved: seq<Widget>, now: seq<Widget>, j: nat)
    requires UniqueNames(saved) && SameShape(saved, now) && j < |saved|
    ensures Applied(now, WidgetValues(saved))[j] == if saved[j].value == Undefined then now[j] else saved[j]
  {
    UniqueWidgetValue(saved, j);
  }

  /** Loading is idempotent on the values, yet a second load calls the same callbacks again. */
  lemma {:induction false} LoadTwice(ws: seq<Widget>, m: map<string, Value>)
    ensures Applied(Applied(ws, m), m) == Applied(ws, m)
    ensures IndicesWhere(Applied(ws, m), TriggersOn(m)) == IndicesWhere(ws, TriggersOn(m))
  {
    var r := Applied(ws, m);
    assert Applied(r, m) == r;
    if ws != [] {
      var n := |ws|;
      assert r[..n - 1] == Applied(ws[..n - 1], m);
      LoadTwice(ws[..n - 1], m);
      assert TriggersOn(m)(r[n - 1]) == TriggersOn(m)(ws[n - 1]);
    }
  }

  // ---------------------------------------------------------------------------
  // The hit test
  // ---------------------------------------------------------------------------

  datatype Hit = PassOn | SaveHit | LoadHit

  const Margin: real := 10.0
  const BarTop: real := 38.0
  const BarHeight: real := 20.0
  const MinScale: real := 0.55
  const SplitRatio: real := 0.75

  /**
   * What a mouse-down at (`x`, `y`) on a node `nodeWidth` wide does: a left
   * click in the bar's band, at a zoom of at least 0.55, hits the full-width
   * Save button while nothing is saved, and otherwise the Load part (the
   * left three quarters, both ends included) or the Save part (the rest);
   * anything else goes on to the node's own handler.
   */
  function ManagerClick(button: int, scale: real, hasState: bool, x: real, y: real, nodeWidth: real): (h: Hit)
    ensures h != PassOn ==> button == 0 && scale >= MinScale && BarTop <= y <= BarTop + BarHeight &&
                            Margin <= x <= nodeWidth - Margin
    ensures h == LoadHit ==> hasState
  {
    if button != 0 || scale < MinScale then PassOn
    else if !(BarTop <= y <= BarTop + BarHeight) then PassOn
    else
      var width := nodeWidth - Margin * 2.0;
      if !hasState then
        if Margin <= x <= Margin + width then SaveHit else PassOn
      else
        var loadWidth := width * SplitRatio;
        if Margin <= x <= Margin + loadWidth then LoadHit
        else if Margin + loadWidth < x <= Margin + width then SaveHit
        else PassOn
  }

  /**
   * Within the band, a saved node's bar is covered by Load and Save with no
   * gap: every point between the margins hits one of them, Load up to three
   * quarters of the bar and Save beyond; an unsaved node's bar is all Save.
   */
  lemma ManagerBarTiled(scale: real, x: real, y: real, nodeWidth: real)
    requires scale >= MinScale && BarTop <= y <= BarTop + BarHeight
    requires Margin <= x <= nodeWidth - Margin
    ensures ManagerClick(0, scale, false, x, y, nodeWidth) == SaveHit
    ensures ManagerClick(0, scale, true, x, y, nodeWidth) ==
              if x <= Margin + (nodeWidth - 2.0 * Margin) * SplitRatio then LoadHit else SaveHit
  {
  }

  // ---------------------------------------------------------------------------
  // The node
  // ---------------------------------------------------------------------------

  /** The extension's state of one node-state-manager node: its `saved_state` property and its flash marker. */
  class StateManagerNode {
    const id: int
    var savedState: Option<map<string, Value>>
    /** The button last flashed (`_flash_info.button`); the timed reset is not modelled. */
    var flash: string

    constructor (id: int)
      ensures this.id == id && savedState == None && flash == ""
    {
      this.id := id;
      savedState := None;
      flash := "";
    }

    /**
     * `doSave(node)`: with no link on output 0 nothing changes; otherwise the
     * widget values of the first link's target are saved and the canvas is
     * marked dirty.
     */
    method DoSave(g: Graph)
      requires g.Valid() && id in g.nodes
      modifies this, g
      ensures var t := FirstTarget(old(g.nodes[id]), old(g.nodes), old(g.links));
              && (t.None? ==> savedState == old(savedState) && g.dirtyMarks == old(g.dirtyMarks))
              && (t.Some? ==> savedState == Some(WidgetValues(old(g.nodes[t.value].body.widgets))) &&
                              g.dirtyMarks == old(g.dirtyMarks) + 1)
      ensures g.nodes == old(g.nodes) && g.links == old(g.links) && flash == old(flash)
      ensures g.lastNodeId == old(g.lastNodeId) && g.lastLinkId == old(g.lastLinkId)
    {
      FirstTargetFound(g.registry.Keys, g.nodes, g.links, g.lastNodeId, g.lastLinkId, id);
      var outputs := g.nodes[id].outputs;
      if |outputs| == 0 || |outputs[0].links| == 0 {
        return;
      }
      var link := g.links[outputs[0].links[0]];
      if link.targetId !in g.nodes {
        return;
      }
      var values := CollectWidgetValues(g.nodes[link.targetId].body.widgets);
      savedState := Some(values);
      g.MarkDirty();
    }

    /**
     * `doLoad(node)`: with nothing saved or no link on output 0 nothing
     * happens; otherwise the first link's target takes the saved values, the
     * callbacks of its assigned non-button widgets are called (their indices
     * are returned), and the canvas is marked dirty.
     */
    method DoLoad(g: Graph) returns (fired: seq<nat>)
      requires g.Valid() && id in g.nodes
      modifies g
      ensures g.Valid()
      ensures var t := FirstTarget(old(g.nodes[id]), old(g.nodes), old(g.links));
              savedState.None? || t.None? ==> fired == [] && g.nodes == old(g.nodes) && g.dirtyMarks == old(g.dirtyMarks)
      ensures var t := FirstTarget(old(g.nodes[id]), old(g.nodes), old(g.links));
              savedState.Some? && t.Some? ==>
                var ws := old(g.nodes[t.value].body.widgets);
                && g.nodes == old(g.nodes)[t.value := old(g.nodes[t.value]).(body := old(g.nodes[t.value].body).(widgets := Applied(ws, savedState.value)))]
                && fired == IndicesWhere(ws, TriggersOn(savedState.value))
                && g.dirtyMarks == old(g.dirtyMarks) + 1
      ensures g.links == old(g.links) && g.lastNodeId == old(g.lastNodeId) && g.lastLinkId == old(g.lastLinkId)
    {
      fired := [];
      if savedState.None? {
        return;
      }
      FirstTargetFound(g.registry.Keys, g.nodes, g.links, g.lastNodeId, g.lastLinkId, id);
      var outputs := g.nodes[id].outputs;
      if |outputs| == 0 || |outputs[0].links| == 0 {
        return;
      }
      var link := g.links[outputs[0].links[0]];
      if link.targetId !in g.nodes {
        return;
      }
      var body := g.nodes[link.targetId].body;
      var ws;
      ws, fired := ApplyState(body.widgets, savedState.value);
      g.WriteBody(link.targetId, body.(widgets := ws));
      g.MarkDirty();
    }

    /**
     * `node.onMouseDown`: a hit flashes its button (one redraw), runs the save
     * or the load and consumes the event; anything else is passed on.
     */
    method OnMouseDown(g: Graph, button: int, scale: real, x: real, y: real) returns (consumed: bool, fired: seq<nat>)
      requires g.Valid() && id in g.nodes
      modifies this, g
      ensures g.Valid()
      ensures var h := ManagerClick(button, scale, old(savedState).Some?, x, y, old(g.nodes[id].body.size.x));
              && (consumed <==> h != PassOn)
              && (h == PassOn ==> fired == [] && savedState == old(savedState) && flash == old(flash) &&
                                  g.nodes == old(g.nodes) && g.dirtyMarks == old(g.dirtyMarks))
              && (h == SaveHit ==> flash == "save" && fired == [] && g.nodes == old(g.nodes))
              && (h == LoadHit ==> flash == "load" && savedState == old(savedState))
      ensures var h := ManagerClick(button, scale, old(savedState).Some?, x, y, old(g.nodes[id].body.size.x));
              var t := FirstTarget(old(g.nodes[id]), old(g.nodes), old(g.links));
              h == SaveHit ==>
                && (t.None? ==> savedState == old(savedState) && g.dirtyMarks == old(g.dirtyMarks) + 1)
                && (t.Some? ==> savedState == Some(WidgetValues(old(g.nodes[t.value].body.widgets))) &&
                                g.dirtyMarks == old(g.dirtyMarks) + 2)
      ensures var h := ManagerClick(button, scale, old(savedState).Some?, x, y, old(g.nodes[id].body.size.x));
              var t := FirstTarget(old(g.nodes[id]), old(g.nodes), old(g.links));
              h == LoadHit ==>
                && old(savedState).Some?
                && (t.None? ==> fired == [] && g.nodes == old(g.nodes) && g.dirtyMarks == old(g.dirtyMarks) + 1)
                && (t.Some? ==>
                      var ws := old(g.nodes[t.value].body.widgets);
                      && g.nodes == old(g.nodes)[t.value := old(g.nodes[t.value]).(body := old(g.nodes[t.value].body).(widgets := Applied(ws, old(savedState).value)))]
                      && fired == IndicesWhere(ws, TriggersOn(old(savedState).value))
                      && g.dirtyMarks == old(g.dirtyMarks) + 2)
      ensures g.links == old(g.links)
    {
      fired := [];
      var h := ManagerClick(button, scale, savedState.Some?, x, y, g.nodes[id].body.size.x);
      match h {
        case PassOn =>
          consumed := false;
        case SaveHit =>
          flash := "save";
          g.MarkDirty();
          DoSave(g);
          consumed := true;
        case LoadHit =>
          flash := "load";
          g.MarkDirty();
          fired := DoLoad(g);
          consumed := true;
      }
    }
  }
}

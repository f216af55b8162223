/**
 * The destroy-and-recreate node's editor extension: its property defaults,
 * the deferred initial setup of its button and its input, the property-change
 * listener, the settings-menu toggles, the connection-change listener that
 * retypes its output and asks for a refresh, and the filter on the backend's
 * `goddesslabs.reload_node` events.
 */
module DestroyAndRecreate {
  import opened JsValues
  import opened Widgets
  import opened HostGraph
  import opened HostLinks
  import opened Reload
  import opened ReloadButton

  const ShowReloadButton: string := "show_reload_button"
  const ReloadOnInputChange: string := "reload_on_input_change"
  const ShowInput: string := "show_input"

  /** The input `node.addInput("any", "*")` appends. */
  const AnyInput: Input := Input("any", "*", NullLink)

  /** The wildcard label an output reverts to when its input is disconnected. */
  const AnyOutput: SlotSpec := SlotSpec("any", "*")

  // ---------------------------------------------------------------------------
  // Defaults and the input's visibility
  // ---------------------------------------------------------------------------

  /** The property bag after `onNodeCreated`'s defaults: each of the three settings is `true` unless defined. */
  function CreatedProperties(props: map<string, Value>): (r: map<string, Value>)
    ensures forall k :: k != ShowReloadButton && k != ReloadOnInputChange && k != ShowInput ==> Get(r, k) == Get(props, k)
    ensures forall k :: k in {ShowReloadButton, ReloadOnInputChange, ShowInput} ==>
              Get(r, k) == if Get(props, k) == Undefined then Bool(true) else Get(props, k)
  {
    DefaultIfUndefined(DefaultIfUndefined(DefaultIfUndefined(props, ShowReloadButton, Bool(true)),
                                          ReloadOnInputChange, Bool(true)),
                       ShowInput, Bool(true))
  }

  /** A second creation pass changes nothing: the defaults are idempotent. */
  lemma CreatedPropertiesIdempotent(props: map<string, Value>)
    ensures CreatedProperties(CreatedProperties(props)) == CreatedProperties(props)
  {
    var r := CreatedProperties(props);
    assert Get(r, ShowReloadButton) != Undefined && Get(r, ReloadOnInputChange) != Undefined && Get(r, ShowInput) != Undefined;
  }

  /** The node table after the input is shown (`show`) or hidden. */
  function VisibilityNodes(nodes: map<int, Node>, id: int, show: bool): map<int, Node>
    requires id in nodes
  {
    var ins := nodes[id].inputs;
    if show then
      if |ins| == 0 then nodes[id := nodes[id].(inputs := ins + [AnyInput])] else nodes
    else if |ins| > 0 then InputRemoved(nodes, id, 0, Held(ins[0]))
    else nodes
  }

  /** The link table after the input is shown or hidden: hiding releases the link the input held. */
  function VisibilityLinks(nodes: map<int, Node>, links: map<int, Link>, id: int, show: bool): map<int, Link>
    requires id in nodes
  {
    var ins := nodes[id].inputs;
    if !show && |ins| > 0 then links - Held(ins[0]) else links
  }

  /**
   * Showing leaves the node with at least one input, adding the wildcard input
   * only when it had none; hiding takes out the first input, if any. No node
   * appears or disappears.
   */
  lemma VisibilityFacts(nodes: map<int, Node>, id: int, show: bool)
    requires id in nodes
    ensures var r := VisibilityNodes(nodes, id, show);
            var n := |nodes[id].inputs|;
            && r.Keys == nodes.Keys
            && |r[id].inputs| == (if show then (if n == 0 then 1 else n) else (if n == 0 then 0 else n - 1))
            && (show && n == 0 ==> r[id].inputs == [AnyInput])
            && (show ==> r[id].body == nodes[id].body && r[id].outputs == nodes[id].outputs)
  {
  }

  /** Showing an input twice is showing it once. */
  lemma ShowIdempotent(nodes: map<int, Node>, id: int)
    requires id in nodes
    ensures VisibilityNodes(VisibilityNodes(nodes, id, true), id, true) == VisibilityNodes(nodes, id, true)
  {
  }

  /** Hiding the wildcard input that showing just added gives back the node table as it was. */
  lemma HideUndoesShow(nodes: map<int, Node>, id: int)
    requires id in nodes && |nodes[id].inputs| == 0
    ensures VisibilityNodes(VisibilityNodes(nodes, id, true), id, false) == nodes
  {
    var shown := VisibilityNodes(nodes, id, true);
    assert shown[id].inputs == [AnyInput];
    InputRemovedUnheld(shown, id, 0);
    assert shown[id].inputs[..0] + shown[id].inputs[1..] == [];
    assert nodes[id].(inputs := []) == nodes[id];
  }

  /** The input-visibility part of the initial setup and of the `show_input` listener. */
  method SetInputVisible(g: Graph, id: int, show: bool)
    requires g.Valid() && id in g.nodes
    modifies g
    ensures g.Valid()
    ensures g.nodes == VisibilityNodes(old(g.nodes), id, show)
    ensures g.links == VisibilityLinks(old(g.nodes), old(g.links), id, show)
    ensures g.lastNodeId == old(g.lastNodeId) && g.lastLinkId == old(g.lastLinkId) && g.dirtyMarks == old(g.dirtyMarks)
  {
    if !show {
      if |g.nodes[id].inputs| > 0 {
        g.RemoveInput(id, 0);
      }
    } else {
      if |g.nodes[id].inputs| == 0 {
        g.AddInput(id, "any", "*");
      }
    }
  }

  // ---------------------------------------------------------------------------
  // Node creation, the deferred setup and the property-change listener
  // ---------------------------------------------------------------------------

  /** The property defaults written by `onNodeCreated`. */
  method ApplyDefaults(g: Graph, id: int)
    requires g.Valid() && id in g.nodes
    modifies g
    ensures g.Valid()
    ensures g.nodes == old(g.nodes)[id := old(g.nodes[id]).(body := old(g.nodes[id].body).(properties := CreatedProperties(old(g.nodes[id].body.properties))))]
    ensures g.links == old(g.links) && g.lastNodeId == old(g.lastNodeId) && g.lastLinkId == old(g.lastLinkId)
    ensures g.dirtyMarks == old(g.dirtyMarks)
  {
    var body := g.nodes[id].body;
    var props := body.properties;
    if Get(props, ShowReloadButton) == Undefined {
      props := props[ShowReloadButton := Bool(true)];
    }
    if Get(props, ReloadOnInputChange) == Undefined {
      props := props[ReloadOnInputChange := Bool(true)];
    }
    if Get(props, ShowInput) == Undefined {
      props := props[ShowInput := Bool(true)];
    }
    g.WriteBody(id, body.(properties := props));
  }

  /** The widget list the button settings call for. */
  function ButtonShown(ws: seq<Widget>, show: bool): seq<Widget>
  {
    if show then WithButton(ws) else WithoutButton(ws)
  }

  /**
   * The setup run shortly after creation: the button is shown or hidden as
   * `show_reload_button` says (by truthiness), then the input is shown or
   * hidden as `show_input` says. The canvas is not marked dirty.
   */
  method InitialSetup(g: Graph, id: int)
    requires g.Valid() && id in g.nodes
    modifies g
    ensures g.Valid()
    ensures var props := old(g.nodes[id].body.properties);
            var withButton := old(g.nodes)[id := old(g.nodes[id]).(body := old(g.nodes[id].body).(widgets :=
                                ButtonShown(old(g.nodes[id].body.widgets), Truthy(Get(props, ShowReloadButton)))))];
            && g.nodes == VisibilityNodes(withButton, id, Truthy(Get(props, ShowInput)))
            && g.links == VisibilityLinks(withButton, old(g.links), id, Truthy(Get(props, ShowInput)))
    ensures g.lastNodeId == old(g.lastNodeId) && g.lastLinkId == old(g.lastLinkId) && g.dirtyMarks == old(g.dirtyMarks)
  {
    var props := g.nodes[id].body.properties;
    if Truthy(Get(props, ShowReloadButton)) {
      AddReloadButton(g, id);
    } else {
      RemoveReloadButton(g, id);
    }
    SetInputVisible(g, id, Truthy(Get(props, ShowInput)));
  }

  /**
   * A freshly created node with the defaults in place shows the button
   * (exactly once, when it had at most one) and keeps the inputs it has, or
   * gains exactly the wildcard input when it had none.
   */
  lemma FreshSetup(n: Node, nodes: map<int, Node>, id: int)
    requires id in nodes && nodes[id] == n
    requires CountNamed(n.body.widgets, ButtonName) <= 1
    ensures var props := CreatedProperties(n.body.properties);
            var ws := ButtonShown(n.body.widgets, Truthy(Get(props, ShowReloadButton)));
            var r := VisibilityNodes(nodes[id := n.(body := n.body.(widgets := ws))], id, Truthy(Get(props, ShowInput)));
            Get(n.body.properties, ShowReloadButton) == Undefined ==> CountNamed(r[id].body.widgets, ButtonName) == 1
    ensures var props := CreatedProperties(n.body.properties);
            var ws := ButtonShown(n.body.widgets, Truthy(Get(props, ShowReloadButton)));
            var r := VisibilityNodes(nodes[id := n.(body := n.body.(widgets := ws))], id, Truthy(Get(props, ShowInput)));
            Get(n.body.properties, ShowInput) == Undefined ==>
              r[id].inputs == if |n.inputs| == 0 then [AnyInput] else n.inputs
  {
    var props := CreatedProperties(n.body.properties);
    var ws := ButtonShown(n.body.widgets, Truthy(Get(props, ShowReloadButton)));
    AtMostOneButton(n.body.widgets);
    VisibilityFacts(nodes[id := n.(body := n.body.(widgets := ws))], id, Truthy(Get(props, ShowInput)));
  }

  /**
   * `node.onPropertyChanged(name, value)`: `show_reload_button` adds the
   * button when `value` is exactly `true` and removes it otherwise (no
   * redraw); `show_input` shows the input when `value` is exactly `true`,
   * hides it otherwise, and marks the canvas dirty; other names do nothing.
   */
  method OnPropertyChanged(g: Graph, id: int, name: string, value: Value)
    requires g.Valid() && id in g.nodes
    modifies g
    ensures g.Valid()
    ensures name == ShowReloadButton ==>
              g.nodes == old(g.nodes)[id := old(g.nodes[id]).(body := old(g.nodes[id].body).(widgets :=
                           ButtonShown(old(g.nodes[id].body.widgets), value == Bool(true))))]
              && g.links == old(g.links) && g.dirtyMarks == old(g.dirtyMarks)
    ensures name == ShowInput ==>
              g.nodes == VisibilityNodes(old(g.nodes), id, value == Bool(true))
              && g.links == VisibilityLinks(old(g.nodes), old(g.links), id, value == Bool(true))
              && g.dirtyMarks == old(g.dirtyMarks) + 1
    ensures name != ShowReloadButton && name != ShowInput ==>
              g.nodes == old(g.nodes) && g.links == old(g.links) && g.dirtyMarks == old(g.dirtyMarks)
    ensures g.lastNodeId == old(g.lastNodeId) && g.lastLinkId == old(g.lastLinkId)
  {
    if name == ShowReloadButton {
      if value == Bool(true) {
        AddReloadButton(g, id);
      } else {
        RemoveReloadButton(g, id);
      }
    }
    if name == ShowInput {
      SetInputVisible(g, id, value == Bool(true));
      g.MarkDirty();
    }
  }

  /**
   * One of the three settings-menu entries: `key`'s setting is negated and
   * the listener is called with the new value, so the button or the input is
   * shown exactly when its setting became true.
   */
  method ToggleSetting(g: Graph, id: int, key: string)
    requires g.Valid() && id in g.nodes
    requires key == ShowReloadButton || key == ReloadOnInputChange || key == ShowInput
    modifies g
    ensures g.Valid()
    ensures var before := old(g.nodes[id]);
            var on := !Truthy(Get(before.body.properties, key));
            var toggled := old(g.nodes)[id := before.(body := before.body.(properties := Toggled(before.body.properties, key)))];
            && (key == ShowReloadButton ==>
                  g.nodes == toggled[id := toggled[id].(body := toggled[id].body.(widgets := ButtonShown(before.body.widgets, on)))]
                  && g.links == old(g.links) && g.dirtyMarks == old(g.dirtyMarks))
            && (key == ShowInput ==>
                  g.nodes == VisibilityNodes(toggled, id, on)
                  && g.links == VisibilityLinks(toggled, old(g.links), id, on)
                  && g.dirtyMarks == old(g.dirtyMarks) + 1)
            && (key == ReloadOnInputChange ==>
                  g.nodes == toggled && g.links == old(g.links) && g.dirtyMarks == old(g.dirtyMarks))
    ensures g.lastNodeId == old(g.lastNodeId) && g.lastLinkId == old(g.lastLinkId)
  {
    var body := g.nodes[id].body;
    var props := Toggled(body.properties, key);
    g.WriteBody(id, body.(properties := props));
    OnPropertyChanged(g, id, key, Get(props, key));
  }

  // ---------------------------------------------------------------------------
  // Connection changes and backend events
  // ---------------------------------------------------------------------------

  /**
   * The label output 0 takes after a change on the node's slots: on the
   * connection of input 0 (kind 1, index 0), the type of the origin's output
   * when the link and its origin slot can be found; on its disconnection, the
   * wildcard; on anything else, no change (`None`).
   */
  function OutputRelabel(nodes: map<int, Node>, links: map<int, Link>, kind: int, index: int,
                         connected: bool, linkInfo: Option<int>): (r: Option<SlotSpec>)
    ensures kind != 1 || index != 0 ==> r.None?
    ensures kind == 1 && index == 0 && !connected ==> r == Some(AnyOutput)
    ensures r.Some? && connected ==>
              r.value.name == r.value.slotType && linkInfo.Some? && linkInfo.value in links &&
              var link := links[linkInfo.value];
              link.originId in nodes && 0 <= link.originSlot < |nodes[link.originId].outputs| &&
              r.value.slotType == nodes[link.originId].outputs[link.originSlot].slotType
  {
    if kind != 1 || index != 0 then None
    else if !connected then Some(AnyOutput)
    else if linkInfo.None? || linkInfo.value !in links then None
    else
      var link := links[linkInfo.value];
      if link.originId in nodes && 0 <= link.originSlot < |nodes[link.originId].outputs| then
        var originType := nodes[link.originId].outputs[link.originSlot].slotType;
        Some(SlotSpec(originType, originType))
      else None
  }

  /** A connection whose link is on record retypes the output; a disconnection always restores the wildcard. */
  lemma RelabelOnConnect(nodes: map<int, Node>, links: map<int, Link>, lid: int)
    requires lid in links && links[lid].originId in nodes
    requires 0 <= links[lid].originSlot < |nodes[links[lid].originId].outputs|
    ensures var t := nodes[links[lid].originId].outputs[links[lid].originSlot].slotType;
            OutputRelabel(nodes, links, 1, 0, true, Some(lid)) == Some(SlotSpec(t, t))
    ensures forall info :: OutputRelabel(nodes, links, 1, 0, false, info) == Some(AnyOutput)
  {
  }

  /** Whether a connection change asks for the deferred refresh of the downstream node. */
  predicate ReloadScheduled(props: map<string, Value>, kind: int, index: int, connected: bool)
  {
    kind == 1 && connected && index == 0 && Truthy(Get(props, ReloadOnInputChange))
  }

  /**
   * `node.onConnectionsChange(type, index, connected, link_info)`: output 0
   * is relabelled as `OutputRelabel` says, and the result says whether a
   * refresh of the downstream node is scheduled (the host runs it later).
   */
  method OnConnectionsChange(g: Graph, id: int, kind: int, index: int, connected: bool, linkInfo: Option<int>)
    returns (scheduleReload: bool)
    requires g.Valid() && id in g.nodes && |g.nodes[id].outputs| >= 1
    modifies g
    ensures g.Valid()
    ensures var relabel := OutputRelabel(old(g.nodes), old(g.links), kind, index, connected, linkInfo);
            var n := old(g.nodes[id]);
            g.nodes == if relabel.None? then old(g.nodes)
                       else old(g.nodes)[id := n.(outputs := n.outputs[0 := n.outputs[0].(name := relabel.value.name,
                                                                                          slotType := relabel.value.slotType)])]
    ensures g.links == old(g.links) && g.lastNodeId == old(g.lastNodeId) && g.lastLinkId == old(g.lastLinkId)
    ensures g.dirtyMarks == old(g.dirtyMarks)
    ensures scheduleReload <==> ReloadScheduled(old(g.nodes[id].body.properties), kind, index, connected)
  {
    if kind == 1 && index == 0 {
      if connected {
        if linkInfo.Some? && linkInfo.value in g.links {
          var link := g.links[linkInfo.value];
          if link.originId in g.nodes && 0 <= link.originSlot < |g.nodes[link.originId].outputs| {
            var originType := g.nodes[link.originId].outputs[link.originSlot].slotType;
            g.WriteOutputLabel(id, 0, originType, originType);
          }
        }
      } else {
        g.WriteOutputLabel(id, 0, "any", "*");
      }
    }
    scheduleReload := kind == 1 && connected && index == 0 && Truthy(Get(g.nodes[id].body.properties, ReloadOnInputChange));
  }

  const NodeIdKey: string := "node_id"

  /**
   * The filter on `goddesslabs.reload_node` events: the node reacts when its
   * `reload_on_input_change` setting is truthy and the event's `node_id`
   * equals its own id as a string.
   */
  predicate ReloadEventMatches(props: map<string, Value>, detail: Option<map<string, Value>>, nodeId: int)
  {
    Truthy(Get(props, ReloadOnInputChange)) && detail.Some? && Get(detail.value, NodeIdKey) == Str(IntToString(nodeId))
  }

  /** An event names at most one node: two distinct ids never both match it. */
  lemma ReloadEventExclusive(p: map<string, Value>, q: map<string, Value>, detail: Option<map<string, Value>>, a: int, b: int)
    requires ReloadEventMatches(p, detail, a) && ReloadEventMatches(q, detail, b)
    ensures a == b
  {
    IntToStringInjective(a, b);
  }

  /** An event that carries the node's id as a string reaches it exactly when its setting is truthy. */
  lemma ReloadEventForNode(props: map<string, Value>, nodeId: int)
    ensures ReloadEventMatches(props, Some(map[NodeIdKey := Str(IntToString(nodeId))]), nodeId) <==>
            Truthy(Get(props, ReloadOnInputChange))
    ensures !ReloadEventMatches(props, None, nodeId)
  {
  }

  /** The event listener: refreshes the downstream nodes when the event is for this node, else does nothing. */
  method OnReloadEvent(g: Graph, id: int, detail: Option<map<string, Value>>) returns (reloaded: nat, ghost replaced: seq<int>)
    requires g.Valid() && id in g.nodes
    modifies g
    ensures g.Valid()
    ensures !ReloadEventMatches(old(g.nodes[id].body.properties), detail, id) ==>
              reloaded == 0 && replaced == [] && g.nodes == old(g.nodes) && g.links == old(g.links) &&
              g.dirtyMarks == old(g.dirtyMarks)
    ensures reloaded == |replaced| <= |Snapshot(old(g.nodes[id]))|
    ensures Progress(g.registry, old(g.nodes), old(g.links), old(g.lastNodeId), old(g.lastLinkId),
                     g.nodes, g.links, g.lastNodeId, g.lastLinkId, replaced)
    ensures ReloadEventMatches(old(g.nodes[id].body.properties), detail, id) ==>
              Covered(Snapshot(old(g.nodes[id])), old(g.links), |Snapshot(old(g.nodes[id]))|, replaced) &&
              replaced == Recreations(Snapshot(old(g.nodes[id])), old(g.links), |Snapshot(old(g.nodes[id]))|)
    ensures WellLinked(old(g.nodes), old(g.links)) ==>
              WellLinked(g.nodes, g.links) && Reattached(old(g.links), old(g.lastNodeId), replaced, g.nodes, g.links)
    ensures |Snapshot(old(g.nodes[id]))| == 0 ==> reloaded == 0 && g.nodes == old(g.nodes) && g.links == old(g.links)
    ensures g.dirtyMarks == old(g.dirtyMarks) + (if reloaded > 0 then 1 else 0)
  {
    reloaded, replaced := 0, [];
    if ReloadEventMatches(g.nodes[id].body.properties, detail, id) {
      reloaded, replaced := ReloadConnectedNode(g, id);
    } else {
      ReattachedStart(g.links, g.lastNodeId, g.nodes);
      assert FramesKept(g.nodes, g.nodes) by {
        forall n | n in g.nodes && n in g.nodes ensures SameFrame(g.nodes, g.nodes, n) { }
      }
    }
  }
}

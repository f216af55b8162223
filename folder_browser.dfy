/**
 * The folder-browser node's editor extension: its configuration defaults,
 * the property-change listener for the reload button, the settings-menu
 * toggles and append-option entries, and the hooked widget callbacks that
 * refresh the downstream nodes when auto-reload is on.
 */
module FolderBrowser {
  import opened JsValues
  import opened Widgets
  import opened HostGraph
  import opened HostLinks
  import opened Reload
  import opened ReloadButton

  const ShowReloadButton: string := "show_reload_button"
  const AutoReload: string := "auto_reload_on_change"

  /** The outcome of fetching `/goddesslabs/config`: the parsed JSON object, or a failure. */
  datatype ConfigResponse = Fetched(config: map<string, Value>) | FetchFailed

  /** `config.key === "true"`. */
  function ConfigFlag(config: map<string, Value>, key: string): (v: Value)
    ensures v == Bool(true) <==> Get(config, key) == Str("true")
    ensures v.Bool?
  {
    Bool(Get(config, key) == Str("true"))
  }

  /** The property bag after the configuration defaults are applied. */
  function ConfiguredProperties(props: map<string, Value>, response: ConfigResponse): map<string, Value>
  {
    match response
    case Fetched(config) =>
      DefaultIfUndefined(DefaultIfUndefined(props, ShowReloadButton, ConfigFlag(config, ShowReloadButton)),
                         AutoReload, ConfigFlag(config, AutoReload))
    case FetchFailed =>
      DefaultIfUndefined(DefaultIfUndefined(props, ShowReloadButton, Bool(true)), AutoReload, Bool(false))
  }

  /**
   * On both paths the two settings are defined afterwards, a setting that was
   * already defined keeps its value, and no other property changes.
   */
  lemma ConfiguredPropertiesFacts(props: map<string, Value>, response: ConfigResponse)
    ensures var r := ConfiguredProperties(props, response);
            && (forall k :: k != ShowReloadButton && k != AutoReload ==> Get(r, k) == Get(props, k))
            && (Get(props, ShowReloadButton) != Undefined ==> Get(r, ShowReloadButton) == Get(props, ShowReloadButton))
            && (Get(props, AutoReload) != Undefined ==> Get(r, AutoReload) == Get(props, AutoReload))
            && Get(r, ShowReloadButton) != Undefined && Get(r, AutoReload) != Undefined
    ensures response.FetchFailed? && Get(props, ShowReloadButton) == Undefined ==>
              Get(ConfiguredProperties(props, response), ShowReloadButton) == Bool(true)
    ensures response.FetchFailed? && Get(props, AutoReload) == Undefined ==>
              Get(ConfiguredProperties(props, response), AutoReload) == Bool(false)
    ensures response.Fetched? && Get(props, ShowReloadButton) == Undefined ==>
              Get(ConfiguredProperties(props, response), ShowReloadButton) == ConfigFlag(response.config, ShowReloadButton)
    ensures response.Fetched? && Get(props, AutoReload) == Undefined ==>
              Get(ConfiguredProperties(props, response), AutoReload) == ConfigFlag(response.config, AutoReload)
  {
  }

  /** Applying the configuration twice gives what applying it once gives. */
  lemma ConfiguredPropertiesIdempotent(props: map<string, Value>, response: ConfigResponse, again: ConfigResponse)
    ensures ConfiguredProperties(ConfiguredProperties(props, response), again) == ConfiguredProperties(props, response)
  {
    ConfiguredPropertiesFacts(props, response);
  }

  /** Writes `props` into node `id`'s property bag and nothing else. */
  method SetProperties(g: Graph, id: int, props: map<string, Value>)
    requires g.Valid() && id in g.nodes
    modifies g
    ensures g.Valid()
    ensures g.nodes == old(g.nodes)[id := old(g.nodes[id]).(body := old(g.nodes[id].body).(properties := props))]
    ensures g.links == old(g.links) && g.lastNodeId == old(g.lastNodeId) && g.lastLinkId == old(g.lastLinkId)
    ensures g.dirtyMarks == old(g.dirtyMarks)
  {
    g.WriteBody(id, g.nodes[id].body.(properties := props));
  }

  /**
   * The handlers of the configuration fetch: on success the defaults taken
   * from the configuration, then the reload button shown or hidden as the
   * (possibly pre-existing) setting says; on failure the fixed fallback
   * defaults and no change to the widgets.
   */
  method ApplyConfig(g: Graph, id: int, response: ConfigResponse)
    requires g.Valid() && id in g.nodes
    modifies g
    ensures g.Valid()
    ensures var props := ConfiguredProperties(old(g.nodes[id].body.properties), response);
            var ws := old(g.nodes[id].body.widgets);
            var ws' := if response.FetchFailed? then ws
                       else if Truthy(Get(props, ShowReloadButton)) then WithButton(ws)
                       else WithoutButton(ws);
            g.nodes == old(g.nodes)[id := old(g.nodes[id]).(body := old(g.nodes[id].body).(properties := props, widgets := ws'))]
    ensures g.links == old(g.links) && g.lastNodeId == old(g.lastNodeId) && g.lastLinkId == old(g.lastLinkId)
    ensures g.dirtyMarks == old(g.dirtyMarks)
  {
    var props := g.nodes[id].body.properties;
    match response {
      case Fetched(config) =>
        props := DefaultIfUndefined(props, ShowReloadButton, ConfigFlag(config, ShowReloadButton));
        props := DefaultIfUndefined(props, AutoReload, ConfigFlag(config, AutoReload));
        SetProperties(g, id, props);
        if Truthy(Get(props, ShowReloadButton)) {
          AddReloadButton(g, id);
        } else {
          RemoveReloadButton(g, id);
        }
      case FetchFailed =>
        props := DefaultIfUndefined(props, ShowReloadButton, Bool(true));
        props := DefaultIfUndefined(props, AutoReload, Bool(false));
        SetProperties(g, id, props);
    }
  }

  /**
   * `node.onPropertyChanged(name, value)`: for `show_reload_button`, the
   * button is added when `value` is exactly `true` and removed otherwise,
   * and the canvas is marked dirty; any other name changes nothing.
   */
  method OnPropertyChanged(g: Graph, id: int, name: string, value: Value)
    requires g.Valid() && id in g.nodes
    modifies g
    ensures g.Valid()
    ensures var ws := old(g.nodes[id].body.widgets);
            var ws' := if name != ShowReloadButton then ws else if value == Bool(true) then WithButton(ws) else WithoutButton(ws);
            g.nodes == old(g.nodes)[id := old(g.nodes[id]).(body := old(g.nodes[id].body).(widgets := ws'))]
    ensures g.links == old(g.links) && g.lastNodeId == old(g.lastNodeId) && g.lastLinkId == old(g.lastLinkId)
    ensures g.dirtyMarks == old(g.dirtyMarks) + (if name == ShowReloadButton then 1 else 0)
  {
    if name == ShowReloadButton {
      if value == Bool(true) {
        AddReloadButton(g, id);
      } else {
        RemoveReloadButton(g, id);
      }
      g.MarkDirty();
    }
  }

  /**
   * The "Show Reload Button" menu entry: the setting is negated and the
   * property-change listener is called with the new value, so the button
   * appears exactly when the setting became true.
   */
  method ToggleShowReloadButton(g: Graph, id: int)
    requires g.Valid() && id in g.nodes
    modifies g
    ensures g.Valid()
    ensures var props := Toggled(old(g.nodes[id].body.properties), ShowReloadButton);
            var ws := old(g.nodes[id].body.widgets);
            var ws' := if Truthy(Get(old(g.nodes[id].body.properties), ShowReloadButton)) then WithoutButton(ws) else WithButton(ws);
            g.nodes == old(g.nodes)[id := old(g.nodes[id]).(body := old(g.nodes[id].body).(properties := props, widgets := ws'))]
    ensures g.links == old(g.links) && g.lastNodeId == old(g.lastNodeId) && g.lastLinkId == old(g.lastLinkId)
    ensures g.dirtyMarks == old(g.dirtyMarks) + 1
  {
    var props := Toggled(g.nodes[id].body.properties, ShowReloadButton);
    SetProperties(g, id, props);
    OnPropertyChanged(g, id, ShowReloadButton, Get(props, ShowReloadButton));
  }

  /** The "Auto-Reload on Change" menu entry: the setting is negated; the listener ignores this name. */
  method ToggleAutoReload(g: Graph, id: int)
    requires g.Valid() && id in g.nodes
    modifies g
    ensures g.Valid()
    ensures g.nodes == old(g.nodes)[id := old(g.nodes[id]).(body := old(g.nodes[id].body).(properties := Toggled(old(g.nodes[id].body.properties), AutoReload)))]
    ensures g.links == old(g.links) && g.lastNodeId == old(g.lastNodeId) && g.lastLinkId == old(g.lastLinkId)
    ensures g.dirtyMarks == old(g.dirtyMarks)
  {
    var props := Toggled(g.nodes[id].body.properties, AutoReload);
    SetProperties(g, id, props);
    OnPropertyChanged(g, id, AutoReload, Get(props, AutoReload));
  }

  /**
   * The hook installed on the `path` and `append` widgets' callbacks: when
   * `auto_reload_on_change` is truthy the downstream nodes are refreshed;
   * otherwise nothing happens.
   */
  method OnWidgetChanged(g: Graph, id: int) returns (reloaded: nat, ghost replaced: seq<int>)
    requires g.Valid() && id in g.nodes
    modifies g
    ensures g.Valid()
    ensures !Truthy(Get(old(g.nodes[id].body.properties), AutoReload)) ==>
              reloaded == 0 && replaced == [] && g.nodes == old(g.nodes) && g.links == old(g.links) &&
              g.dirtyMarks == old(g.dirtyMarks)
    ensures reloaded == |replaced| <= |Snapshot(old(g.nodes[id]))|
    ensures Progress(g.registry, old(g.nodes), old(g.links), old(g.lastNodeId), old(g.lastLinkId),
                     g.nodes, g.links, g.lastNodeId, g.lastLinkId, replaced)
    ensures Truthy(Get(old(g.nodes[id].body.properties), AutoReload)) ==>
              Covered(Snapshot(old(g.nodes[id])), old(g.links), |Snapshot(old(g.nodes[id]))|, replaced) &&
              replaced == Recreations(Snapshot(old(g.nodes[id])), old(g.links), |Snapshot(old(g.nodes[id]))|)
    ensures WellLinked(old(g.nodes), old(g.links)) ==>
              WellLinked(g.nodes, g.links) && Reattached(old(g.links), old(g.lastNodeId), replaced, g.nodes, g.links)
    ensures |Snapshot(old(g.nodes[id]))| == 0 ==> reloaded == 0 && g.nodes == old(g.nodes) && g.links == old(g.links)
    ensures g.dirtyMarks == old(g.dirtyMarks) + (if reloaded > 0 then 1 else 0)
  {
    reloaded, replaced := 0, [];
    if Truthy(Get(g.nodes[id].body.properties, AutoReload)) {
      reloaded, replaced := ReloadConnectedNode(g, id);
    } else {
      ReattachedStart(g.links, g.lastNodeId, g.nodes);
      assert FramesKept(g.nodes, g.nodes) by {
        forall n | n in g.nodes && n in g.nodes ensures SameFrame(g.nodes, g.nodes, n) { }
      }
    }
  }

  const AppendWidget: string := "append"

  /** The node table once the `append` widget (index `k`) of node `id` holds `option`. */
  function WithAppendValue(nodes: map<int, Node>, id: int, k: int, option: string): map<int, Node>
    requires id in nodes && 0 <= k < |nodes[id].body.widgets|
  {
    var n := nodes[id];
    nodes[id := n.(body := n.body.(widgets := n.body.widgets[k := n.body.widgets[k].(value := Str(option))]))]
  }

  /**
   * A choice in the "Append Extension" submenu: the `append` widget, if the
   * node has one, takes the option as its value, its (hooked) callback runs
   * if it has one, and the canvas is marked dirty; without an `append`
   * widget nothing happens. The refresh, when the hook runs one, starts
   * from the graph with the option written.
   */
  method SelectAppendOption(g: Graph, id: int, option: string)
    returns (reloaded: nat, ghost replaced: seq<int>)
    requires g.Valid() && id in g.nodes
    modifies g
    ensures g.Valid()
    ensures var k := FindName(old(g.nodes[id].body.widgets), AppendWidget);
            k < 0 ==> reloaded == 0 && g.nodes == old(g.nodes) && g.links == old(g.links) && g.dirtyMarks == old(g.dirtyMarks)
    ensures var ws := old(g.nodes[id].body.widgets);
            var k := FindName(ws, AppendWidget);
            0 <= k && id in g.nodes ==> g.nodes[id].body.widgets == ws[k := ws[k].(value := Str(option))]
    ensures var k := FindName(old(g.nodes[id].body.widgets), AppendWidget);
            0 <= k ==> g.dirtyMarks == old(g.dirtyMarks) + 1 + (if reloaded > 0 then 1 else 0)
    ensures reloaded == |replaced| <= |Snapshot(old(g.nodes[id]))|
    ensures var n := old(g.nodes[id]);
            var k := FindName(n.body.widgets, AppendWidget);
            0 <= k && !(n.body.widgets[k].hasCallback && Truthy(Get(n.body.properties, AutoReload))) ==>
              reloaded == 0 && replaced == [] && g.nodes == WithAppendValue(old(g.nodes), id, k, option) &&
              g.links == old(g.links)
    ensures var k := FindName(old(g.nodes[id].body.widgets), AppendWidget);
            0 <= k ==>
              Progress(g.registry, WithAppendValue(old(g.nodes), id, k, option), old(g.links), old(g.lastNodeId),
                       old(g.lastLinkId), g.nodes, g.links, g.lastNodeId, g.lastLinkId, replaced)
    ensures var n := old(g.nodes[id]);
            var k := FindName(n.body.widgets, AppendWidget);
            0 <= k && n.body.widgets[k].hasCallback && Truthy(Get(n.body.properties, AutoReload)) ==>
              Covered(Snapshot(n), old(g.links), |Snapshot(n)|, replaced) &&
              replaced == Recreations(Snapshot(n), old(g.links), |Snapshot(n)|)
    ensures var k := FindName(old(g.nodes[id].body.widgets), AppendWidget);
            0 <= k && reloaded > 0 ==> old(g.nodes[id].body.widgets[k].hasCallback) &&
                                       Truthy(Get(old(g.nodes[id].body.properties), AutoReload))
    ensures WellLinked(old(g.nodes), old(g.links)) ==>
              WellLinked(g.nodes, g.links) && Reattached(old(g.links), old(g.lastNodeId), replaced, g.nodes, g.links)
  {
    reloaded, replaced := 0, [];
    var body := g.nodes[id].body;
    var k := FindName(body.widgets, AppendWidget);
    if k >= 0 {
      var ws := body.widgets[k := body.widgets[k].(value := Str(option))];
      ghost var n0 := g.nodes;
      g.WriteBody(id, body.(widgets := ws));
      assert g.nodes == WithAppendValue(n0, id, k, option);
      if WellLinked(n0, g.links) {
        LinkedSameSlots(n0, g.links, {}, g.nodes);
      }
      if ws[k].hasCallback {
        ghost var n1 := g.nodes;
        reloaded, replaced := OnWidgetChanged(g, id);
        if id in g.nodes {
          assert SameFrame(n1, g.nodes, id);
        }
      } else {
        ProgressStart(g.registry, g.nodes, g.links, g.lastNodeId, g.lastLinkId);
        ReattachedStart(g.links, g.lastNodeId, g.nodes);
      }
      g.MarkDirty();
    } else {
      ReattachedStart(g.links, g.lastNodeId, g.nodes);
    }
  }
}

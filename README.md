# GoddessLabs node pack: a Dafny model of the editor extensions

The GoddessLabs node pack for ComfyUI ships several editor extensions, and this project models them in Dafny:

- **Node refresh.** The folder-browser and destroy-and-recreate nodes can refresh the nodes downstream of them ("Reload Connected Node"). Each downstream node is destroyed and rebuilt with its settings. When the graph's slots and links agree, as the host keeps them, every connection between two different nodes whose slots still exist on the replacements is re-made. This breaks the backend's cache.
- **Settings.** Both nodes have a reload button and settings toggles. They also have property-change and connection-change listeners.
- **Saving and loading.** The save-state and node-state-manager nodes save the widget values of the node they feed and load them back.
- **Backend half.** The destroy-and-recreate node has a backend pass-through. It detects a changed input and asks the editor to refresh.

## Structure

| file | contents |
|---|---|
| `js_values.dfy` | JavaScript primitive values, truthiness, property defaults and toggles, decimal rendering of ids |
| `widgets.dfy` | widget lists and the by-name lookups the extensions perform on them |
| `host_graph.dfy` | the host editor's graph (`Graph`): nodes and links by id, plus the host calls the extensions make |
| `host_links.dfy` | agreement between the nodes' slots and the link table (`WellLinked`), and how connecting and removing keep it |
| `reload.dfy` | `reloadConnectedNode`: the destroy-and-recreate refresh of every downstream node |
| `reload_button.dfy` | `addReloadButton` / `removeReloadButton` |
| `folder_browser.dfy` | the folder-browser extension's configuration, listener, toggles and hooked callbacks |
| `destroy_and_recreate.dfy` | the destroy-and-recreate extension: defaults, setup, listeners, toggles, event filter |
| `downstream.dfy` | the first-link target lookup shared by the two state nodes |
| `save_state.dfy` | the save-state node: slots, save, load, slot clicks, the settings menu |
| `node_state_manager.dfy` | the node-state-manager: save, load, the bar's hit test |
| `passthrough.dfy` | the backend pass-through and its change detection |

### How the editor is represented

`HostGraph.Graph` is a class that holds the editor's state:

- `nodes`, a map from id to node;
- `links`, a map from id to link;
- the last ids handed out;
- a counter of canvas redraw requests.

`Graph.Valid` is the consistency the host keeps:

- every link's two end nodes exist;
- every link id a slot refers to exists;
- no input's `link` is `undefined`.

### How handlers are modelled

- **Handlers.** Each handler is a method over `(g, id)` that modifies `g`, just as the extensions' functions take `node`. It is proved against a function of the old state. Lemmas then prove the properties of those functions.
- **State nodes.** The two state nodes keep their structured properties in small classes: `SaveState.SaveStateNode` and `NodeStateManager.StateManagerNode`. Those properties are `saved_states`, `slot_count` and `saved_state`.
- **Refresh result.** The refresh (`Reload.ReloadConnectedNode`) returns how many nodes it recreated and, as a ghost value, which ones. `Reload.Progress` describes the nodes and links afterwards:
  - every recreated node is gone;
  - each replacement is numbered in order, has the same type and carries the old body over;
  - every other node keeps its body and slot counts;
  - links touching a recreated node are gone, and every other link is kept;
  - new links are numbered above the old ones.
- **Order.** `Reload.Recreations` names the recreated nodes in the order the pass recreates them. The snapshot links are taken in order. A link's target is recreated when the link was in the table at the start and neither of its ends has been recreated yet. Otherwise the link is passed over.
- **Agreement.** `HostLinks.WellLinked` says the slots and the link table agree. Every link is held by its target input and listed once in its origin output. Every listed id is a link of that output. The refresh keeps this agreement.
- **Re-attachment.** `Reload.Reattached` holds after the refresh when agreement held before it. Take any link of the graph before the refresh that is not a self-link, and rename each recreated end to its replacement. If both renamed slots exist, the graph afterwards has that link.
- **Coverage.** `Reload.Covered` is about the snapshot links that were in the link table when the refresh started. It states that each of them has a recreated end.

## Model

| member | source | states |
|---|---|---|
| JsValues.DefaultIfUndefined | js/folder_browser.js:167-172 | A property that is `undefined` takes the default. A defined property is untouched. Every other key is untouched. |
| JsValues.DefaultIfUndefinedIdempotent | js/destroy_and_recreate.js:137-139 | Applying a defined default twice is the same as applying it once. |
| JsValues.Toggled | js/folder_browser.js:367 | The toggled entry becomes the boolean negation of its truthiness. Every other entry is unchanged. |
| JsValues.ToggledTwice | js/folder_browser.js:366-376 | Toggling twice restores the truthiness, and restores a boolean setting exactly. |
| JsValues.IntToString | js/destroy_and_recreate.js:291 | `id.toString()`: a non-empty text that starts with `-` exactly for negative ids. |
| JsValues.IntToStringInjective | js/destroy_and_recreate.js:291 | Different ids render to different strings. |
| Widgets.FindName | js/folder_browser.js:81 | `find` by name: the first widget bearing the name, or none when no widget bears it. |
| Widgets.CountNamed | js/folder_browser.js:128 | The number of widgets with a name is zero exactly when the lookup finds none. |
| Widgets.CopyWidgetValues | js/folder_browser.js:78-86 | The copy loop gives `CopiedByName`: widget by widget, the first same-named widget of the new node takes the value. |
| Widgets.CopiedByNameFacts | js/folder_browser.js:78-86 | After the copy, the first new widget with a name holds the value of the LAST old widget with that name. Every other widget is unchanged. |
| Widgets.CollectWidgetValues | js/save_state.js:117-121 | The snapshot loop gives `WidgetValues`. Its keys are exactly the widget names. |
| Widgets.WidgetValuesMeaning | js/save_state.js:117-121 | Each name maps to the value of the last widget bearing it. |
| Widgets.UniqueWidgetValue | js/node_state_manager.js:177-181 | With unique names, each widget's entry is its own value. |
| HostGraph.Graph.CreateNode | js/folder_browser.js:64 | `createNode(type)`: a node of that type with no connected slot. |
| HostGraph.Graph.Add | js/folder_browser.js:75 | `graph.add`: the node is filed under the next id, and nothing else changes. |
| HostGraph.Graph.Connect | js/folder_browser.js:95 | `connect`: when both slots exist, a new link is recorded under the next link id and referenced from both slots. Otherwise nothing changes. No other link changes, and consistency is kept. |
| HostGraph.Graph.Remove | js/folder_browser.js:116 | `graph.remove`: the node goes, and so does every link touching it. The other nodes' slots stop referring to those links. Every other link and node body stays. |
| HostGraph.Graph.AddInput | js/destroy_and_recreate.js:157 | `addInput`: appends an unconnected input. |
| HostGraph.Graph.RemoveInput | js/destroy_and_recreate.js:153 | `removeInput`: the link the input held is released and the slot is removed. |
| HostGraph.Graph.WriteOutputLabel | js/destroy_and_recreate.js:270-271 | Output `k`'s name and type are written, and its links are untouched. |
| HostGraph.Graph.MarkDirty | js/folder_browser.js:120-122 | `setDirtyCanvas`: one more redraw request, and nothing else changes. |
| HostGraph.InputRemovedUnheld | js/destroy_and_recreate.js:151-154 | Removing an input that holds no link changes only that node's input list. |
| Reload.JsonClone | js/folder_browser.js:69 | The JSON round trip drops keys that hold `undefined` and keeps every other value. |
| Reload.JsonCloneIdempotent | js/folder_browser.js:69 | A second round trip changes nothing. |
| Reload.RecreatedKeeps | js/folder_browser.js:63-86 | The replacement keeps the type, position, size and every readable property. It keeps colours and title when set. When the widget lists match with unique names, it keeps every widget value. |
| Reload.RecreatedDefaults | js/folder_browser.js:70-72 | Where a colour or the title is unset on the old node, the built node's own value stays. |
| Reload.ReconnectInputs | js/folder_browser.js:88-98 | For every old input fed from another node, the same origin output is connected to the same input of the replacement. |
| Reload.ReconnectOutput | js/folder_browser.js:104-111 | For every link of the old output (snapshotted), the replacement's output is connected to the same target input. |
| Reload.ReconnectOutputs | js/folder_browser.js:100-113 | The same for every output of the old node. |
| Reload.AddReplacement | js/folder_browser.js:63-86 | Steps 1 to 4 add one node under the next id, with body `Recreated(old body, factory body)`. Links are untouched. |
| Reload.Recreate | js/folder_browser.js:60-117 | One node is replaced: the keys become old minus the old id plus the new id, and the body is carried over. Every input and output link is re-attached, links touching the old node are gone, other links are kept, and other nodes keep their frames. |
| Reload.RecreateComposed | js/folder_browser.js:88-116 | Steps 5 to 7 compose to the outcome `Recreate` promises. |
| Reload.SkipReason | js/folder_browser.js:57-61 | A snapshot link is skipped only because an end of it was recreated earlier in the same pass. |
| Reload.CoveredAll | js/folder_browser.js:56-118 | After the pass, every snapshot link that was in the link table at the start has a recreated end. |
| Reload.RecreationsFacts | js/folder_browser.js:56-118 | The pass recreates no node twice, at most one node per snapshot link, and only targets of snapshot links that were in the link table at the start. |
| Reload.RecreationsCovered | js/folder_browser.js:56-118 | After any number of snapshot links, each of them that was in the link table at the start has an end among the nodes recreated so far. |
| Reload.RecreationsExamples | js/folder_browser.js:56-118 | Links to nodes 2 and 3 recreate 2 and then 3. When the second link leads back into the source node 1, the pass recreates 2 and then the source itself. |
| Reload.ReloadConnectedNode | js/folder_browser.js:45-123 | When output 0 has no link, nothing changes: no node, no link, no redraw. Otherwise the recreated nodes are exactly `Recreations` of the snapshot, in that order, and they are targets of snapshot links (`Progress`, `Covered`). When slots and links agree before the pass, they agree after it. Every old link between two different nodes is re-attached to the replacements of its ends whenever both renamed slots exist (`Reattached`). The canvas is marked dirty once exactly when at least one node was recreated. The destroy-and-recreate extension carries an identical copy (js/destroy_and_recreate.js:11-89). |
| Reload.ReattachedStep | js/folder_browser.js:88-116 | Recreating one more node keeps every old link re-attached. The recreated end is now named by the new replacement, and every other end keeps its name. |
| Reload.ImageShift | js/folder_browser.js:63-75 | The node recreated next is renamed to the next node id. Every other node keeps the name it had. |
| HostLinks.LinkedAttach | js/folder_browser.js:95 | Connecting into an input that holds no link keeps slots and links in agreement. |
| HostLinks.LinkedDisplace | js/folder_browser.js:106-110 | During the output step, re-connecting a link of the old node keeps agreement for every link that does not touch the old node. The links still to be re-connected stay held by their targets. |
| HostLinks.LinkedRemove | js/folder_browser.js:116 | Removing the old node restores full agreement, when only links touching that node were out of agreement. |
| ReloadButton.WithButtonFacts | js/folder_browser.js:126-137 | Adding is idempotent, adds a button only when there is none, and keeps the existing widgets in front. |
| ReloadButton.AtMostOneButton | js/destroy_and_recreate.js:92-102 | After adding, a list with at most one button has exactly one. |
| ReloadButton.WithoutButtonFacts | js/folder_browser.js:140-146 | Removing splices out the first button, if any, and keeps every other widget in order. |
| ReloadButton.RemoveUndoesAdd | js/folder_browser.js:126-146 | Removing after adding to a button-less list gives the list back. |
| ReloadButton.AddAfterRemove | js/destroy_and_recreate.js:92-112 | Adding after removing keeps exactly one button. |
| ReloadButton.AddReloadButton | js/folder_browser.js:126-137 | Only the node's widget list changes, to `WithButton`. |
| ReloadButton.RemoveReloadButton | js/folder_browser.js:140-146 | Only the node's widget list changes, to `WithoutButton`. |
| FolderBrowser.ConfiguredPropertiesFacts | js/folder_browser.js:167-185 | On both paths both settings end up defined, and an already defined setting keeps its value. Success takes the configuration's flags; failure takes `true` and `false`. No other property changes. |
| FolderBrowser.ConfiguredPropertiesIdempotent | js/folder_browser.js:167-185 | Applying the configuration again changes nothing. |
| FolderBrowser.ApplyConfig | js/folder_browser.js:163-186 | Properties become `ConfiguredProperties`. On success the button is added or removed by the setting's truthiness. On failure the widgets are unchanged. No redraw is requested. |
| FolderBrowser.OnPropertyChanged | js/folder_browser.js:276-289 | For `show_reload_button`: `value === true` adds the button, anything else removes it, and one redraw is requested. Other names change nothing. |
| FolderBrowser.ToggleShowReloadButton | js/folder_browser.js:366-369 | The setting is negated, and the button is shown exactly when the setting became true. |
| FolderBrowser.ToggleAutoReload | js/folder_browser.js:373-376 | The setting is negated, and nothing else changes. |
| FolderBrowser.OnWidgetChanged | js/folder_browser.js:234-271 | When auto-reload is falsy, nothing changes. Otherwise the refresh's outcome holds: the recreated nodes are `Recreations` of the snapshot in order, with `Progress`, `Covered`, kept agreement with re-attachment, and no change when output 0 has no link. The path widget's hook and the `append` widget's hook (266-271) behave the same. |
| FolderBrowser.SelectAppendOption | js/folder_browser.js:347-357 | Without an `append` widget nothing happens. Otherwise the widget takes the option as its value and one redraw is requested. Unless it has a callback and auto-reload is on, only that value changes. With both, the refresh runs from the graph with the value written: the recreated nodes are `Recreations` of the snapshot in order, with `Progress`, `Covered`, and agreement with re-attachment. |
| DestroyAndRecreate.CreatedProperties | js/destroy_and_recreate.js:137-139 | Each of the three settings becomes `true` unless defined. Every other property is untouched. |
| DestroyAndRecreate.CreatedPropertiesIdempotent | js/destroy_and_recreate.js:137-139 | The defaults applied twice give the same bag. |
| DestroyAndRecreate.ApplyDefaults | js/destroy_and_recreate.js:137-139 | The node's properties become `CreatedProperties`, and nothing else changes. |
| DestroyAndRecreate.VisibilityFacts | js/destroy_and_recreate.js:151-158 | Showing leaves at least one input and adds the wildcard input only when there was none. Hiding removes the first input, if any. |
| DestroyAndRecreate.ShowIdempotent | js/destroy_and_recreate.js:155-158 | Showing twice is showing once. |
| DestroyAndRecreate.HideUndoesShow | js/destroy_and_recreate.js:151-158 | Hiding the input that showing just added gives back the node table. |
| DestroyAndRecreate.SetInputVisible | js/destroy_and_recreate.js:151-158 | The graph becomes `VisibilityNodes` / `VisibilityLinks`, and hiding releases the input's link. |
| DestroyAndRecreate.InitialSetup | js/destroy_and_recreate.js:142-160 | The button is shown by the truthiness of `show_reload_button`, then the input by the truthiness of `show_input`. No redraw is requested. |
| DestroyAndRecreate.FreshSetup | js/destroy_and_recreate.js:137-160 | A new node with the defaults ends with exactly one button. It keeps the inputs it has, such as the optional `any_input`. It gains exactly the wildcard input when it has none. |
| DestroyAndRecreate.OnPropertyChanged | js/destroy_and_recreate.js:164-180 | `show_reload_button`: the button is shown exactly for `value === true`, with no redraw. `show_input`: the input is shown exactly for `value === true`, with one redraw. Other names change nothing. |
| DestroyAndRecreate.ToggleSetting | js/destroy_and_recreate.js:230-248 | The chosen setting is negated and the listener's effect for the new value follows. |
| DestroyAndRecreate.OutputRelabel | js/destroy_and_recreate.js:261-279 | Connecting input 0 takes the origin output's type as both the type and the name, when the link and the origin slot are found. Disconnecting restores the wildcard. Any other slot changes nothing. |
| DestroyAndRecreate.RelabelOnConnect | js/destroy_and_recreate.js:261-279 | A recorded link retypes the output, and a disconnection always restores the wildcard. |
| DestroyAndRecreate.OnConnectionsChange | js/destroy_and_recreate.js:257-287 | Only output 0's label changes, as `OutputRelabel` says. A refresh is scheduled exactly on connection of input 0 with `reload_on_input_change` truthy. |
| DestroyAndRecreate.ReloadEventExclusive | js/destroy_and_recreate.js:290-294 | An event reaches at most one node id. |
| DestroyAndRecreate.ReloadEventForNode | js/destroy_and_recreate.js:290-294 | An event carrying the node's id reaches it exactly when its setting is truthy. An event without detail reaches nobody. |
| DestroyAndRecreate.OnReloadEvent | js/destroy_and_recreate.js:290-294 | A non-matching event changes nothing. A matching one has the refresh's outcome: the recreated nodes are `Recreations` of the snapshot in order, with `Progress`, `Covered`, kept agreement with re-attachment, and no change when output 0 has no link. |
| Downstream.FirstTargetFound | js/node_state_manager.js:166-174 | In a consistent graph the lookup fails only when output 0 has no link, and the first link is always recorded. |
| SaveState.StoredAt | js/save_state.js:123-126 | The slot holds the new state, and every other slot is unchanged. A shorter array grows, with holes. |
| SaveState.StoredThenRead | js/save_state.js:126 | A read of the stored slot sees the state, and a read of another slot sees what it saw before. |
| SaveState.SlotWidgetsFacts | js/save_state.js:171-177 | Slot widget names are unique, and slot `i` is found by name at index `i`. |
| SaveState.BuildSlotWidgets | js/save_state.js:169-177 | The loop builds one `custom` widget `slot_i` per slot, and one when `slot_count` is 0. |
| SaveState.RestoreWidgets | js/save_state.js:142-158 | Widgets whose name is saved under a different value take it. The indices of those with a callback are returned in order. `changed` holds exactly when some value differs. |
| SaveState.LoadAfterSave | js/save_state.js:105-160 | With unique names, loading after saving restores every value, whatever was edited in between. |
| SaveState.LoadAfterSaveLast | js/save_state.js:117-150 | In general a widget is restored to the value of the last saved widget with its name. |
| SaveState.DuplicateNamesLost | js/save_state.js:117-150 | Two same-named widgets with different values do not survive a save and load. |
| SaveState.LoadTwice | js/save_state.js:142-158 | A second load changes nothing and calls no callback. |
| SaveState.SlotClick | js/save_state.js:56-81 | Only `mousedown` acts, and only between the margins. Load only on a saved slot, left of the middle minus 2. Save on a saved slot only right of the middle plus 2. |
| SaveState.SlotClickRegions | js/save_state.js:56-79 | The 4-unit gap on a saved slot does nothing. Every in-margin mousedown on an empty slot saves. On a saved slot, every mousedown between the left margin and the gap loads, and every one between the gap and the right margin saves. |
| SaveState.SaveStateNode.constructor | js/save_state.js:196-197 | A new node has one slot and nothing saved. |
| SaveState.SaveStateNode.RefreshWidgets | js/save_state.js:165-182 | The widgets become the slot widgets, the node's size becomes the fitted size (`setSize(computeSize())`), and one redraw is requested. The rest of the node is unchanged. |
| SaveState.SaveStateNode.SaveState | js/save_state.js:105-128 | Without a target nothing changes. Otherwise the title and widget values are stored in the slot, and the widgets are rebuilt at the fitted size. |
| SaveState.SaveStateNode.LoadState | js/save_state.js:130-160 | With nothing saved or no target nothing happens. Otherwise the target's widgets become `Restored` and the callbacks fire as listed. Two redraws are requested exactly when a value changed. |
| SaveState.SaveStateNode.OnSlotMouse | js/save_state.js:56-81 | Always consumes the event. The action is `SlotClick` at the node's current width, which the last rebuild set. No action changes nothing. A save click has the save's outcome: with a target, the slot holds its title and widget values and the widgets are rebuilt at the fitted size; without one, nothing changes. A load click has the load's outcome: the target's widgets become `Restored` from the slot, its callbacks fire, and two redraws follow a change. |
| SaveState.SaveStateNode.AddSlot | js/save_state.js:247-250 | One more slot, and the widgets are rebuilt at the fitted size. Saved states are kept. |
| SaveState.SaveStateNode.RemoveSlot | js/save_state.js:253-262 | One slot fewer only while more than one remains, and then the widgets are rebuilt at the fitted size. Otherwise nothing changes. Saved states are kept. |
| SaveState.SaveStateNode.ClearStates | js/save_state.js:266-269 | Every slot reads as empty, and the widgets are rebuilt at the fitted size. |
| NodeStateManager.ApplyState | js/node_state_manager.js:198-206 | Widgets whose saved value is defined take it. Assigned non-button widgets with a callback are returned in order. |
| NodeStateManager.LoadAfterSave | js/node_state_manager.js:164-209 | With unique names, a load after a save restores each widget, except one saved as `undefined`, which keeps its current value. |
| NodeStateManager.LoadTwice | js/node_state_manager.js:198-206 | A second load leaves the values as they are, yet calls the same callbacks again. |
| NodeStateManager.ManagerClick | js/node_state_manager.js:102-150 | A hit needs a left click at zoom 0.55 or more, in the band 38 to 58, between the margins. Load is hit only when a state is saved. |
| NodeStateManager.ManagerBarTiled | js/node_state_manager.js:117-144 | Without a saved state the band is all Save. With one, it is Load up to three quarters (inclusive) and Save beyond, with no gap. |
| NodeStateManager.StateManagerNode.DoSave | js/node_state_manager.js:164-184 | Without a link nothing changes. Otherwise the target's widget values are saved and one redraw is requested. |
| NodeStateManager.StateManagerNode.DoLoad | js/node_state_manager.js:186-209 | With nothing saved or no link nothing happens. Otherwise the target's widgets become `Applied`, callbacks fire as listed, and one redraw is requested. |
| NodeStateManager.StateManagerNode.OnMouseDown | js/node_state_manager.js:102-150 | The event is consumed exactly on a hit, and a miss changes nothing. A save hit flashes and saves the target's widget values, with two redraws; without a target it is one redraw and no change. A load hit needs a saved state. It flashes and applies that state to the target, firing its callbacks, with two redraws; without a target it is one redraw and no change. |
| Passthrough.ChangeDetectedFacts | nodes/utility/destroy_and_recreate/destroy_and_recreate.py:49-52 | The first run, and a run after one without input, never send. The same hash never sends. Losing the input always sends. |
| Passthrough.CollisionMissed | nodes/utility/destroy_and_recreate/destroy_and_recreate.py:40-50 | Inputs whose string forms collide under the hash are not told apart. |
| Passthrough.EventReachesOwnNode | nodes/utility/destroy_and_recreate/destroy_and_recreate.py:52 | The event for a node reaches exactly that node's listener, when its setting is truthy. |
| Passthrough.PassthroughNode.constructor | nodes/utility/destroy_and_recreate/destroy_and_recreate.py:35-36 | A new instance keeps no hash. |
| Passthrough.PassthroughNode.Run | nodes/utility/destroy_and_recreate/destroy_and_recreate.py:38-57 | The input is returned unchanged. The event naming the node is sent exactly when a change is detected against the kept hash, and the new hash is kept. |

## Left out

- Drawing (`onDrawForeground`, `draw`), the default purple colour and box shape given to new nodes, the folder browser's default size (js/folder_browser.js:208-210), the `computeSize` overrides of the folder-browser and node-state-manager nodes, and the version property set on the folder browser are not modelled, as they are presentation only. Apart from drawing, the only thing that reads the folder browser's width is the settings-gear hit test, which is also left out. The clicks of the node-state-manager and save-state nodes read the node's current `size`.
- The settings-gear hit tests of the folder-browser, destroy-and-recreate and save-state nodes: they use a Euclidean distance with a square root, and the menus they open are modelled as direct calls.
- SaveState.SaveStateNode.RefreshWidgets: the host's `computeSize` is not modelled. The size it returns is the parameter `fitted`, which the rebuild writes into the node's `size` (js/save_state.js:180). Later slot clicks are split at that width.
- Timers: the deferred setup (`setTimeout(..., 50)`) is `DestroyAndRecreate.InitialSetup`, called directly. The deferred refresh after a connection is returned as `scheduleReload` for the caller to run with `ReloadConnectedNode`. The flash reset of the node-state-manager is not modelled.
- Network I/O: the configuration fetch is `FolderBrowser.ConfigResponse`. The append-options fetch and the folder picker are not modelled. The appended option is a parameter.
- Callbacks are not executed. The indices of the widgets whose callbacks a load calls are returned instead, and the original handlers the extensions chain to are not modelled.
- FolderBrowser.ApplyConfig: a configuration body of JSON `null` (the success handler throws and the fallback runs) is not modelled.
- Widget values are JavaScript primitives. Object values, and their by-reference `!==` comparison on load, are not modelled.
- Inherited keys of a plain object (`constructor`, `toString`, ...) that `state.widgets[name]` would find on load are not modelled.
- `slot_count` is an integer, and other JSON types in that property are not modelled.
- Host internals: `connect` does no type check and does not release a link its target input held. `removeInput` does not renumber the target slot of links into later inputs.
- The host's `onConfigure` / `configure` hooks, the "Select Folder" button and the Python routes (configuration file, folder listing) are not part of this model.
- The folder browser's `onNodeCreated` widget setup is not modelled. When the node has a `path` widget, it adds the "Select Folder" button and, if `show_reload_button` is already truthy, the reload button (js/folder_browser.js:241-260). When the configuration fetch succeeds, `FolderBrowser.ApplyConfig` then adds or removes the button by the setting. After a failed fetch, a button added at creation stays.
- Passthrough.PassthroughNode.Run: the input is represented through its string form (`render`) and the runtime's string hash (`hash`). The fallback for inputs whose hash fails is not modelled.
- DestroyAndRecreate.OnConnectionsChange requires the node to have an output 0, which the node type always declares. Without it the source would throw.
- Reload.ReloadConnectedNode requires a consistent graph (`Graph.Valid`), in particular no input whose link is `undefined`. The source's `!== null` test lets that case through, and it would fail on the next line.
- Absent `widgets`, `inputs`, `outputs` and `links` arrays are modelled as empty lists. NodeStateManager.StateManagerNode.DoLoad therefore always requests its redraw, while the source skips it for a target without a `widgets` array.
- `doSave`, `saveState` and `loadState` warn through `alert` when no target is found. The model only leaves everything unchanged.
- Reload.ReloadConnectedNode: re-attachment (`Reattached`) and kept agreement are promised only for graphs whose slots and links agree (`HostLinks.WellLinked`), which the host maintains. Without agreement, a link the target input does not hold, or two links into one input, need not be re-made. A self-link, and a link whose renamed slot is missing on a replacement, are not covered either. FolderBrowser.OnWidgetChanged, FolderBrowser.SelectAppendOption and DestroyAndRecreate.OnReloadEvent inherit this.
- The state nodes' structured properties (`saved_states`, `slot_count`, `saved_state`) live in `SaveState.SaveStateNode` and `NodeStateManager.StateManagerNode`, apart from the node's property bag. A refresh that recreates such a node copies its properties by a JSON round trip (js/folder_browser.js:69, js/destroy_and_recreate.js:34), so the source's new node keeps them. The model does not carry them over to the replacement.
- NodeStateManager.ManagerClick and SaveState.SlotClick compute over exact reals. The source uses doubles, including the 0.75 split of the manager's bar (js/node_state_manager.js:114,130; js/save_state.js:57-59). Rounding at the region borders is not modelled.

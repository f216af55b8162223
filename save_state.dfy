/**
 * The save-state node's editor extension: numbered slots, each a custom
 * widget that saves the downstream node's widget values into the slot or
 * loads them back, plus the settings menu that adds, removes and clears
 * slots.
 */
module SaveState {
  import opened JsValues
  import opened Widgets
  import opened HostGraph
  import opened Downstream

  /** What a slot holds: the target's title and its widget values by name. */
  datatype SavedState = SavedState(title: Value, widgets: map<string, Value>)

  // ---------------------------------------------------------------------------
  // The `saved_states` array
  // ---------------------------------------------------------------------------

  /** `saved_states[slot]`, read as "nothing saved" past the end of the array or in a hole. */
  function SavedAt(states: seq<Option<SavedState>>, slot: nat): Option<SavedState>
  {
    if slot < |states| then states[slot] else None
  }

  /**
   * `saved_states[slot] = st`: the array grows to reach `slot` when it is
   * shorter, the new places in between being holes.
   */
  function StoredAt(states: seq<Option<SavedState>>, slot: nat, st: SavedState): (r: seq<Option<SavedState>>)
    ensures |r| == if slot < |states| then |states| else slot + 1
    ensures r[slot] == Some(st)
    ensures forall i :: 0 <= i < |states| && i != slot ==> r[i] == states[i]
    ensures forall i :: |states| <= i < slot ==> r[i] == None
  {
    if slot < |states| then states[slot := Some(st)]
    else states + seq(slot - |states|, _ => None) + [Some(st)]
  }

  /** Storing into a slot is seen by a read of that slot and by no other. */
  lemma StoredThenRead(states: seq<Option<SavedState>>, slot: nat, st: SavedState, other: nat)
    ensures SavedAt(StoredAt(states, slot, st), slot) == Some(st)
    ensures other != slot ==> SavedAt(StoredAt(states, slot, st), other) == SavedAt(states, other)
  {
  }

  // ---------------------------------------------------------------------------
  // The slot widgets
  // ---------------------------------------------------------------------------

  /** `slot_count || 1`: how many slot widgets `refreshWidgets` builds (none when negative). */
  function SlotTotal(slotCount: int): int
  {
    if slotCount == 0 then 1 else slotCount
  }

  function SlotName(i: nat): string
  {
    "slot_" + NatToString(i)
  }

  /** The custom widget of slot `i`: value `null`, drawn and clicked by the extension, no callback. */
  function SlotWidget(i: nat): Widget
  {
    Widget(SlotName(i), "custom", Null, false)
  }

  /** The widget list `refreshWidgets` leaves: one slot widget per slot, in slot order. */
  function SlotWidgets(count: int): (ws: seq<Widget>)
    ensures |ws| == if count < 0 then 0 else count
    ensures forall i :: 0 <= i < |ws| ==> ws[i] == SlotWidget(i)
  {
    seq(if count < 0 then 0 else count, i requires 0 <= i => SlotWidget(i))
  }

  /** Slot names are pairwise different. */
  lemma SlotNameInjective(i: nat, j: nat)
    requires SlotName(i) == SlotName(j)
    ensures i == j
  {
    var p := "slot_";
    assert SlotName(i)[|p|..] == NatToString(i);
    assert SlotName(j)[|p|..] == NatToString(j);
    NatToStringInjective(i, j);
  }

  /** The slot widgets have unique names, so slot `i` is found by its name at index `i`. */
  lemma SlotWidgetsFacts(count: int, i: nat)
    ensures UniqueNames(SlotWidgets(count))
    ensures i < count ==> FindName(SlotWidgets(count), SlotName(i)) == i
  {
    var ws := SlotWidgets(count);
    forall a, b | 0 <= a < b < |ws| ensures ws[a].name != ws[b].name {
      if ws[a].name == ws[b].name {
        SlotNameInjective(a, b);
      }
    }
    if i < count {
      var k := FindName(ws, SlotName(i));
      assert ws[i].name == SlotName(i);
    }
  }

  /** The loop of `refreshWidgets` that pushes one slot widget per slot. */
  method BuildSlotWidgets(count: int) returns (ws: seq<Widget>)
    ensures ws == SlotWidgets(count)
  {
    ws := [];
    var i := 0;
    while i < count
      invariant 0 <= i && (0 <= count ==> i <= count) && (count < 0 ==> i == 0)
      invariant ws == SlotWidgets(i)
    {
      assert SlotWidgets(i + 1) == SlotWidgets(i) + [SlotWidget(i)];
      ws := ws + [SlotWidget(i)];
      i := i + 1;
    }
  }

  // ---------------------------------------------------------------------------
  // Restoring widget values
  // ---------------------------------------------------------------------------

  /** Widget `w` after a load from `m`: it takes its saved value when `m` has its name. */
  function RestoredWidget(w: Widget, m: map<string, Value>): Widget
  {
    if w.name in m then w.(value := m[w.name]) else w
  }

  function Restored(ws: seq<Widget>, m: map<string, Value>): (r: seq<Widget>)
    ensures |r| == |ws| && forall j :: 0 <= j < |ws| ==> r[j] == RestoredWidget(ws[j], m)
  {
    seq(|ws|, j requires 0 <= j < |ws| => RestoredWidget(ws[j], m))
  }

  /** A widget whose value a load changes: its name is saved under a different value. */
  predicate Changes(w: Widget, m: map<string, Value>)
  {
    w.name in m && w.value != m[w.name]
  }

  /** A widget whose callback a load calls: it changes and has a callback. */
  predicate Fires(w: Widget, m: map<string, Value>)
  {
    Changes(w, m) && w.hasCallback
  }

  function FiresOn(m: map<string, Value>): Widget -> bool
  {
    w => Fires(w, m)
  }

  predicate AnyChanges(ws: seq<Widget>, m: map<string, Value>)
  {
    ChangesBefore(ws, m, |ws|)
  }

  /** Some widget before index `i` changes. */
  predicate ChangesBefore(ws: seq<Widget>, m: map<string, Value>, i: int)
  {
    exists j :: 0 <= j < |ws| && j < i && Changes(ws[j], m)
  }

  lemma ChangesBeforeExtend(ws: seq<Widget>, m: map<string, Value>, i: nat)
    requires i < |ws|
    ensures ChangesBefore(ws, m, i + 1) <==> ChangesBefore(ws, m, i) || Changes(ws[i], m)
  {
    if ChangesBefore(ws, m, i + 1) && !Changes(ws[i], m) {
      var j :| 0 <= j < |ws| && j < i + 1 && Changes(ws[j], m);
      assert j < i;
    }
  }

  /**
   * The loop of `loadState` over the target's widgets: each widget whose name
   * is saved under a different value takes that value and, if it has a
   * callback, has it called (the indices are returned in order); `changed`
   * says whether any value changed.
   */
  method RestoreWidgets(ws: seq<Widget>, m: map<string, Value>) returns (r: seq<Widget>, fired: seq<nat>, changed: bool)
    ensures r == Restored(ws, m)
    ensures fired == IndicesWhere(ws, FiresOn(m))
    ensures changed <==> AnyChanges(ws, m)
  {
    r, fired, changed := ws, [], false;
    for i := 0 to |ws|
      invariant |r| == |ws|
      invariant forall j :: 0 <= j < i ==> r[j] == RestoredWidget(ws[j], m)
      invariant forall j :: i <= j < |ws| ==> r[j] == ws[j]
      invariant fired == IndicesWhere(ws[..i], FiresOn(m))
      invariant changed <==> ChangesBefore(ws, m, i)
    {
      assert ws[..i + 1][..i] == ws[..i];
      ChangesBeforeExtend(ws, m, i);
      var w := ws[i];
      if w.name in m && w.value != m[w.name] {
        r := r[i := w.(value := m[w.name])];
        if w.hasCallback {
          fired := fired + [i];
        }
        changed := true;
      }
    }
    assert ws[..|ws|] == ws;
  }

  /**
   * Saving a widget list with unique names and loading the result into the
   * same list, whatever values it has been given since, restores every value.
   */
  lemma {:induction false} LoadAfterSave(saved: seq<Widget>, now: seq<Widget>)
    requires UniqueNames(saved) && SameShape(saved, now)
    ensures Restored(now, WidgetValues(saved)) == saved
  {
    var r := Restored(now, WidgetValues(saved));
    forall j | 0 <= j < |saved| ensures r[j] == saved[j] {
      UniqueWidgetValue(saved, j);
    }
  }

  /** In general a widget is restored to the value of the LAST saved widget with its name. */
  lemma {:induction false} LoadAfterSaveLast(ws: seq<Widget>, j: nat)
    requires j < |ws|
    ensures Restored(ws, WidgetValues(ws))[j].value == ws[LastIndex(ws, ws[j].name)].value
  {
    WidgetValuesMeaning(ws);
  }

  /** Two widgets sharing a name with different values do not survive a save and load. */
  lemma DuplicateNamesLost()
    ensures var ws := [Widget("seed", "number", Num(1.0), false), Widget("seed", "number", Num(2.0), false)];
            Restored(ws, WidgetValues(ws)) != ws
  {
    var ws := [Widget("seed", "number", Num(1.0), false), Widget("seed", "number", Num(2.0), false)];
    assert WidgetValues(ws[..1]) == map["seed" := Num(1.0)];
    assert WidgetValues(ws)["seed"] == Num(2.0);
    assert Restored(ws, WidgetValues(ws))[0].value == Num(2.0);
  }

  /** A second load of the same state changes nothing and calls no callback. */
  lemma {:induction false} LoadTwice(ws: seq<Widget>, m: map<string, Value>)
    ensures Restored(Restored(ws, m), m) == Restored(ws, m)
    ensures !AnyChanges(Restored(ws, m), m)
    ensures IndicesWhere(Restored(ws, m), FiresOn(m)) == []
  {
    var r := Restored(ws, m);
    var rr := Restored(r, m);
    forall j | 0 <= j < |r| ensures rr[j] == r[j] && !Changes(r[j], m) {
      assert r[j] == RestoredWidget(ws[j], m);
    }
    IndicesWhereNone(r, FiresOn(m));
  }

  // ---------------------------------------------------------------------------
  // Slot clicks
  // ---------------------------------------------------------------------------

  datatype SlotAction = NoAction | SaveSlot | LoadSlot

  const Margin: real := 10.0

  /**
   * What a mouse event at `x` on a slot widget of a node `width` wide does:
   * only `mousedown` acts; an empty slot is one Save button between the
   * margins; a saved slot is a Load button left of the middle and a Save
   * button right of it, 2 units clear of the middle on either side.
   */
  function SlotClick(eventType: string, saved: bool, x: real, width: real): (a: SlotAction)
    ensures a != NoAction ==> eventType == "mousedown" && Margin < x < width - Margin
    ensures a == LoadSlot ==> saved && x < width / 2.0 - 2.0
    ensures a == SaveSlot && saved ==> width / 2.0 + 2.0 < x
  {
    if eventType != "mousedown" then NoAction
    else if !saved then
      if Margin < x < width - Margin then SaveSlot else NoAction
    else if Margin < x < width / 2.0 - 2.0 then LoadSlot
    else if width / 2.0 + 2.0 < x < width - Margin then SaveSlot
    else NoAction
  }

  /**
   * The 4-unit gap around the middle of a saved slot does nothing, every
   * mousedown between the margins of an empty slot saves, and on a saved
   * slot every mousedown left of the gap (inside the margin) loads and every
   * one right of it saves.
   */
  lemma SlotClickRegions(eventType: string, x: real, width: real)
    ensures width / 2.0 - 2.0 <= x <= width / 2.0 + 2.0 ==> SlotClick(eventType, true, x, width) == NoAction
    ensures eventType == "mousedown" && Margin < x < width - Margin ==> SlotClick(eventType, false, x, width) == SaveSlot
    ensures eventType == "mousedown" && Margin < x < width / 2.0 - 2.0 ==> SlotClick(eventType, true, x, width) == LoadSlot
    ensures eventType == "mousedown" && width / 2.0 + 2.0 < x < width - Margin ==>
              SlotClick(eventType, true, x, width) == SaveSlot
  {
  }

  // ---------------------------------------------------------------------------
  // The node
  // ---------------------------------------------------------------------------

  /**
   * The extension's state of one save-state node (its `slot_count` and
   * `saved_states` properties); the node's widgets and slots are in the graph
   * under `id`.
   */
  class SaveStateNode {
    const id: int
    var savedStates: seq<Option<SavedState>>
    var slotCount: int

    /** The defaults `onNodeCreated` writes on a new node: one slot, nothing saved. */
    constructor (id: int)
      ensures this.id == id && savedStates == [] && slotCount == 1
    {
      this.id := id;
      savedStates := [];
      slotCount := 1;
    }

    /**
     * `refreshWidgets(node)`: the widgets are rebuilt from the slot count,
     * the node is resized to `fitted` and the canvas is marked dirty.
     * `fitted` is what the host's `computeSize` gives for the rebuilt node;
     * the host's layout is not part of this model. The slot widgets' clicks
     * are split at the width written here.
     */
    method RefreshWidgets(g: Graph, fitted: Vec2)
      requires g.Valid() && id in g.nodes
      modifies g
      ensures g.Valid()
      ensures g.nodes == old(g.nodes)[id := old(g.nodes[id]).(body := old(g.nodes[id].body).(widgets := SlotWidgets(SlotTotal(slotCount)), size := fitted))]
      ensures g.links == old(g.links) && g.lastNodeId == old(g.lastNodeId) && g.lastLinkId == old(g.lastLinkId)
      ensures g.dirtyMarks == old(g.dirtyMarks) + 1
    {
      var ws := BuildSlotWidgets(SlotTotal(slotCount));
      g.WriteBody(id, g.nodes[id].body.(widgets := ws, size := fitted));
      g.MarkDirty();
    }

    /**
     * `saveState(node, slot)`: without a target nothing changes; otherwise the
     * target's title and widget values are stored in the slot and the widgets
     * are rebuilt.
     */
    method SaveState(g: Graph, slot: nat, fitted: Vec2)
      requires g.Valid() && id in g.nodes
      modifies this, g
      ensures g.Valid()
      ensures var t := FirstTarget(old(g.nodes[id]), old(g.nodes), old(g.links));
              t.None? ==> savedStates == old(savedStates) && g.nodes == old(g.nodes) && g.dirtyMarks == old(g.dirtyMarks)
      ensures var t := FirstTarget(old(g.nodes[id]), old(g.nodes), old(g.links));
              t.Some? ==>
                && savedStates == StoredAt(old(savedStates), slot,
                                           SavedState(old(g.nodes[t.value].body.title), WidgetValues(old(g.nodes[t.value].body.widgets))))
                && g.nodes == old(g.nodes)[id := old(g.nodes[id]).(body := old(g.nodes[id].body).(widgets := SlotWidgets(SlotTotal(slotCount)), size := fitted))]
                && g.dirtyMarks == old(g.dirtyMarks) + 1
      ensures slotCount == old(slotCount)
      ensures g.links == old(g.links) && g.lastNodeId == old(g.lastNodeId) && g.lastLinkId == old(g.lastLinkId)
    {
      var t := FirstTarget(g.nodes[id], g.nodes, g.links);
      if t.None? {
        return;
      }
      var target := g.nodes[t.value];
      var values := CollectWidgetValues(target.body.widgets);
      savedStates := StoredAt(savedStates, slot, SavedState(target.body.title, values));
      RefreshWidgets(g, fitted);
    }

    /**
     * `loadState(node, slot)`: with nothing saved in the slot or no target
     * nothing happens; otherwise the target's widgets are restored from the
     * slot, the callbacks of the changed widgets that have one are called
     * (their indices are returned), and both the target and the graph are
     * redrawn when any value changed.
     */
    method LoadState(g: Graph, slot: nat) returns (fired: seq<nat>)
      requires g.Valid() && id in g.nodes
      modifies g
      ensures g.Valid()
      ensures var st := SavedAt(savedStates, slot);
              var t := FirstTarget(old(g.nodes[id]), old(g.nodes), old(g.links));
              st.None? || t.None? ==> fired == [] && g.nodes == old(g.nodes) && g.dirtyMarks == old(g.dirtyMarks)
      ensures var st := SavedAt(savedStates, slot);
              var t := FirstTarget(old(g.nodes[id]), old(g.nodes), old(g.links));
              st.Some? && t.Some? ==>
                var ws := old(g.nodes[t.value].body.widgets);
                var m := st.value.widgets;
                && g.nodes == old(g.nodes)[t.value := old(g.nodes[t.value]).(body := old(g.nodes[t.value].body).(widgets := Restored(ws, m)))]
                && fired == IndicesWhere(ws, FiresOn(m))
                && g.dirtyMarks == old(g.dirtyMarks) + (if AnyChanges(ws, m) then 2 else 0)
      ensures g.links == old(g.links) && g.lastNodeId == old(g.lastNodeId) && g.lastLinkId == old(g.lastLinkId)
    {
      fired := [];
      var st := SavedAt(savedStates, slot);
      if st.None? {
        return;
      }
      var t := FirstTarget(g.nodes[id], g.nodes, g.links);
      if t.None? {
        return;
      }
      var body := g.nodes[t.value].body;
      var ws, changed;
      ws, fired, changed := RestoreWidgets(body.widgets, st.value.widgets);
      g.WriteBody(t.value, body.(widgets := ws));
      if changed {
        g.MarkDirty();
        g.MarkDirty();
      }
    }

    /**
     * The `mouse` handler of slot `slot`'s widget: acts as `SlotClick` says
     * for the node's width and the slot's state, and always consumes the event.
     */
    method OnSlotMouse(g: Graph, slot: nat, eventType: string, x: real, fitted: Vec2) returns (consumed: bool, fired: seq<nat>)
      requires g.Valid() && id in g.nodes
      modifies this, g
      ensures g.Valid()
      ensures consumed
      ensures var a := SlotClick(eventType, SavedAt(old(savedStates), slot).Some?, x, old(g.nodes[id].body.size.x));
              a == NoAction ==> fired == [] && savedStates == old(savedStates) && g.nodes == old(g.nodes) &&
                                g.dirtyMarks == old(g.dirtyMarks)
      ensures var a := SlotClick(eventType, SavedAt(old(savedStates), slot).Some?, x, old(g.nodes[id].body.size.x));
              a == LoadSlot ==> savedStates == old(savedStates)
      ensures var a := SlotClick(eventType, SavedAt(old(savedStates), slot).Some?, x, old(g.nodes[id].body.size.x));
              var t := FirstTarget(old(g.nodes[id]), old(g.nodes), old(g.links));
              a == SaveSlot ==>
                && fired == []
                && (t.None? ==> savedStates == old(savedStates) && g.nodes == old(g.nodes) && g.dirtyMarks == old(g.dirtyMarks))
                && (t.Some? ==>
                      && savedStates == StoredAt(old(savedStates), slot,
                                                 SavedState(old(g.nodes[t.value].body.title), WidgetValues(old(g.nodes[t.value].body.widgets))))
                      && g.nodes == old(g.nodes)[id := old(g.nodes[id]).(body := old(g.nodes[id].body).(widgets := SlotWidgets(SlotTotal(slotCount)), size := fitted))]
                      && g.dirtyMarks == old(g.dirtyMarks) + 1)
      ensures var a := SlotClick(eventType, SavedAt(old(savedStates), slot).Some?, x, old(g.nodes[id].body.size.x));
              var st := SavedAt(old(savedStates), slot);
              var t := FirstTarget(old(g.nodes[id]), old(g.nodes), old(g.links));
              a == LoadSlot ==>
                && st.Some?
                && (t.None? ==> fired == [] && g.nodes == old(g.nodes) && g.dirtyMarks == old(g.dirtyMarks))
                && (t.Some? ==>
                      var ws := old(g.nodes[t.value].body.widgets);
                      var m := st.value.widgets;
                      && g.nodes == old(g.nodes)[t.value := old(g.nodes[t.value]).(body := old(g.nodes[t.value].body).(widgets := Restored(ws, m)))]
                      && fired == IndicesWhere(ws, FiresOn(m))
                      && g.dirtyMarks == old(g.dirtyMarks) + (if AnyChanges(ws, m) then 2 else 0))
      ensures g.links == old(g.links) && slotCount == old(slotCount)
    {
      fired := [];
      var a := SlotClick(eventType, SavedAt(savedStates, slot).Some?, x, g.nodes[id].body.size.x);
      match a {
        case NoAction =>
        case SaveSlot => SaveState(g, slot, fitted);
        case LoadSlot => fired := LoadState(g, slot);
      }
      consumed := true;
    }

    /** "Add Save Slot": one more slot, widgets rebuilt. */
    method AddSlot(g: Graph, fitted: Vec2)
      requires g.Valid() && id in g.nodes
      modifies this, g
      ensures g.Valid()
      ensures slotCount == old(slotCount) + 1 && savedStates == old(savedStates)
      ensures g.nodes == old(g.nodes)[id := old(g.nodes[id]).(body := old(g.nodes[id].body).(widgets := SlotWidgets(SlotTotal(slotCount)), size := fitted))]
      ensures g.links == old(g.links) && g.dirtyMarks == old(g.dirtyMarks) + 1
    {
      slotCount := slotCount + 1;
      RefreshWidgets(g, fitted);
    }

    /**
     * "Remove Save Slot": one slot fewer while more than one is left, widgets
     * rebuilt; with one slot (or fewer) nothing happens. Saved states are kept.
     */
    method RemoveSlot(g: Graph, fitted: Vec2)
      requires g.Valid() && id in g.nodes
      modifies this, g
      ensures g.Valid()
      ensures old(slotCount) > 1 ==>
                slotCount == old(slotCount) - 1 &&
                g.nodes == old(g.nodes)[id := old(g.nodes[id]).(body := old(g.nodes[id].body).(widgets := SlotWidgets(slotCount), size := fitted))] &&
                g.dirtyMarks == old(g.dirtyMarks) + 1
      ensures old(slotCount) <= 1 ==> slotCount == old(slotCount) && g.nodes == old(g.nodes) && g.dirtyMarks == old(g.dirtyMarks)
      ensures savedStates == old(savedStates) && g.links == old(g.links)
    {
      if slotCount > 1 {
        slotCount := slotCount - 1;
        RefreshWidgets(g, fitted);
      }
    }

    /** "Clear All States": every slot emptied, widgets rebuilt. */
    method ClearStates(g: Graph, fitted: Vec2)
      requires g.Valid() && id in g.nodes
      modifies this, g
      ensures g.Valid()
      ensures savedStates == [] && slotCount == old(slotCount)
      ensures forall slot: nat :: SavedAt(savedStates, slot).None?
      ensures g.nodes == old(g.nodes)[id := old(g.nodes[id]).(body := old(g.nodes[id].body).(widgets := SlotWidgets(SlotTotal(slotCount)), size := fitted))]
      ensures g.links == old(g.links) && g.dirtyMarks == old(g.dirtyMarks) + 1
    {
      savedStates := [];
      RefreshWidgets(g, fitted);
    }
  }
}

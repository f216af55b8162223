/**
 * The "Reload Connected Node" button that the folder-browser and the
 * destroy-and-recreate nodes show or hide on request. Both extensions carry
 * identical copies of the add and remove helpers.
 */
module ReloadButton {
  import opened JsValues
  import opened Widgets
  import opened HostGraph

  const ButtonName: string := "Reload Connected Node \U{27F3}"

  /** The widget `node.addWidget("button", name, null, callback)` appends. */
  const Button: Widget := Widget(ButtonName, "button", Null, true)

  /** The widget list after `addReloadButton`: unchanged if a button is already there, else the button appended. */
  function WithButton(ws: seq<Widget>): seq<Widget>
  {
    if FindName(ws, ButtonName) >= 0 then ws else ws + [Button]
  }

  /** The widget list after `removeReloadButton`: the first button spliced out, if there is one. */
  function WithoutButton(ws: seq<Widget>): seq<Widget>
  {
    var k := FindName(ws, ButtonName);
    if k < 0 then ws else ws[..k] + ws[k + 1..]
  }

  lemma CountAppend(ws: seq<Widget>, w: Widget, name: string)
    ensures CountNamed(ws + [w], name) == CountNamed(ws, name) + (if w.name == name then 1 else 0)
  {
    if ws != [] {
      assert (ws + [w])[1..] == ws[1..] + [w];
      CountAppend(ws[1..], w, name);
    }
  }

  lemma {:induction false} CountConcat(a: seq<Widget>, b: seq<Widget>, name: string)
    ensures CountNamed(a + b, name) == CountNamed(a, name) + CountNamed(b, name)
  {
    if a == [] {
      assert a + b == b;
    } else {
      assert (a + b)[1..] == a[1..] + b;
      CountConcat(a[1..], b, name);
    }
  }

  /**
   * Adding is idempotent, leaves at least one button, and adds one only when
   * there was none; the widgets already there stay, in order, in front.
   */
  lemma {:induction false} WithButtonFacts(ws: seq<Widget>)
    ensures WithButton(WithButton(ws)) == WithButton(ws)
    ensures CountNamed(WithButton(ws), ButtonName) == if CountNamed(ws, ButtonName) == 0 then 1 else CountNamed(ws, ButtonName)
    ensures WithButton(ws)[..|ws|] == ws
  {
    if FindName(ws, ButtonName) < 0 {
      var ws' := ws + [Button];
      CountAppend(ws, Button, ButtonName);
      assert ws'[|ws|].name == ButtonName;
      assert FindName(ws', ButtonName) >= 0;
      assert ws'[..|ws|] == ws;
    }
  }

  /** Adding to a list with no button gives a list with exactly one button. */
  lemma AtMostOneButton(ws: seq<Widget>)
    requires CountNamed(ws, ButtonName) <= 1
    ensures CountNamed(WithButton(ws), ButtonName) == 1
  {
    WithButtonFacts(ws);
  }

  /**
   * Removing takes out exactly one button when there is one (the first) and
   * keeps every other widget in order; with no button it changes nothing.
   */
  lemma {:induction false} WithoutButtonFacts(ws: seq<Widget>)
    ensures FindName(ws, ButtonName) < 0 ==> WithoutButton(ws) == ws
    ensures var k := FindName(ws, ButtonName);
            0 <= k ==> |WithoutButton(ws)| == |ws| - 1 &&
                       (forall j :: 0 <= j < k ==> WithoutButton(ws)[j] == ws[j]) &&
                       (forall j :: k <= j < |ws| - 1 ==> WithoutButton(ws)[j] == ws[j + 1])
    ensures CountNamed(WithoutButton(ws), ButtonName) == if CountNamed(ws, ButtonName) == 0 then 0 else CountNamed(ws, ButtonName) - 1
  {
    var k := FindName(ws, ButtonName);
    if 0 <= k {
      var front, back := ws[..k], ws[k + 1..];
      assert ws == front + ([ws[k]] + back);
      CountConcat(front, [ws[k]] + back, ButtonName);
      CountConcat([ws[k]], back, ButtonName);
      CountConcat(front, back, ButtonName);
      assert CountNamed([ws[k]], ButtonName) == 1;
    }
  }

  /** Removing after adding to a list with no button gives the list back. */
  lemma RemoveUndoesAdd(ws: seq<Widget>)
    requires FindName(ws, ButtonName) < 0
    ensures WithoutButton(WithButton(ws)) == ws
  {
    var ws' := ws + [Button];
    var k := FindName(ws', ButtonName);
    assert ws'[|ws|].name == ButtonName;
    assert k == |ws|;
    assert ws'[..k] == ws && ws'[k + 1..] == [];
  }

  /** Adding after removing, with one button to begin with, keeps one button. */
  lemma AddAfterRemove(ws: seq<Widget>)
    requires CountNamed(ws, ButtonName) == 1
    ensures CountNamed(WithButton(WithoutButton(ws)), ButtonName) == 1
  {
    WithoutButtonFacts(ws);
    WithButtonFacts(WithoutButton(ws));
  }

  /** `addReloadButton(node)` on node `id` of the graph. */
  method AddReloadButton(g: Graph, id: int)
    requires g.Valid() && id in g.nodes
    modifies g
    ensures g.Valid()
    ensures g.nodes == old(g.nodes)[id := old(g.nodes[id]).(body := old(g.nodes[id].body).(widgets := WithButton(old(g.nodes[id].body.widgets))))]
    ensures g.links == old(g.links) && g.lastNodeId == old(g.lastNodeId) && g.lastLinkId == old(g.lastLinkId)
    ensures g.dirtyMarks == old(g.dirtyMarks)
  {
    var body := g.nodes[id].body;
    if FindName(body.widgets, ButtonName) >= 0 {
      return;
    }
    g.WriteBody(id, body.(widgets := body.widgets + [Button]));
  }

  /** `removeReloadButton(node)` on node `id` of the graph. */
  method RemoveReloadButton(g: Graph, id: int)
    requires g.Valid() && id in g.nodes
    modifies g
    ensures g.Valid()
    ensures g.nodes == old(g.nodes)[id := old(g.nodes[id]).(body := old(g.nodes[id].body).(widgets := WithoutButton(old(g.nodes[id].body.widgets))))]
    ensures g.links == old(g.links) && g.lastNodeId == old(g.lastNodeId) && g.lastLinkId == old(g.lastLinkId)
    ensures g.dirtyMarks == old(g.dirtyMarks)
  {
    var body := g.nodes[id].body;
    var index := FindName(body.widgets, ButtonName);
    if index != -1 {
      g.WriteBody(id, body.(widgets := body.widgets[..index] + body.widgets[index + 1..]));
    }
  }
}

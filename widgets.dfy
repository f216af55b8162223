/**
 * Widget lists of editor nodes and the by-name lookups the extensions perform
 * on them: `find`/`findIndex` by name, the copy of widget values by name done
 * when a node is recreated, and the name-to-value snapshot taken when a
 * node's state is saved.
 */
module Widgets {
  import opened JsValues

  /**
   * A widget: its name, its type tag ("button", "custom", "combo", ...), its
   * current value and whether a `callback` is attached to it.
   */
  datatype Widget = Widget(name: string, kind: string, value: Value, hasCallback: bool)

  /** `ws.findIndex(w => w.name === name)`: the first index bearing `name`, or -1. */
  function FindName(ws: seq<Widget>, name: string): (k: int)
    ensures -1 <= k < |ws|
    ensures 0 <= k ==> ws[k].name == name && forall j :: 0 <= j < k ==> ws[j].name != name
    ensures k < 0 ==> forall j :: 0 <= j < |ws| ==> ws[j].name != name
  {
    if ws == [] then -1
    else if ws[0].name == name then 0
    else
      var k := FindName(ws[1..], name);
      if k < 0 then -1 else k + 1
  }

  /** The last index bearing `name`, or -1. */
  function LastIndex(ws: seq<Widget>, name: string): (k: int)
    ensures -1 <= k < |ws|
    ensures 0 <= k ==> ws[k].name == name && forall j :: k < j < |ws| ==> ws[j].name != name
    ensures k < 0 ==> forall j :: 0 <= j < |ws| ==> ws[j].name != name
  {
    if ws == [] then -1
    else if ws[|ws| - 1].name == name then |ws| - 1
    else LastIndex(ws[..|ws| - 1], name)
  }

  /** How many widgets bear `name`. */
  function CountNamed(ws: seq<Widget>, name: string): (c: nat)
    ensures c <= |ws|
    ensures c == 0 <==> FindName(ws, name) < 0
  {
    if ws == [] then 0
    else CountNamed(ws[1..], name) + (if ws[0].name == name then 1 else 0)
  }

  /** No two widgets share a name. */
  predicate UniqueNames(ws: seq<Widget>)
  {
    forall i, j :: 0 <= i < j < |ws| ==> ws[i].name != ws[j].name
  }

  /** Two widget lists that differ at most in widget values. */
  predicate SameShape(a: seq<Widget>, b: seq<Widget>)
  {
    |a| == |b| && forall j :: 0 <= j < |a| ==> a[j] == b[j].(value := a[j].value)
  }

  /** The indices (ascending) of the widgets that satisfy `p`. */
  function IndicesWhere(ws: seq<Widget>, p: Widget -> bool): (r: seq<nat>)
    ensures forall k: nat :: k in r <==> k < |ws| && p(ws[k])
    ensures forall a, b :: 0 <= a < b < |r| ==> r[a] < r[b]
  {
    if ws == [] then []
    else
      var front := IndicesWhere(ws[..|ws| - 1], p);
      assert forall a :: 0 <= a < |front| ==> front[a] < |ws| - 1 by {
        forall a | 0 <= a < |front| ensures front[a] < |ws| - 1 {
          assert front[a] in front;
        }
      }
      front + (if p(ws[|ws| - 1]) then [|ws| - 1] else [])
  }

  /** No widget satisfies `p`: no index is selected. */
  lemma {:induction false} IndicesWhereNone(ws: seq<Widget>, p: Widget -> bool)
    requires forall j :: 0 <= j < |ws| ==> !p(ws[j])
    ensures IndicesWhere(ws, p) == []
  {
    if ws != [] {
      IndicesWhereNone(ws[..|ws| - 1], p);
    }
  }

  // ---------------------------------------------------------------------------
  // Copy of widget values by name (step 4 of the node refresh)
  // ---------------------------------------------------------------------------

  /**
   * Widget `j` of `dst` after the copy: it takes the value of the LAST widget
   * of `src` with its name, provided it is the FIRST widget of `dst` with that
   * name (because `find` always returns the first match); otherwise it is left
   * as it was.
   */
  function CopiedWidget(src: seq<Widget>, dst: seq<Widget>, j: int): Widget
    requires 0 <= j < |dst|
  {
    var k := LastIndex(src, dst[j].name);
    if FindName(dst, dst[j].name) == j && 0 <= k then dst[j].(value := src[k].value) else dst[j]
  }

  function CopiedByName(src: seq<Widget>, dst: seq<Widget>): (r: seq<Widget>)
    ensures SameShape(r, dst)
  {
    seq(|dst|, j requires 0 <= j < |dst| => CopiedWidget(src, dst, j))
  }

  lemma SameShapeFind(a: seq<Widget>, b: seq<Widget>, name: string)
    requires SameShape(a, b)
    ensures FindName(a, name) == FindName(b, name)
  {
  }

  /** Extending the list by one widget: the last index of a name is that widget's, if it bears the name. */
  lemma {:induction false} LastIndexExtend(src: seq<Widget>, i: nat, name: string)
    requires i < |src|
    ensures LastIndex(src[..i + 1], name) == if src[i].name == name then i else LastIndex(src[..i], name)
  {
    assert src[..i + 1][..i] == src[..i];
  }

  lemma {:induction false} CopiedByNameStep(src: seq<Widget>, dst: seq<Widget>, i: nat)
    requires i < |src|
    ensures var k := FindName(dst, src[i].name);
            var before := CopiedByName(src[..i], dst);
            CopiedByName(src[..i + 1], dst)
              == if 0 <= k then before[k := before[k].(value := src[i].value)] else before
  {
    var pre, post := src[..i], src[..i + 1];
    var k := FindName(dst, src[i].name);
    var before, after := CopiedByName(pre, dst), CopiedByName(post, dst);
    var expected := if 0 <= k then before[k := before[k].(value := src[i].value)] else before;
    forall j | 0 <= j < |dst|
      ensures after[j] == expected[j]
    {
      LastIndexExtend(src, i, dst[j].name);
      assert after[j] == CopiedWidget(post, dst, j);
      assert before[j] == CopiedWidget(pre, dst, j);
    }
  }

  /**
   * Step 4 of the refresh: for each widget of the old node, in order, the
   * first widget of the new node with the same name receives its value.
   */
  method CopyWidgetValues(src: seq<Widget>, dst: seq<Widget>) returns (r: seq<Widget>)
    ensures r == CopiedByName(src, dst)
  {
    r := dst;
    for i := 0 to |src|
      invariant r == CopiedByName(src[..i], dst)
    {
      SameShapeFind(r, dst, src[i].name);
      var k := FindName(r, src[i].name);
      CopiedByNameStep(src, dst, i);
      if 0 <= k {
        r := r[k := r[k].(value := src[i].value)];
      }
    }
    assert src[..|src|] == src;
  }

  /**
   * The outcome of the copy, stated per widget of the new node: a name the old
   * node does not have leaves the widget alone; otherwise only the first
   * widget with that name changes, to the last old value with that name.
   */
  lemma {:induction false} CopiedByNameFacts(src: seq<Widget>, dst: seq<Widget>, j: nat)
    requires j < |dst|
    ensures LastIndex(src, dst[j].name) < 0 ==> CopiedByName(src, dst)[j] == dst[j]
    ensures FindName(dst, dst[j].name) != j ==> CopiedByName(src, dst)[j] == dst[j]
    ensures FindName(dst, dst[j].name) == j && 0 <= LastIndex(src, dst[j].name) ==>
              CopiedByName(src, dst)[j].value == src[LastIndex(src, dst[j].name)].value
  {
    assert CopiedByName(src, dst)[j] == CopiedWidget(src, dst, j);
  }

  // ---------------------------------------------------------------------------
  // Name-to-value snapshot (`state.widgets[w.name] = w.value` over all widgets)
  // ---------------------------------------------------------------------------

  /** The map built by assigning every widget's value under its name, in list order. */
  function WidgetValues(ws: seq<Widget>): map<string, Value>
  {
    if ws == [] then map[]
    else WidgetValues(ws[..|ws| - 1])[ws[|ws| - 1].name := ws[|ws| - 1].value]
  }

  /** Every widget name is a key, and each key holds the value of the last widget with that name. */
  lemma {:induction false} WidgetValuesMeaning(ws: seq<Widget>)
    ensures forall n :: n in WidgetValues(ws) <==> 0 <= LastIndex(ws, n)
    ensures forall n :: n in WidgetValues(ws) ==> WidgetValues(ws)[n] == ws[LastIndex(ws, n)].value
  {
    if ws != [] {
      WidgetValuesMeaning(ws[..|ws| - 1]);
    }
  }

  /** The loop of `saveState` / `doSave` that fills `state.widgets`. */
  method CollectWidgetValues(ws: seq<Widget>) returns (m: map<string, Value>)
    ensures m == WidgetValues(ws)
    ensures forall n :: n in m <==> 0 <= LastIndex(ws, n)
  {
    m := map[];
    for i := 0 to |ws|
      invariant m == WidgetValues(ws[..i])
    {
      assert ws[..i + 1][..i] == ws[..i];
      m := m[ws[i].name := ws[i].value];
    }
    assert ws[..|ws|] == ws;
    WidgetValuesMeaning(ws);
  }

  /** With unique names, widget `j`'s entry in the snapshot is its own value. */
  lemma UniqueWidgetValue(ws: seq<Widget>, j: nat)
    requires UniqueNames(ws) && j < |ws|
    ensures ws[j].name in WidgetValues(ws) && WidgetValues(ws)[ws[j].name] == ws[j].value
  {
    WidgetValuesMeaning(ws);
    assert LastIndex(ws, ws[j].name) == j;
  }
}

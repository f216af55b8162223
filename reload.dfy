/**
 * "Reload Connected Node": every node fed by output 0 of a source node is
 * destroyed and replaced by a fresh node of the same type that carries over
 * its position, size, properties, colours, title, widget values and
 * connections. The two extensions that offer the action
 * (js/folder_browser.js and js/destroy_and_recreate.js) carry identical
 * copies of this routine.
 */
module Reload {
  import opened JsValues
  import opened Widgets
  import opened HostGraph
  import opened HostLinks

  // ---------------------------------------------------------------------------
  // The replacement node's body
  // ---------------------------------------------------------------------------

  /**
   * `JSON.parse(JSON.stringify(props))` on a bag of primitive values: a key
   * holding `undefined` is dropped, every other entry is kept as it is.
   */
  function JsonClone(props: map<string, Value>): (r: map<string, Value>)
    ensures forall k :: k in r ==> r[k] != Undefined
    ensures forall k :: Get(r, k) == Get(props, k)
  {
    map k | k in props && props[k] != Undefined :: props[k]
  }

  /** A property bag survives a second JSON round trip unchanged. */
  lemma JsonCloneIdempotent(props: map<string, Value>)
    ensures JsonClone(JsonClone(props)) == JsonClone(props)
  {
  }

  /** `if (prev.x) node.x = prev.x`. */
  function CopyIfTruthy(v: Value, dflt: Value): Value
  {
    if Truthy(v) then v else dflt
  }

  /**
   * The body the replacement node ends up with: the body `built` by the factory,
   * with the old node's position, size and cloned properties, its colours
   * and title where those are set, and its widget values copied by name.
   */
  function Recreated(prev: Body, built: Body): Body
  {
    built.(pos := prev.pos,
           size := prev.size,
           properties := JsonClone(prev.properties),
           color := CopyIfTruthy(prev.color, built.color),
           bgcolor := CopyIfTruthy(prev.bgcolor, built.bgcolor),
           title := CopyIfTruthy(prev.title, built.title),
           widgets := CopiedByName(prev.widgets, built.widgets))
  }

  /**
   * What the replacement keeps of the old node: type, geometry, every
   * property as read back, each colour and the title whenever it was set;
   * and when the built node has the same widgets as the old one (same names
   * in the same order, no name twice), every widget value.
   */
  lemma RecreatedKeeps(prev: Body, built: Body)
    requires built.nodeType == prev.nodeType
    ensures var b := Recreated(prev, built);
            && b.nodeType == prev.nodeType && b.pos == prev.pos && b.size == prev.size
            && (forall k :: Get(b.properties, k) == Get(prev.properties, k))
            && (Truthy(prev.color) ==> b.color == prev.color)
            && (Truthy(prev.bgcolor) ==> b.bgcolor == prev.bgcolor)
            && (Truthy(prev.title) ==> b.title == prev.title)
            && SameShape(b.widgets, built.widgets)
    ensures SameShape(prev.widgets, built.widgets) && UniqueNames(prev.widgets) ==>
              Recreated(prev, built).widgets == prev.widgets
  {
    var b := Recreated(prev, built);
    if SameShape(prev.widgets, built.widgets) && UniqueNames(prev.widgets) {
      forall j | 0 <= j < |built.widgets|
        ensures b.widgets[j] == prev.widgets[j]
      {
        var n := built.widgets[j].name;
        assert prev.widgets[j].name == n;
        assert LastIndex(prev.widgets, n) == j;
        assert FindName(built.widgets, n) == j by {
          SameShapeFind(prev.widgets, built.widgets, n);
          assert FindName(prev.widgets, n) == j;
        }
        CopiedByNameFacts(prev.widgets, built.widgets, j);
      }
    }
  }

  /** Where a settable field is unset on the old node, the built node's own value stays. */
  lemma RecreatedDefaults(prev: Body, built: Body)
    ensures var b := Recreated(prev, built);
            && (!Truthy(prev.color) ==> b.color == built.color)
            && (!Truthy(prev.bgcolor) ==> b.bgcolor == built.bgcolor)
            && (!Truthy(prev.title) ==> b.title == built.title)
  {
  }

  // ---------------------------------------------------------------------------
  // Re-attaching connections
  // ---------------------------------------------------------------------------

  /**
   * If input `i` of the old node `prev` was fed, according to `links`, from
   * another node, then `links'` feeds input `i` of node `newId` from the same
   * output of that node, whenever both of those slots exist in `nodes'`.
   */
  ghost predicate InputReattached(prev: Node, links: map<int, Link>, newId: int,
                                  nodes': map<int, Node>, links': map<int, Link>, i: int)
    requires 0 <= i < |prev.inputs|
  {
    prev.inputs[i].link.LinkTo? && prev.inputs[i].link.id in links ==>
      var from := links[prev.inputs[i].link.id];
      var again := Link(from.originId, from.originSlot, newId, i);
      from.originId != prev.id && CanAttach(nodes', again) ==> HasLink(links', again)
  }

  /** `InputReattached` for each of the first `upTo` inputs of the old node `prev`. */
  ghost predicate InputsReattached(prev: Node, links: map<int, Link>, newId: int,
                                   nodes': map<int, Node>, links': map<int, Link>, upTo: int)
  {
    forall i :: 0 <= i < |prev.inputs| && i < upTo ==> InputReattached(prev, links, newId, nodes', links', i)
  }

  /**
   * Each link of `ls` that, according to `links`, leads from the old node
   * `oldId` to another node is matched in `links'` by a link from output `i`
   * of node `newId` to the same input, whenever both of those slots exist in
   * `nodes'`.
   */
  ghost predicate LinksReattached(ls: seq<int>, links: map<int, Link>, oldId: int, newId: int, i: int,
                                  nodes': map<int, Node>, links': map<int, Link>)
  {
    forall l :: l in ls && l in links ==>
      var to := links[l];
      var again := Link(newId, i, to.targetId, to.targetSlot);
      to.targetId != oldId && CanAttach(nodes', again) ==> HasLink(links', again)
  }

  /** `LinksReattached` for the links of each of the first `upTo` outputs of the old node `prev`. */
  ghost predicate OutputsReattached(prev: Node, links: map<int, Link>, newId: int,
                                    nodes': map<int, Node>, links': map<int, Link>, upTo: int)
  {
    forall i :: 0 <= i < |prev.outputs| && i < upTo ==>
      LinksReattached(prev.outputs[i].links, links, prev.id, newId, i, nodes', links')
  }

  /** Links that do not touch node `gone` survive from `links` to `links'`, unchanged. */
  predicate LinksKeptApart(links: map<int, Link>, links': map<int, Link>, gone: int)
  {
    forall l :: l in links && !Touches(links[l], gone) ==> l in links' && links'[l] == links[l]
  }

  /**
   * Re-attachment survives a later step that keeps the bodies and slot counts
   * of the nodes it keeps, adds no node, and keeps every link that does not
   * touch the old node.
   */
  lemma CarriedFacts(oldId: int, n1: map<int, Node>, l1: map<int, Link>, n2: map<int, Node>, l2: map<int, Link>)
    requires n2.Keys <= n1.Keys && FramesKept(n1, n2) && LinksKeptApart(l1, l2, oldId)
    ensures forall again: Link :: again.originId != oldId && again.targetId != oldId && HasLink(l1, again) ==> HasLink(l2, again)
    ensures forall again: Link :: CanAttach(n2, again) ==> CanAttach(n1, again)
  {
    forall again: Link | again.originId != oldId && again.targetId != oldId && HasLink(l1, again)
      ensures HasLink(l2, again)
    {
      var l :| l in l1 && l1[l] == again;
      assert l in l2 && l2[l] == again;
    }
    forall again: Link | CanAttach(n2, again)
      ensures CanAttach(n1, again)
    {
      assert SameFrame(n1, n2, again.targetId) && SameFrame(n1, n2, again.originId);
    }
  }

  lemma LinksReattachedCarried(ls: seq<int>, links: map<int, Link>, oldId: int, newId: int, i: int,
                               n1: map<int, Node>, l1: map<int, Link>, n2: map<int, Node>, l2: map<int, Link>)
    requires newId != oldId
    requires n2.Keys <= n1.Keys && FramesKept(n1, n2) && LinksKeptApart(l1, l2, oldId)
    requires LinksReattached(ls, links, oldId, newId, i, n1, l1)
    ensures LinksReattached(ls, links, oldId, newId, i, n2, l2)
  {
    CarriedFacts(oldId, n1, l1, n2, l2);
  }

  lemma ReattachedCarried(prev: Node, links: map<int, Link>, newId: int,
                          n1: map<int, Node>, l1: map<int, Link>, n2: map<int, Node>, l2: map<int, Link>,
                          ins: int, outs: int)
    requires newId != prev.id
    requires n2.Keys <= n1.Keys && FramesKept(n1, n2) && LinksKeptApart(l1, l2, prev.id)
    requires InputsReattached(prev, links, newId, n1, l1, ins)
    requires OutputsReattached(prev, links, newId, n1, l1, outs)
    ensures InputsReattached(prev, links, newId, n2, l2, ins)
    ensures OutputsReattached(prev, links, newId, n2, l2, outs)
  {
    CarriedFacts(prev.id, n1, l1, n2, l2);
    forall i | 0 <= i < |prev.inputs| && i < ins
      ensures InputReattached(prev, links, newId, n2, l2, i)
    {
      assert InputReattached(prev, links, newId, n1, l1, i);
    }
    forall i | 0 <= i < |prev.outputs| && i < outs
      ensures LinksReattached(prev.outputs[i].links, links, prev.id, newId, i, n2, l2)
    {
      LinksReattachedCarried(prev.outputs[i].links, links, prev.id, newId, i, n1, l1, n2, l2);
    }
  }

  /**
   * Re-attachment stated for a later view of a link list (which may have
   * gained links) and of the link table (which kept every earlier link)
   * holds for the earlier view too.
   */
  lemma LinksReattachedEarlier(ls: seq<int>, links: map<int, Link>, laterLs: seq<int>, laterLinks: map<int, Link>,
                               oldId: int, newId: int, i: int, nodes': map<int, Node>, links': map<int, Link>)
    requires forall l :: l in ls ==> l in laterLs
    requires LinksKept(links, laterLinks)
    requires LinksReattached(laterLs, laterLinks, oldId, newId, i, nodes', links')
    ensures LinksReattached(ls, links, oldId, newId, i, nodes', links')
  {
    forall l | l in ls && l in links
      ensures var to := links[l];
              var again := Link(newId, i, to.targetId, to.targetSlot);
              to.targetId != oldId && CanAttach(nodes', again) ==> HasLink(links', again)
    {
      assert l in laterLs && laterLinks[l] == links[l];
    }
  }

  lemma OutputsReattachedEarlier(prev: Node, links: map<int, Link>, later: Node, laterLinks: map<int, Link>,
                                 newId: int, nodes': map<int, Node>, links': map<int, Link>, upTo: int)
    requires later.id == prev.id && |later.outputs| == |prev.outputs|
    requires forall i, l :: 0 <= i < |prev.outputs| && l in prev.outputs[i].links ==> l in later.outputs[i].links
    requires LinksKept(links, laterLinks)
    requires OutputsReattached(later, laterLinks, newId, nodes', links', upTo)
    ensures OutputsReattached(prev, links, newId, nodes', links', upTo)
  {
    forall i | 0 <= i < |prev.outputs| && i < upTo
      ensures LinksReattached(prev.outputs[i].links, links, prev.id, newId, i, nodes', links')
    {
      LinksReattachedEarlier(prev.outputs[i].links, links, later.outputs[i].links, laterLinks,
                             prev.id, newId, i, nodes', links');
    }
  }

  lemma InputReattachedEarlier(prev: Node, links: map<int, Link>, later: Node, laterLinks: map<int, Link>,
                               newId: int, nodes': map<int, Node>, links': map<int, Link>, i: int)
    requires later.id == prev.id && later.inputs == prev.inputs && 0 <= i < |prev.inputs|
    requires LinksKept(links, laterLinks)
    requires InputReattached(later, laterLinks, newId, nodes', links', i)
    ensures InputReattached(prev, links, newId, nodes', links', i)
  {
  }

  lemma InputsReattachedExtend(prev: Node, links: map<int, Link>, newId: int,
                               nodes': map<int, Node>, links': map<int, Link>, i: int)
    requires 0 <= i < |prev.inputs|
    requires InputsReattached(prev, links, newId, nodes', links', i)
    requires InputReattached(prev, links, newId, nodes', links', i)
    ensures InputsReattached(prev, links, newId, nodes', links', i + 1)
  {
  }

  /**
   * Step 5 of the refresh, for input `i`: if the old node's input holds a
   * link (`input.link !== null`), the same origin slot is connected to input
   * `i` of the new node.
   */
  method ReconnectInput(g: Graph, oldId: int, newId: int, i: nat)
    requires g.Valid() && oldId in g.nodes && newId in g.nodes && oldId != newId
    requires i < |g.nodes[oldId].inputs|
    modifies g
    ensures g.Valid()
    ensures g.nodes.Keys == old(g.nodes).Keys && FramesKept(old(g.nodes), g.nodes) && LinksKept(old(g.links), g.links)
    ensures g.nodes[oldId].inputs == old(g.nodes[oldId].inputs)
    ensures forall id :: id in g.nodes ==> OutputsGrew(old(g.nodes), g.nodes, id)
    ensures InputReattached(old(g.nodes[oldId]), old(g.links), newId, g.nodes, g.links, i)
    ensures forall k :: 0 <= k < |g.nodes[newId].inputs| && k != i ==> g.nodes[newId].inputs[k] == old(g.nodes[newId].inputs[k])
    ensures WellLinked(old(g.nodes), old(g.links)) &&
            (i < |old(g.nodes[newId].inputs)| ==> old(g.nodes[newId].inputs[i].link) == NullLink) ==>
              WellLinked(g.nodes, g.links)
    ensures g.lastLinkId >= old(g.lastLinkId) && LinksEvolved(old(g.links), g.links, old(g.lastLinkId))
    ensures g.lastNodeId == old(g.lastNodeId) && g.dirtyMarks == old(g.dirtyMarks)
  {
    var input := g.nodes[oldId].inputs[i];
    assert NodeOk(g.nodes[oldId], oldId, g.registry.Keys, g.lastNodeId, g.links.Keys);
    assert g.nodes[oldId].id == oldId;
    assert InputResolves(g.nodes[oldId].inputs[i], g.links.Keys);
    if input.link != NullLink {
      var inputLink := g.links[input.link.id];
      assert LinkOk(g.links[input.link.id], input.link.id, g.lastLinkId, g.nodes.Keys);
      ghost var nodes0, links0 := g.nodes, g.links;
      var made := g.Connect(inputLink.originId, inputLink.originSlot, newId, i);
      var again := Link(inputLink.originId, inputLink.originSlot, newId, i);
      if CanAttach(g.nodes, again) {
        assert SameFrame(nodes0, g.nodes, newId) && SameFrame(nodes0, g.nodes, again.originId);
        assert HasLink(g.links, again);
      }
      if made.Some? {
        AttachedFrame(nodes0, again, made.value, newId);
        if WellLinked(nodes0, links0) && nodes0[newId].inputs[i].link == NullLink {
          LinkedAttach(nodes0, links0, {}, again, made.value);
        }
      }
    }
  }

  /** Step 5 of the refresh: `ReconnectInput` for every input of the old node, in order. */
  method ReconnectInputs(g: Graph, oldId: int, newId: int)
    requires g.Valid() && oldId in g.nodes && newId in g.nodes && oldId != newId
    requires forall k :: 0 <= k < |g.nodes[newId].inputs| ==> g.nodes[newId].inputs[k].link == NullLink
    modifies g
    ensures g.Valid()
    ensures g.nodes.Keys == old(g.nodes).Keys && FramesKept(old(g.nodes), g.nodes) && LinksKept(old(g.links), g.links)
    ensures g.nodes[oldId].inputs == old(g.nodes[oldId].inputs)
    ensures forall id :: id in g.nodes ==> OutputsGrew(old(g.nodes), g.nodes, id)
    ensures InputsReattached(old(g.nodes[oldId]), old(g.links), newId, g.nodes, g.links, |old(g.nodes[oldId]).inputs|)
    ensures WellLinked(old(g.nodes), old(g.links)) ==> WellLinked(g.nodes, g.links)
    ensures g.lastLinkId >= old(g.lastLinkId) && LinksEvolved(old(g.links), g.links, old(g.lastLinkId))
    ensures g.lastNodeId == old(g.lastNodeId) && g.dirtyMarks == old(g.dirtyMarks)
  {
    ghost var prev := g.nodes[oldId];
    assert NodeOk(g.nodes[oldId], oldId, g.registry.Keys, g.lastNodeId, g.links.Keys);
    var count := |g.nodes[oldId].inputs|;
    for i := 0 to count
      invariant g.Valid() && g.nodes.Keys == old(g.nodes).Keys
      invariant FramesKept(old(g.nodes), g.nodes) && LinksKept(old(g.links), g.links)
      invariant g.nodes[oldId].inputs == prev.inputs
      invariant forall id :: id in g.nodes ==> OutputsGrew(old(g.nodes), g.nodes, id)
      invariant InputsReattached(prev, old(g.links), newId, g.nodes, g.links, i)
      invariant forall k :: i <= k < |g.nodes[newId].inputs| ==> g.nodes[newId].inputs[k].link == NullLink
      invariant WellLinked(old(g.nodes), old(g.links)) ==> WellLinked(g.nodes, g.links)
      invariant g.lastLinkId >= old(g.lastLinkId) && LinksEvolved(old(g.links), g.links, old(g.lastLinkId))
      invariant g.lastNodeId == old(g.lastNodeId) && g.dirtyMarks == old(g.dirtyMarks)
    {
      ghost var nodes0, links0 := g.nodes, g.links;
      ghost var current := g.nodes[oldId];
      ReconnectInput(g, oldId, newId, i);
      assert SameFrame(nodes0, g.nodes, newId);
      FramesTrans(old(g.nodes), nodes0, g.nodes);
      GrewTrans(old(g.nodes), nodes0, g.nodes);
      ReattachedCarried(prev, old(g.links), newId, nodes0, links0, g.nodes, g.links, i, 0);
      InputReattachedEarlier(prev, old(g.links), current, links0, newId, g.nodes, g.links, i);
      InputsReattachedExtend(prev, old(g.links), newId, g.nodes, g.links, i);
    }
  }

  /** The link list `ls` extended by link `l`, whose re-attachment holds. */
  lemma LinksReattachedExtend(ls: seq<int>, l: int, links: map<int, Link>, oldId: int, newId: int, i: int,
                              nodes': map<int, Node>, links': map<int, Link>)
    requires l in links
    requires LinksReattached(ls, links, oldId, newId, i, nodes', links')
    requires CanAttach(nodes', Link(newId, i, links[l].targetId, links[l].targetSlot)) ==>
               HasLink(links', Link(newId, i, links[l].targetId, links[l].targetSlot))
    ensures LinksReattached(ls + [l], links, oldId, newId, i, nodes', links')
  {
  }

  /**
   * One link of step 6: the new node's output `i` is connected to the
   * target input of link `l` as the table holds it now.
   */
  method ReconnectOutputLink(g: Graph, oldId: int, newId: int, i: nat, l: int, ghost j: nat)
    requires g.Valid() && oldId in g.nodes && newId in g.nodes && oldId != newId && l in g.links
    requires i < |g.nodes[oldId].outputs| && j < |g.nodes[oldId].outputs[i].links|
    requires g.nodes[oldId].outputs[i].links[j] == l
    modifies g
    ensures g.Valid()
    ensures g.nodes.Keys == old(g.nodes).Keys && FramesKept(old(g.nodes), g.nodes) && LinksKept(old(g.links), g.links)
    ensures g.nodes[oldId].outputs == old(g.nodes[oldId].outputs)
    ensures var to := old(g.links)[l];
            var again := Link(newId, i, to.targetId, to.targetSlot);
            CanAttach(g.nodes, again) ==> HasLink(g.links, again)
    ensures LinkedApart(old(g.nodes), old(g.links), {oldId}) &&
            HeldFrom(old(g.nodes), old(g.links), old(g.nodes[oldId].outputs), i, j) ==>
              LinkedApart(g.nodes, g.links, {oldId}) && HeldFrom(g.nodes, g.links, old(g.nodes[oldId].outputs), i, j + 1)
    ensures g.lastLinkId >= old(g.lastLinkId) && LinksEvolved(old(g.links), g.links, old(g.lastLinkId))
    ensures g.lastNodeId == old(g.lastNodeId) && g.dirtyMarks == old(g.dirtyMarks)
  {
    var outLink := g.links[l];
    assert LinkOk(g.links[l], l, g.lastLinkId, g.nodes.Keys);
    ghost var nodes0, links0 := g.nodes, g.links;
    var made := g.Connect(newId, i, outLink.targetId, outLink.targetSlot);
    var again := Link(newId, i, outLink.targetId, outLink.targetSlot);
    if CanAttach(g.nodes, again) {
      assert SameFrame(nodes0, g.nodes, newId) && SameFrame(nodes0, g.nodes, again.targetId);
    }
    if made.Some? {
      if LinkedApart(nodes0, links0, {oldId}) && HeldFrom(nodes0, links0, nodes0[oldId].outputs, i, j) {
        LinkedDisplace(nodes0, links0, {oldId}, oldId, i, j, again, made.value);
      }
    }
  }

  /**
   * Step 6 of the refresh, for output `i`: for each link the old node's
   * output listed when the step began, the new node's output `i` is
   * connected to the same target input.
   */
  method ReconnectOutput(g: Graph, oldId: int, newId: int, i: nat)
    requires g.Valid() && oldId in g.nodes && newId in g.nodes && oldId != newId
    requires i < |g.nodes[oldId].outputs|
    modifies g
    ensures g.Valid()
    ensures g.nodes.Keys == old(g.nodes).Keys && FramesKept(old(g.nodes), g.nodes) && LinksKept(old(g.links), g.links)
    ensures g.nodes[oldId].outputs == old(g.nodes[oldId].outputs)
    ensures LinksReattached(old(g.nodes[oldId].outputs[i].links), old(g.links), oldId, newId, i, g.nodes, g.links)
    ensures LinkedApart(old(g.nodes), old(g.links), {oldId}) &&
            HeldFrom(old(g.nodes), old(g.links), old(g.nodes[oldId].outputs), i, 0) ==>
              LinkedApart(g.nodes, g.links, {oldId}) && HeldFrom(g.nodes, g.links, old(g.nodes[oldId].outputs), i + 1, 0)
    ensures g.lastLinkId >= old(g.lastLinkId) && LinksEvolved(old(g.links), g.links, old(g.lastLinkId))
    ensures g.lastNodeId == old(g.lastNodeId) && g.dirtyMarks == old(g.dirtyMarks)
  {
    ghost var outs := g.nodes[oldId].outputs;
    ghost var linked := LinkedApart(g.nodes, g.links, {oldId}) && HeldFrom(g.nodes, g.links, outs, i, 0);
    var outputLinkIds := g.nodes[oldId].outputs[i].links;
    assert NodeOk(g.nodes[oldId], oldId, g.registry.Keys, g.lastNodeId, g.links.Keys);
    assert OutputResolves(g.nodes[oldId].outputs[i], g.links.Keys);
    for j := 0 to |outputLinkIds|
      invariant g.Valid() && g.nodes.Keys == old(g.nodes).Keys
      invariant FramesKept(old(g.nodes), g.nodes) && LinksKept(old(g.links), g.links)
      invariant g.nodes[oldId].outputs == old(g.nodes[oldId].outputs)
      invariant LinksReattached(outputLinkIds[..j], old(g.links), oldId, newId, i, g.nodes, g.links)
      invariant linked ==> LinkedApart(g.nodes, g.links, {oldId}) && HeldFrom(g.nodes, g.links, outs, i, j)
      invariant g.lastLinkId >= old(g.lastLinkId) && LinksEvolved(old(g.links), g.links, old(g.lastLinkId))
      invariant g.lastNodeId == old(g.lastNodeId) && g.dirtyMarks == old(g.dirtyMarks)
    {
      ghost var nodes0, links0 := g.nodes, g.links;
      var outLinkId := outputLinkIds[j];
      assert outputLinkIds[..j + 1] == outputLinkIds[..j] + [outLinkId];
      assert outLinkId in old(g.links);
      ReconnectOutputLink(g, oldId, newId, i, outLinkId, j);
      LinksReattachedCarried(outputLinkIds[..j], old(g.links), oldId, newId, i, nodes0, links0, g.nodes, g.links);
      LinksReattachedExtend(outputLinkIds[..j], outLinkId, old(g.links), oldId, newId, i, g.nodes, g.links);
    }
    assert outputLinkIds[..|outputLinkIds|] == outputLinkIds;
    if linked {
      HeldFromNext(g.nodes, g.links, outs, i);
    }
  }

  lemma OutputsReattachedExtend(prev: Node, links: map<int, Link>, newId: int,
                                nodes': map<int, Node>, links': map<int, Link>, i: int)
    requires 0 <= i < |prev.outputs|
    requires OutputsReattached(prev, links, newId, nodes', links', i)
    requires LinksReattached(prev.outputs[i].links, links, prev.id, newId, i, nodes', links')
    ensures OutputsReattached(prev, links, newId, nodes', links', i + 1)
  {
  }

  /** Step 6 of the refresh: `ReconnectOutput` for every output of the old node, in order. */
  method ReconnectOutputs(g: Graph, oldId: int, newId: int)
    requires g.Valid() && oldId in g.nodes && newId in g.nodes && oldId != newId
    modifies g
    ensures g.Valid()
    ensures g.nodes.Keys == old(g.nodes).Keys && FramesKept(old(g.nodes), g.nodes) && LinksKept(old(g.links), g.links)
    ensures OutputsReattached(old(g.nodes[oldId]), old(g.links), newId, g.nodes, g.links, |old(g.nodes[oldId]).outputs|)
    ensures WellLinked(old(g.nodes), old(g.links)) ==> LinkedApart(g.nodes, g.links, {oldId})
    ensures g.lastLinkId >= old(g.lastLinkId) && LinksEvolved(old(g.links), g.links, old(g.lastLinkId))
    ensures g.lastNodeId == old(g.lastNodeId) && g.dirtyMarks == old(g.dirtyMarks)
  {
    ghost var prev := g.nodes[oldId];
    ghost var linked := WellLinked(g.nodes, g.links);
    if linked {
      HeldFromStart(g.nodes, g.links, oldId);
      LinkedApartWiden(g.nodes, g.links, {}, {oldId});
    }
    assert NodeOk(g.nodes[oldId], oldId, g.registry.Keys, g.lastNodeId, g.links.Keys);
    var count := |g.nodes[oldId].outputs|;
    for i := 0 to count
      invariant g.Valid() && g.nodes.Keys == old(g.nodes).Keys
      invariant FramesKept(old(g.nodes), g.nodes) && LinksKept(old(g.links), g.links)
      invariant g.nodes[oldId].outputs == prev.outputs
      invariant OutputsReattached(prev, old(g.links), newId, g.nodes, g.links, i)
      invariant linked ==> LinkedApart(g.nodes, g.links, {oldId}) && HeldFrom(g.nodes, g.links, prev.outputs, i, 0)
      invariant g.lastLinkId >= old(g.lastLinkId) && LinksEvolved(old(g.links), g.links, old(g.lastLinkId))
      invariant g.lastNodeId == old(g.lastNodeId) && g.dirtyMarks == old(g.dirtyMarks)
    {
      ghost var nodes0, links0 := g.nodes, g.links;
      ReconnectOutput(g, oldId, newId, i);
      FramesTrans(old(g.nodes), nodes0, g.nodes);
      ReattachedCarried(prev, old(g.links), newId, nodes0, links0, g.nodes, g.links, 0, i);
      LinksReattachedEarlier(prev.outputs[i].links, old(g.links), prev.outputs[i].links, links0,
                             oldId, newId, i, g.nodes, g.links);
      OutputsReattachedExtend(prev, old(g.links), newId, g.nodes, g.links, i);
    }
  }

  lemma EvolvedTrans(a: map<int, Link>, b: map<int, Link>, c: map<int, Link>, lastA: int, lastB: int)
    requires LinksEvolved(a, b, lastA) && LinksEvolved(b, c, lastB) && lastA <= lastB
    ensures LinksEvolved(a, c, lastA)
  {
  }

  /**
   * What steps 5 to 7 of the refresh (`n1` to `n2` to `n3` to `n4`, with link
   * tables `l1` to `l4`) add up to, seen from the graph `n0`/`l0` before the
   * replacement node was added at `n1`.
   */
  lemma RecreateComposed(prev: Node, newId: int,
                         n0: map<int, Node>, l0: map<int, Link>, last0: int, n1: map<int, Node>,
                         n2: map<int, Node>, l2: map<int, Link>, last2: int,
                         n3: map<int, Node>, l3: map<int, Link>, last3: int,
                         n4: map<int, Node>, l4: map<int, Link>)
    requires prev.id in n0 && n0[prev.id] == prev && newId !in n0 && newId != prev.id
    requires newId in n1 && n1 == n0[newId := n1[newId]]
    requires n2.Keys == n1.Keys && FramesKept(n1, n2) && LinksKept(l0, l2)
    requires OutputsGrew(n1, n2, prev.id) && n2[prev.id].id == prev.id
    requires InputsReattached(prev, l0, newId, n2, l2, |prev.inputs|)
    requires LinksEvolved(l0, l2, last0) && last0 <= last2
    requires n3.Keys == n2.Keys && FramesKept(n2, n3) && LinksKept(l2, l3)
    requires OutputsReattached(n2[prev.id], l2, newId, n3, l3, |n2[prev.id].outputs|)
    requires LinksEvolved(l2, l3, last2) && last2 <= last3
    requires n4.Keys == n3.Keys - {prev.id} && FramesKept(n3, n4)
    requires l4 == l3 - Dropped(l3, prev.id)
    ensures n4.Keys == n0.Keys - {prev.id} + {newId}
    ensures newId in n4 && n4[newId].body == n1[newId].body
    ensures FramesKept(n0, n4)
    ensures InputsReattached(prev, l0, newId, n4, l4, |prev.inputs|)
    ensures OutputsReattached(prev, l0, newId, n4, l4, |prev.outputs|)
    ensures LinksKeptApart(l0, l4, prev.id)
    ensures forall l :: l in l0 && Touches(l0[l], prev.id) ==> l !in l4
    ensures LinksEvolved(l0, l4, last0)
  {
    assert FramesKept(n0, n1) by {
      forall id | id in n0 && id in n1 ensures SameFrame(n0, n1, id) {
        assert id != newId && n1[id] == n0[id];
      }
    }
    assert SameFrame(n1, n2, newId) && SameFrame(n2, n3, newId) && SameFrame(n3, n4, newId);
    FramesTrans(n0, n1, n2);
    FramesTrans(n0, n2, n3);
    FramesTrans(n0, n3, n4);
    ReattachedCarried(prev, l0, newId, n2, l2, n3, l3, |prev.inputs|, 0);
    assert SameFrame(n1, n2, prev.id);
    OutputsReattachedEarlier(prev, l0, n2[prev.id], l2, newId, n3, l3, |prev.outputs|);
    ReattachedCarried(prev, l0, newId, n3, l3, n4, l4, |prev.inputs|, |prev.outputs|);
    EvolvedTrans(l0, l2, l3, last0, last2);
  }

  /**
   * Steps 1 to 4 of the refresh: a node of the old node's type is created,
   * given the old node's geometry, cloned properties, colours and title,
   * added to the graph, and given the old node's widget values by name.
   */
  method AddReplacement(g: Graph, oldId: int) returns (newId: int)
    requires g.Valid() && oldId in g.nodes
    modifies g
    ensures g.Valid()
    ensures newId == old(g.lastNodeId) + 1 == g.lastNodeId && newId !in old(g.nodes)
    ensures old(g.nodes[oldId].body.nodeType) in g.registry
    ensures newId in g.nodes && g.nodes == old(g.nodes)[newId := g.nodes[newId]]
    ensures g.nodes[newId].body == Recreated(old(g.nodes[oldId].body), g.CreateNode(old(g.nodes[oldId].body.nodeType)).body)
    ensures Unlinked(g.nodes[newId])
    ensures WellLinked(old(g.nodes), old(g.links)) ==> WellLinked(g.nodes, g.links)
    ensures g.links == old(g.links) && g.lastLinkId == old(g.lastLinkId) && g.dirtyMarks == old(g.dirtyMarks)
  {
    var prev := g.nodes[oldId];
    assert NodeOk(g.nodes[oldId], oldId, g.registry.Keys, g.lastNodeId, g.links.Keys);
    // 1-2. create the node and carry the old node's settings over
    var built := g.CreateNode(prev.body.nodeType);
    var body := built.body.(pos := prev.body.pos,
                            size := prev.body.size,
                            properties := JsonClone(prev.body.properties),
                            color := CopyIfTruthy(prev.body.color, built.body.color),
                            bgcolor := CopyIfTruthy(prev.body.bgcolor, built.body.bgcolor),
                            title := CopyIfTruthy(prev.body.title, built.body.title));
    // 3. both nodes are in the graph from here on
    ghost var nodes0, links0 := g.nodes, g.links;
    newId := g.Add(built.(body := body));
    ghost var nodes1 := g.nodes;
    // 4. widget values, copied by name
    var widgets := CopyWidgetValues(prev.body.widgets, built.body.widgets);
    g.WriteBody(newId, body.(widgets := widgets));
    if WellLinked(nodes0, links0) {
      LinkedAdd(nodes0, links0, {}, newId, built.(body := body).(id := newId));
      LinkedSameSlots(nodes1, links0, {}, g.nodes);
    }
  }

  /**
   * Steps 1 to 7 of the refresh for one old node: a replacement of the same
   * type carrying the old node's body over (`Recreated`) is added, fed from
   * every origin the old node was fed from and connected to every target the
   * old node fed, and then the old node is removed.
   */
  method Recreate(g: Graph, oldId: int) returns (newId: int)
    requires g.Valid() && oldId in g.nodes
    modifies g
    ensures g.Valid()
    ensures newId == old(g.lastNodeId) + 1 == g.lastNodeId && newId !in old(g.nodes)
    ensures g.nodes.Keys == old(g.nodes).Keys - {oldId} + {newId}
    ensures old(g.nodes[oldId].body.nodeType) in g.registry
    ensures g.nodes[newId].body == Recreated(old(g.nodes[oldId].body), g.CreateNode(old(g.nodes[oldId].body.nodeType)).body)
    ensures FramesKept(old(g.nodes), g.nodes)
    ensures InputsReattached(old(g.nodes[oldId]), old(g.links), newId, g.nodes, g.links, |old(g.nodes[oldId]).inputs|)
    ensures OutputsReattached(old(g.nodes[oldId]), old(g.links), newId, g.nodes, g.links, |old(g.nodes[oldId]).outputs|)
    ensures LinksKeptApart(old(g.links), g.links, oldId)
    ensures forall l :: l in old(g.links) && Touches(old(g.links)[l], oldId) ==> l !in g.links
    ensures g.lastLinkId >= old(g.lastLinkId) && LinksEvolved(old(g.links), g.links, old(g.lastLinkId))
    ensures WellLinked(old(g.nodes), old(g.links)) ==> WellLinked(g.nodes, g.links)
    ensures g.dirtyMarks == old(g.dirtyMarks)
  {
    ghost var prev, n0, l0 := g.nodes[oldId], g.nodes, g.links;
    assert NodeOk(g.nodes[oldId], oldId, g.registry.Keys, g.lastNodeId, g.links.Keys);
    newId := AddReplacement(g, oldId);
    ghost var n1 := g.nodes;
    ReconnectInputs(g, oldId, newId);
    ghost var n2, l2, last2 := g.nodes, g.links, g.lastLinkId;
    assert NodeOk(n2[oldId], oldId, g.registry.Keys, g.lastNodeId, l2.Keys);
    assert OutputsGrew(n1, n2, oldId);
    ReconnectOutputs(g, oldId, newId);
    ghost var n3, l3, last3 := g.nodes, g.links, g.lastLinkId;
    g.Remove(oldId);
    if WellLinked(n0, l0) {
      LinkedRemove(n3, l3, oldId);
    }
    RecreateComposed(prev, newId, n0, l0, old(g.lastLinkId), n1, n2, l2, last2, n3, l3, last3, g.nodes, g.links);
  }

  // ---------------------------------------------------------------------------
  // The whole action
  // ---------------------------------------------------------------------------

  /** The link ids listed on output 0 of the source node (none if it has no outputs). */
  function Snapshot(source: Node): (ids: seq<int>)
    ensures |source.outputs| == 0 ==> ids == []
    ensures 0 < |source.outputs| ==> ids == source.outputs[0].links
  {
    if |source.outputs| == 0 then [] else source.outputs[0].links
  }

  /** The nodes the links of `ids` lead to, according to `links`. */
  function TargetsOf(ids: seq<int>, links: map<int, Link>): (ts: set<int>)
    ensures forall l :: l in ids && l in links ==> links[l].targetId in ts
    ensures forall t :: t in ts ==> exists l :: l in ids && l in links && links[l].targetId == t
  {
    set l | l in ids && l in links :: links[l].targetId
  }

  /** The body `Recreate` gives the replacement of `prev`. */
  function RecreatedBody(registry: map<string, Template>, prev: Node): Body
    requires prev.body.nodeType in registry
  {
    Recreated(prev.body, Instantiate(prev.body.nodeType, registry[prev.body.nodeType]).body)
  }

  /** Every link of `links` that touches none of `gone` survives in `links'`, unchanged. */
  predicate LinksKeptClear(links: map<int, Link>, links': map<int, Link>, gone: seq<int>)
  {
    forall l :: l in links && links[l].originId !in gone && links[l].targetId !in gone ==>
      l in links' && links'[l] == links[l]
  }

  /** Every link of `links` that touches one of `gone` is absent from `links'`. */
  predicate LinksDropped(links: map<int, Link>, links': map<int, Link>, gone: seq<int>)
  {
    forall l :: l in links && (links[l].originId in gone || links[l].targetId in gone) ==> l !in links'
  }

  /** The nodes `replaced` are distinct nodes of `n0`, none of them in `nodes`. */
  predicate ReplacedGone(n0: map<int, Node>, nodes: map<int, Node>, replaced: seq<int>)
  {
    && (forall i, j :: 0 <= i < j < |replaced| ==> replaced[i] != replaced[j])
    && (forall j :: 0 <= j < |replaced| ==> replaced[j] in n0 && replaced[j] !in nodes)
  }

  /** The nodes of `nodes`: those of `n0` not replaced, and the ids handed out after `lastNode0`. */
  ghost predicate NodesAfter(n0: map<int, Node>, nodes: map<int, Node>, lastNode0: int, replaced: seq<int>)
  {
    forall id :: id in nodes <==> (id in n0 && id !in replaced) || lastNode0 < id <= lastNode0 + |replaced|
  }

  /**
   * Node `lastNode0 + j + 1`, when present, is the replacement of the `j`-th
   * replaced node and carries its body over.
   */
  predicate Replacements(registry: map<string, Template>, n0: map<int, Node>, nodes: map<int, Node>,
                         lastNode0: int, replaced: seq<int>)
  {
    forall id :: id in nodes && lastNode0 < id <= lastNode0 + |replaced| ==>
      var was := replaced[id - lastNode0 - 1];
      was in n0 && n0[was].body.nodeType in registry && nodes[id].body == RecreatedBody(registry, n0[was])
  }

  /**
   * The graph `nodes`/`links` is the graph `n0`/`l0` after the nodes
   * `replaced` were recreated, in that order: they are distinct nodes of
   * `n0`, all gone; the `j`-th replacement is the node numbered
   * `lastNode0 + j + 1` and carries the `j`-th old node's body over; every
   * other node keeps its body and slot counts; every link touching a
   * replaced node is gone, every other old link is kept, and every new link
   * is numbered above `lastLink0`.
   */
  ghost predicate Progress(registry: map<string, Template>,
                           n0: map<int, Node>, l0: map<int, Link>, lastNode0: int, lastLink0: int,
                           nodes: map<int, Node>, links: map<int, Link>, lastNodeId: int, lastLinkId: int,
                           replaced: seq<int>)
  {
    && ReplacedGone(n0, nodes, replaced)
    && Replacements(registry, n0, nodes, lastNode0, replaced)
    && lastNodeId == lastNode0 + |replaced|
    && NodesAfter(n0, nodes, lastNode0, replaced)
    && FramesKept(n0, nodes)
    && LinksEvolved(l0, links, lastLink0) && lastLinkId >= lastLink0
    && LinksKeptClear(l0, links, replaced)
    && LinksDropped(l0, links, replaced)
  }

  lemma ReplacementsStep(registry: map<string, Template>, n0: map<int, Node>, lastNode0: int,
                         n1: map<int, Node>, replaced: seq<int>, oldId: int, n2: map<int, Node>)
    requires Replacements(registry, n0, n1, lastNode0, replaced)
    requires oldId in n0 && n0[oldId].body.nodeType in registry
    requires oldId <= lastNode0 && n2.Keys <= n1.Keys + {lastNode0 + |replaced| + 1}
    requires FramesKept(n1, n2)
    requires lastNode0 + |replaced| + 1 in n2
    requires n2[lastNode0 + |replaced| + 1].body == RecreatedBody(registry, n0[oldId])
    ensures Replacements(registry, n0, n2, lastNode0, replaced + [oldId])
  {
    var replaced' := replaced + [oldId];
    forall id | id in n2 && lastNode0 < id <= lastNode0 + |replaced'|
      ensures var was := replaced'[id - lastNode0 - 1];
              was in n0 && n0[was].body.nodeType in registry && n2[id].body == RecreatedBody(registry, n0[was])
    {
      if id < lastNode0 + |replaced'| {
        assert replaced'[id - lastNode0 - 1] == replaced[id - lastNode0 - 1];
        assert SameFrame(n1, n2, id);
      }
    }
  }

  lemma LinksStep(l0: map<int, Link>, lastLink0: int, l1: map<int, Link>, lastL1: int, replaced: seq<int>,
                  oldId: int, l2: map<int, Link>)
    requires forall l :: l in l0 ==> l <= lastLink0
    requires LinksEvolved(l0, l1, lastLink0) && lastL1 >= lastLink0
    requires LinksKeptClear(l0, l1, replaced) && LinksDropped(l0, l1, replaced)
    requires LinksKeptApart(l1, l2, oldId)
    requires forall l :: l in l1 && Touches(l1[l], oldId) ==> l !in l2
    requires LinksEvolved(l1, l2, lastL1)
    ensures LinksEvolved(l0, l2, lastLink0)
    ensures LinksKeptClear(l0, l2, replaced + [oldId]) && LinksDropped(l0, l2, replaced + [oldId])
  {
    EvolvedTrans(l0, l1, l2, lastLink0, lastL1);
  }

  /**
   * Facts about the graph `n0`/`l0` before the action that a consistent graph
   * guarantees: ids never exceed the last ones handed out, every node is of a
   * registered type, every link's target exists.
   */
  ghost predicate Baseline(registry: map<string, Template>, n0: map<int, Node>, l0: map<int, Link>,
                           lastNode0: int, lastLink0: int)
  {
    && (forall id :: id in n0 ==> id <= lastNode0 && n0[id].body.nodeType in registry)
    && (forall l :: l in l0 ==> l <= lastLink0 && l0[l].targetId in n0)
  }

  lemma BaselineHolds(registry: map<string, Template>, nodes: map<int, Node>, links: map<int, Link>,
                      lastNodeId: int, lastLinkId: int)
    requires Consistent(registry.Keys, nodes, links, lastNodeId, lastLinkId)
    ensures Baseline(registry, nodes, links, lastNodeId, lastLinkId)
  {
    forall id | id in nodes ensures id <= lastNodeId && nodes[id].body.nodeType in registry {
      assert NodeOk(nodes[id], id, registry.Keys, lastNodeId, links.Keys);
    }
    forall l | l in links ensures l <= lastLinkId && links[l].targetId in nodes {
      assert LinkOk(links[l], l, lastLinkId, nodes.Keys);
    }
  }

  /** Before any node is recreated, the graph is its own starting point. */
  lemma ProgressStart(registry: map<string, Template>, n0: map<int, Node>, l0: map<int, Link>,
                      lastNode0: int, lastLink0: int)
    ensures Progress(registry, n0, l0, lastNode0, lastLink0, n0, l0, lastNode0, lastLink0, [])
  {
  }

  /** One more node recreated (the outcome `Recreate` promises) extends `Progress`. */
  lemma ProgressStep(registry: map<string, Template>,
                     n0: map<int, Node>, l0: map<int, Link>, lastNode0: int, lastLink0: int,
                     n1: map<int, Node>, l1: map<int, Link>, lastN1: int, lastL1: int, replaced: seq<int>,
                     oldId: int, newId: int,
                     n2: map<int, Node>, l2: map<int, Link>, lastN2: int, lastL2: int)
    requires Baseline(registry, n0, l0, lastNode0, lastLink0)
    requires Progress(registry, n0, l0, lastNode0, lastLink0, n1, l1, lastN1, lastL1, replaced)
    requires oldId in n1 && oldId in n0
    requires newId == lastN1 + 1 == lastN2 && newId !in n1
    requires n2.Keys == n1.Keys - {oldId} + {newId}
    requires n2[newId].body == RecreatedBody(registry, n1[oldId])
    requires FramesKept(n1, n2)
    requires LinksKeptApart(l1, l2, oldId)
    requires forall l :: l in l1 && Touches(l1[l], oldId) ==> l !in l2
    requires LinksEvolved(l1, l2, lastL1) && lastL2 >= lastL1
    ensures Progress(registry, n0, l0, lastNode0, lastLink0, n2, l2, lastN2, lastL2, replaced + [oldId])
  {
    assert oldId !in replaced;
    assert SameFrame(n0, n1, oldId);
    ReplacementsStep(registry, n0, lastNode0, n1, replaced, oldId, n2);
    FramesTrans(n0, n1, n2);
    LinksStep(l0, lastLink0, l1, lastL1, replaced, oldId, l2);
  }

  /**
   * Why a link of the snapshot is passed over: it is gone only if an end of
   * it was recreated, and its target is gone only if that target was.
   */
  lemma SkipReason(registry: map<string, Template>, n0: map<int, Node>, l0: map<int, Link>, lastNode0: int, lastLink0: int,
                   nodes: map<int, Node>, links: map<int, Link>, replaced: seq<int>, linkId: int)
    requires Baseline(registry, n0, l0, lastNode0, lastLink0)
    requires linkId in l0
    requires NodesAfter(n0, nodes, lastNode0, replaced) && LinksKeptClear(l0, links, replaced)
    ensures linkId !in links ==> l0[linkId].originId in replaced || l0[linkId].targetId in replaced
    ensures linkId in links && links[linkId] == l0[linkId] && l0[linkId].targetId !in nodes ==>
              l0[linkId].targetId in replaced
  {
  }

  /** Each of the first `k` links of `ids` found in `links` has an end among `replaced`. */
  predicate Covered(ids: seq<int>, links: map<int, Link>, k: int, replaced: seq<int>)
    requires 0 <= k <= |ids|
  {
    forall m :: 0 <= m < k && ids[m] in links ==>
      links[ids[m]].targetId in replaced || links[ids[m]].originId in replaced
  }

  lemma CoveredStep(ids: seq<int>, links: map<int, Link>, k: int, replaced: seq<int>, replaced': seq<int>)
    requires 0 <= k < |ids| && Covered(ids, links, k, replaced)
    requires forall r :: r in replaced ==> r in replaced'
    requires ids[k] in links ==> links[ids[k]].targetId in replaced' || links[ids[k]].originId in replaced'
    ensures Covered(ids, links, k + 1, replaced')
  {
  }

  /** Every link of the snapshot found in `links` has an end among `replaced`. */
  lemma CoveredAll(ids: seq<int>, links: map<int, Link>, replaced: seq<int>)
    requires Covered(ids, links, |ids|, replaced)
    ensures forall l :: l in ids && l in links ==> links[l].targetId in replaced || links[l].originId in replaced
  {
    forall l | l in ids && l in links
      ensures links[l].targetId in replaced || links[l].originId in replaced
    {
      var m :| 0 <= m < |ids| && ids[m] == l;
    }
  }

  /**
   * The nodes the pass recreates, in order, while it handles the first `k`
   * links of the snapshot `ids` (`l0` is the link table when it starts): a
   * link of `l0` neither of whose ends has been recreated yet still exists,
   * and its target is recreated next; any other link is passed over.
   */
  function Recreations(ids: seq<int>, l0: map<int, Link>, k: nat): seq<int>
    requires k <= |ids|
  {
    if k == 0 then []
    else
      var done := Recreations(ids, l0, k - 1);
      var l := ids[k - 1];
      if l in l0 && l0[l].originId !in done && l0[l].targetId !in done then done + [l0[l].targetId] else done
  }

  /** One more link of the snapshot: its target is recreated exactly when neither end was before. */
  lemma RecreationsNext(ids: seq<int>, l0: map<int, Link>, k: nat, done: seq<int>, recreated: bool, next: seq<int>)
    requires k < |ids| && ids[k] in l0 && done == Recreations(ids, l0, k)
    requires recreated ==> next == done + [l0[ids[k]].targetId] && l0[ids[k]].originId !in done && l0[ids[k]].targetId !in done
    requires !recreated ==> next == done && (l0[ids[k]].originId in done || l0[ids[k]].targetId in done)
    ensures next == Recreations(ids, l0, k + 1)
  {
  }

  /**
   * The pass recreates no node twice, at most one node per link, and only
   * targets of snapshot links.
   */
  lemma {:induction false} RecreationsFacts(ids: seq<int>, l0: map<int, Link>, k: nat)
    requires k <= |ids|
    ensures var r := Recreations(ids, l0, k);
            && |r| <= k
            && (forall a, b :: 0 <= a < b < |r| ==> r[a] != r[b])
            && (forall x :: x in r ==> exists m :: 0 <= m < k && ids[m] in l0 && l0[ids[m]].targetId == x)
  {
    if k > 0 {
      RecreationsFacts(ids, l0, k - 1);
      var done := Recreations(ids, l0, k - 1);
      var l := ids[k - 1];
      if l in l0 && l0[l].originId !in done && l0[l].targetId !in done {
        var r := done + [l0[l].targetId];
        forall a, b | 0 <= a < b < |r| ensures r[a] != r[b] {
          if b == |done| {
            assert r[a] == done[a] && done[a] in done;
          } else {
            assert r[a] == done[a] && r[b] == done[b];
          }
        }
        forall x | x in r ensures exists m :: 0 <= m < k && ids[m] in l0 && l0[ids[m]].targetId == x {
          if x in done {
            var m :| 0 <= m < k - 1 && ids[m] in l0 && l0[ids[m]].targetId == x;
            assert 0 <= m < k;
          } else {
            assert ids[k - 1] in l0 && l0[ids[k - 1]].targetId == x;
          }
        }
      } else {
        forall x | x in done ensures exists m :: 0 <= m < k && ids[m] in l0 && l0[ids[m]].targetId == x {
          var m :| 0 <= m < k - 1 && ids[m] in l0 && l0[ids[m]].targetId == x;
          assert 0 <= m < k;
        }
      }
    }
  }

  /** After the first `k` links, each of them that was in `l0` has an end the pass recreated. */
  lemma {:induction false} RecreationsCovered(ids: seq<int>, l0: map<int, Link>, k: nat)
    requires k <= |ids|
    ensures Covered(ids, l0, k, Recreations(ids, l0, k))
  {
    if k > 0 {
      RecreationsCovered(ids, l0, k - 1);
      CoveredStep(ids, l0, k - 1, Recreations(ids, l0, k - 1), Recreations(ids, l0, k));
    }
  }

  /**
   * Two links from the source to nodes 2 and 3 recreate 2 and then 3; when
   * the second link instead leads back into the source node 1, the pass
   * recreates 2 and then the source itself.
   */
  lemma RecreationsExamples()
    ensures Recreations([10, 11], map[10 := Link(1, 0, 2, 0), 11 := Link(1, 0, 3, 0)], 2) == [2, 3]
    ensures Recreations([10, 11], map[10 := Link(1, 0, 2, 0), 11 := Link(1, 0, 1, 0)], 2) == [2, 1]
  {
    var l1 := map[10 := Link(1, 0, 2, 0), 11 := Link(1, 0, 3, 0)];
    var l2 := map[10 := Link(1, 0, 2, 0), 11 := Link(1, 0, 1, 0)];
    assert Recreations([10, 11], l1, 1) == [2];
    assert Recreations([10, 11], l2, 1) == [2];
  }

  // ---------------------------------------------------------------------------
  // Where the links of the graph before the action end up
  // ---------------------------------------------------------------------------

  /** The position of the first occurrence of `x` in `s`. */
  function IndexOf(s: seq<int>, x: int): (k: nat)
    requires x in s
    ensures k < |s| && s[k] == x && forall j :: 0 <= j < k ==> s[j] != x
  {
    if s[0] == x then 0 else IndexOf(s[1..], x) + 1
  }

  /** The first occurrence of `x` in `s` is the only one with no `x` before it. */
  lemma IndexOfUnique(s: seq<int>, x: int, k: int)
    requires 0 <= k < |s| && s[k] == x && forall j :: 0 <= j < k ==> s[j] != x
    ensures IndexOf(s, x) == k
  {
  }

  /**
   * Where node `x` of the graph before the action is after it: the `j`-th
   * recreated node is replaced by node `lastNode0 + j + 1`, every other node
   * stays where it is.
   */
  function ImageOf(x: int, lastNode0: int, replaced: seq<int>): int
  {
    if x in replaced then lastNode0 + IndexOf(replaced, x) + 1 else x
  }

  /** Link `k` with both of its ends moved to where their nodes are after the action. */
  function Image(k: Link, lastNode0: int, replaced: seq<int>): Link
  {
    Link(ImageOf(k.originId, lastNode0, replaced), k.originSlot, ImageOf(k.targetId, lastNode0, replaced), k.targetSlot)
  }

  /**
   * Every link of `l0` between two different nodes is matched in `links` by
   * its image, the link between the same slots of the nodes its ends became,
   * whenever both of those slots exist in `nodes`.
   */
  ghost predicate Reattached(l0: map<int, Link>, lastNode0: int, replaced: seq<int>,
                             nodes: map<int, Node>, links: map<int, Link>)
  {
    forall l :: l in l0 && l0[l].originId != l0[l].targetId && CanAttach(nodes, Image(l0[l], lastNode0, replaced)) ==>
      HasLink(links, Image(l0[l], lastNode0, replaced))
  }

  /** Before any node is recreated every link is its own image. */
  lemma ReattachedStart(l0: map<int, Link>, lastNode0: int, nodes: map<int, Node>)
    ensures Reattached(l0, lastNode0, [], nodes, l0)
  {
    forall l | l in l0 ensures Image(l0[l], lastNode0, []) == l0[l] { }
  }

  /**
   * Recreating one more node, `oldId`, moves it to node
   * `lastNode0 + |replaced| + 1` and moves no other node.
   */
  lemma ImageShift(lastNode0: int, replaced: seq<int>, oldId: int, x: int)
    requires oldId !in replaced
    ensures ImageOf(x, lastNode0, replaced + [oldId]) ==
              if x == oldId then lastNode0 + |replaced| + 1 else ImageOf(x, lastNode0, replaced)
  {
    var r := replaced + [oldId];
    if x in replaced {
      IndexOfUnique(r, x, IndexOf(replaced, x));
    } else if x == oldId {
      IndexOfUnique(r, x, |replaced|);
    }
  }

  /**
   * The image of a node of `n0`, before `oldId` is recreated, is neither the
   * next replacement nor (unless it is `oldId` itself) `oldId`.
   */
  lemma ImageBelow(n0: map<int, Node>, lastNode0: int, replaced: seq<int>, oldId: int, x: int)
    requires forall id :: id in n0 ==> id <= lastNode0
    requires x in n0 && oldId in n0 && oldId !in replaced && x != oldId
    ensures ImageOf(x, lastNode0, replaced) < lastNode0 + |replaced| + 1
    ensures ImageOf(x, lastNode0, replaced) != oldId
  {
  }

  /** `ReattachedStep` for one link `k` of `l0`, whose image before the step is `img`. */
  lemma ReattachedStepLink(n0: map<int, Node>, lastNode0: int, replaced: seq<int>, k: Link, img: Link,
                           n1: map<int, Node>, l1: map<int, Link>, oldId: int, newId: int,
                           n2: map<int, Node>, l2: map<int, Link>)
    requires forall id :: id in n0 ==> id <= lastNode0
    requires k.originId in n0 && k.targetId in n0 && k.originId != k.targetId
    requires 0 <= k.originSlot < |n0[k.originId].outputs| && 0 <= k.targetSlot < |n0[k.targetId].inputs|
    requires img == Image(k, lastNode0, replaced)
    requires oldId in n0 && oldId !in replaced && oldId in n1 && n1[oldId].id == oldId && SameFrame(n0, n1, oldId)
    requires newId == lastNode0 + |replaced| + 1 && newId !in n1
    requires CanAttach(n1, img) ==> HasLink(l1, img)
    requires WellLinked(n1, l1)
    requires n2.Keys == n1.Keys - {oldId} + {newId} && FramesKept(n1, n2)
    requires InputsReattached(n1[oldId], l1, newId, n2, l2, |n1[oldId].inputs|)
    requires OutputsReattached(n1[oldId], l1, newId, n2, l2, |n1[oldId].outputs|)
    requires LinksKeptApart(l1, l2, oldId)
    requires CanAttach(n2, Image(k, lastNode0, replaced + [oldId]))
    ensures HasLink(l2, Image(k, lastNode0, replaced + [oldId]))
  {
    ImageShift(lastNode0, replaced, oldId, k.originId);
    ImageShift(lastNode0, replaced, oldId, k.targetId);
    var prev := n1[oldId];
    if k.targetId == oldId {
      ImageBelow(n0, lastNode0, replaced, oldId, k.originId);
      assert SameFrame(n1, n2, img.originId);
      var m :| m in l1 && l1[m] == img;
      assert Referenced(n1, l1, m);
      assert InputReattached(prev, l1, newId, n2, l2, k.targetSlot);
    } else if k.originId == oldId {
      ImageBelow(n0, lastNode0, replaced, oldId, k.targetId);
      assert SameFrame(n1, n2, img.targetId);
      var m :| m in l1 && l1[m] == img;
      assert Referenced(n1, l1, m);
      assert LinksReattached(prev.outputs[k.originSlot].links, l1, oldId, newId, k.originSlot, n2, l2);
    } else {
      ImageBelow(n0, lastNode0, replaced, oldId, k.originId);
      ImageBelow(n0, lastNode0, replaced, oldId, k.targetId);
      assert SameFrame(n1, n2, img.originId) && SameFrame(n1, n2, img.targetId);
      var m :| m in l1 && l1[m] == img;
      assert m in l2 && l2[m] == img;
    }
  }

  /**
   * One more node recreated (the outcome `Recreate` promises, in a graph
   * whose slots and links agree) keeps every link of `l0` re-attached.
   */
  lemma ReattachedStep(registry: map<string, Template>,
                       n0: map<int, Node>, l0: map<int, Link>, lastNode0: int, lastLink0: int,
                       n1: map<int, Node>, l1: map<int, Link>, lastN1: int, lastL1: int, replaced: seq<int>,
                       oldId: int, newId: int, n2: map<int, Node>, l2: map<int, Link>)
    requires Baseline(registry, n0, l0, lastNode0, lastLink0) && WellLinked(n0, l0)
    requires Progress(registry, n0, l0, lastNode0, lastLink0, n1, l1, lastN1, lastL1, replaced)
    requires WellLinked(n1, l1) && Reattached(l0, lastNode0, replaced, n1, l1)
    requires oldId in n1 && oldId in n0 && n1[oldId].id == oldId
    requires newId == lastN1 + 1 && newId !in n1
    requires n2.Keys == n1.Keys - {oldId} + {newId} && FramesKept(n1, n2)
    requires InputsReattached(n1[oldId], l1, newId, n2, l2, |n1[oldId].inputs|)
    requires OutputsReattached(n1[oldId], l1, newId, n2, l2, |n1[oldId].outputs|)
    requires LinksKeptApart(l1, l2, oldId)
    ensures Reattached(l0, lastNode0, replaced + [oldId], n2, l2)
  {
    assert oldId !in replaced && SameFrame(n0, n1, oldId);
    forall l | l in l0 && l0[l].originId != l0[l].targetId && CanAttach(n2, Image(l0[l], lastNode0, replaced + [oldId]))
      ensures HasLink(l2, Image(l0[l], lastNode0, replaced + [oldId]))
    {
      assert Referenced(n0, l0, l);
      ReattachedStepLink(n0, lastNode0, replaced, l0[l], Image(l0[l], lastNode0, replaced),
                         n1, l1, oldId, newId, n2, l2);
    }
  }

  /**
   * Where the pass stands after the first `k` links of the snapshot `ids`:
   * the graph has progressed from its state at the start by recreating
   * `replaced`, which is what `Recreations` says; on a graph whose slots and links agreed at the start they
   * still agree and every connection is re-made.
   */
  ghost predicate PassState(registry: map<string, Template>, ids: seq<int>,
                            n0: map<int, Node>, l0: map<int, Link>, lastNode0: int, lastLink0: int,
                            nodes: map<int, Node>, links: map<int, Link>, lastNodeId: int, lastLinkId: int,
                            k: int)
  {
    && 0 <= k <= |ids|
    && Consistent(registry.Keys, nodes, links, lastNodeId, lastLinkId)
    && Progress(registry, n0, l0, lastNode0, lastLink0, nodes, links, lastNodeId, lastLinkId, Recreations(ids, l0, k))
    && (WellLinked(n0, l0) ==>
          WellLinked(nodes, links) && Reattached(l0, lastNode0, Recreations(ids, l0, k), nodes, links))
  }

  /**
   * The body of the `forEach` over the snapshot, for one link id: if the
   * link still exists (`graph.links[linkId]`) and so does its target node
   * (`graph.getNodeById`), the target is recreated. That happens exactly
   * when neither end of the link was recreated earlier in the pass.
   */
  method ReloadLink(g: Graph, ghost ids: seq<int>, ghost k: int, linkId: int,
                    ghost n0: map<int, Node>, ghost l0: map<int, Link>, ghost lastNode0: int, ghost lastLink0: int)
    returns (recreated: bool)
    requires Baseline(g.registry, n0, l0, lastNode0, lastLink0)
    requires 0 <= k < |ids| && ids[k] == linkId && linkId in l0
    requires PassState(g.registry, ids, n0, l0, lastNode0, lastLink0, g.nodes, g.links, g.lastNodeId, g.lastLinkId, k)
    modifies g
    ensures PassState(g.registry, ids, n0, l0, lastNode0, lastLink0, g.nodes, g.links, g.lastNodeId, g.lastLinkId, k + 1)
    ensures recreated <==>
              l0[linkId].originId !in Recreations(ids, l0, k) && l0[linkId].targetId !in Recreations(ids, l0, k)
    ensures |Recreations(ids, l0, k + 1)| == |Recreations(ids, l0, k)| + if recreated then 1 else 0
    ensures g.dirtyMarks == old(g.dirtyMarks)
  {
    ghost var replaced := Recreations(ids, l0, k);
    ghost var replaced' := replaced;
    recreated := false;
    SkipReason(g.registry, n0, l0, lastNode0, lastLink0, g.nodes, g.links, replaced, linkId);
    if linkId in g.links {
      var link := g.links[linkId];
      if link.targetId in g.nodes {
        var oldId := link.targetId;
        ghost var n1, l1, lastN1, lastL1 := g.nodes, g.links, g.lastNodeId, g.lastLinkId;
        assert oldId !in replaced;
        assert SameFrame(n0, n1, oldId);
        var newId := Recreate(g, oldId);
        ProgressStep(g.registry, n0, l0, lastNode0, lastLink0,
                     n1, l1, lastN1, lastL1, replaced, oldId, newId, g.nodes, g.links, g.lastNodeId, g.lastLinkId);
        if WellLinked(n0, l0) && WellLinked(n1, l1) && Reattached(l0, lastNode0, replaced, n1, l1) {
          assert NodeOk(n1[oldId], oldId, g.registry.Keys, lastN1, l1.Keys);
          ReattachedStep(g.registry, n0, l0, lastNode0, lastLink0, n1, l1, lastN1, lastL1, replaced,
                         oldId, newId, g.nodes, g.links);
        }
        recreated, replaced' := true, replaced + [oldId];
      }
    }
    RecreationsNext(ids, l0, k, replaced, recreated, replaced');
  }

  /**
   * The `forEach` over the snapshot `linkIds`: `ReloadLink` for each link id
   * in order, counting the recreated nodes.
   */
  method ReloadLinks(g: Graph, linkIds: seq<int>, ghost n0: map<int, Node>, ghost l0: map<int, Link>,
                     ghost lastNode0: int, ghost lastLink0: int)
    returns (reloaded: nat)
    requires Baseline(g.registry, n0, l0, lastNode0, lastLink0)
    requires forall l :: l in linkIds ==> l in l0
    requires PassState(g.registry, linkIds, n0, l0, lastNode0, lastLink0, g.nodes, g.links, g.lastNodeId, g.lastLinkId, 0)
    modifies g
    ensures PassState(g.registry, linkIds, n0, l0, lastNode0, lastLink0,
                      g.nodes, g.links, g.lastNodeId, g.lastLinkId, |linkIds|)
    ensures reloaded == |Recreations(linkIds, l0, |linkIds|)| && g.dirtyMarks == old(g.dirtyMarks)
  {
    reloaded := 0;
    // Compared with `true`, the pass state is kept as one fact rather than
    // re-proved conjunct by conjunct after every link.
    for k := 0 to |linkIds|
      invariant PassState(g.registry, linkIds, n0, l0, lastNode0, lastLink0,
                          g.nodes, g.links, g.lastNodeId, g.lastLinkId, k) == true
      invariant reloaded == |Recreations(linkIds, l0, k)| && g.dirtyMarks == old(g.dirtyMarks)
    {
      var recreated := ReloadLink(g, linkIds, k, linkIds[k], n0, l0, lastNode0, lastLink0);
      if recreated {
        reloaded := reloaded + 1;
      }
    }
  }

  /**
   * `reloadConnectedNode(sourceNode)`: the link ids on output 0 of the
   * source node are read once; for each, in order, whose link still exists
   * and whose target node still exists, that target is recreated. The
   * canvas is marked dirty once if anything was recreated. `replaced` lists
   * the recreated nodes; `reloaded` is the source's `reloadedCount`.
   */
  method ReloadConnectedNode(g: Graph, sourceId: int) returns (reloaded: nat, ghost replaced: seq<int>)
    requires g.Valid() && sourceId in g.nodes
    modifies g
    ensures g.Valid()
    ensures reloaded == |replaced| <= |Snapshot(old(g.nodes[sourceId]))|
    ensures Progress(g.registry, old(g.nodes), old(g.links), old(g.lastNodeId), old(g.lastLinkId),
                     g.nodes, g.links, g.lastNodeId, g.lastLinkId, replaced)
    ensures forall r :: r in replaced ==> r in TargetsOf(Snapshot(old(g.nodes[sourceId])), old(g.links))
    ensures Covered(Snapshot(old(g.nodes[sourceId])), old(g.links), |Snapshot(old(g.nodes[sourceId]))|, replaced)
    ensures replaced == Recreations(Snapshot(old(g.nodes[sourceId])), old(g.links), |Snapshot(old(g.nodes[sourceId]))|)
    ensures WellLinked(old(g.nodes), old(g.links)) ==>
              WellLinked(g.nodes, g.links) && Reattached(old(g.links), old(g.lastNodeId), replaced, g.nodes, g.links)
    ensures |Snapshot(old(g.nodes[sourceId]))| == 0 ==> reloaded == 0 && g.nodes == old(g.nodes) && g.links == old(g.links)
    ensures g.dirtyMarks == old(g.dirtyMarks) + (if reloaded > 0 then 1 else 0)
  {
    reloaded, replaced := 0, [];
    ghost var n0, l0, lastNode0, lastLink0 := g.nodes, g.links, g.lastNodeId, g.lastLinkId;
    ProgressStart(g.registry, n0, l0, lastNode0, lastLink0);
    ReattachedStart(l0, lastNode0, n0);
    var source := g.nodes[sourceId];
    if |source.outputs| == 0 || |source.outputs[0].links| == 0 {
      return;
    }
    var linkIds := source.outputs[0].links;
    assert NodeOk(source, sourceId, g.registry.Keys, g.lastNodeId, g.links.Keys);
    assert OutputResolves(source.outputs[0], g.links.Keys);
    BaselineHolds(g.registry, n0, l0, lastNode0, lastLink0);
    assert PassState(g.registry, linkIds, n0, l0, lastNode0, lastLink0, g.nodes, g.links, g.lastNodeId, g.lastLinkId, 0);
    reloaded := ReloadLinks(g, linkIds, n0, l0, lastNode0, lastLink0);
    replaced := Recreations(linkIds, l0, |linkIds|);
    RecreationsFacts(linkIds, l0, |linkIds|);
    RecreationsCovered(linkIds, l0, |linkIds|);
    forall r | r in replaced ensures r in TargetsOf(linkIds, l0) {
      var m :| 0 <= m < |linkIds| && linkIds[m] in l0 && l0[linkIds[m]].targetId == r;
      assert linkIds[m] in linkIds;
    }
    if reloaded > 0 {
      g.MarkDirty();
    }
  }
}

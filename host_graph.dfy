/**
 * The host editor's graph as the extensions see it: a table of nodes by id and
 * a table of links by id, plus the few host operations the extensions call
 * (`LiteGraph.createNode`, `graph.add`, `node.connect`, `graph.remove`,
 * `node.addInput`, `node.removeInput`, `setDirtyCanvas`). The host's own code
 * is not part of this model; each host operation is given the smallest
 * behaviour the extensions rely on, and `Graph.Valid` is the consistency the
 * host keeps between the two tables.
 */
module HostGraph {
  import opened JsValues
  import opened Widgets

  datatype Vec2 = Vec2(x: real, y: real)

  /**
   * `input.link`: `null` when the input is unconnected, otherwise a link id.
   * `undefined` is kept apart because the extensions test `!== null`, which
   * lets it through.
   */
  datatype LinkRef = NullLink | UndefinedLink | LinkTo(id: int)

  datatype Input = Input(name: string, slotType: string, link: LinkRef)

  /** An output slot and the ids of the links leaving it (an absent list is empty). */
  datatype Output = Output(name: string, slotType: string, links: seq<int>)

  /** A directed edge from an output slot of one node to an input slot of another. */
  datatype Link = Link(originId: int, originSlot: int, targetId: int, targetSlot: int)

  /** Everything about a node except its id and its slots. */
  datatype Body = Body(
    nodeType: string,
    pos: Vec2,
    size: Vec2,
    properties: map<string, Value>,
    color: Value,
    bgcolor: Value,
    title: Value,
    widgets: seq<Widget>)

  datatype Node = Node(id: int, body: Body, inputs: seq<Input>, outputs: seq<Output>)

  /** The name and type of a slot a node type declares. */
  datatype SlotSpec = SlotSpec(name: string, slotType: string)

  /** What a registered node type builds: its default body and its declared slots. */
  datatype Template = Template(body: Body, inputs: seq<SlotSpec>, outputs: seq<SlotSpec>)

  predicate Touches(l: Link, id: int)
  {
    l.originId == id || l.targetId == id
  }

  /** A node as the factory builds it: no input and no output is connected. */
  predicate Unlinked(n: Node)
  {
    && (forall i :: 0 <= i < |n.inputs| ==> n.inputs[i].link == NullLink)
    && (forall i :: 0 <= i < |n.outputs| ==> n.outputs[i].links == [])
  }

  /** `LiteGraph.createNode(type)`: a node of that type with the template's body and unconnected slots. */
  function Instantiate(nodeType: string, t: Template): (n: Node)
    ensures n.body == t.body.(nodeType := nodeType) && Unlinked(n)
    ensures |n.inputs| == |t.inputs| && |n.outputs| == |t.outputs|
  {
    Node(0, t.body.(nodeType := nodeType),
         seq(|t.inputs|, i requires 0 <= i < |t.inputs| => Input(t.inputs[i].name, t.inputs[i].slotType, NullLink)),
         seq(|t.outputs|, i requires 0 <= i < |t.outputs| => Output(t.outputs[i].name, t.outputs[i].slotType, [])))
  }

  predicate InputResolves(inp: Input, live: set<int>)
  {
    inp.link != UndefinedLink && (inp.link.LinkTo? ==> inp.link.id in live)
  }

  predicate OutputResolves(out: Output, live: set<int>)
  {
    forall l :: l in out.links ==> l in live
  }

  /** Every link a node's slots refer to is in `live`, and no input link is `undefined`. */
  predicate SlotsResolve(n: Node, live: set<int>)
  {
    && (forall i :: 0 <= i < |n.inputs| ==> InputResolves(n.inputs[i], live))
    && (forall i :: 0 <= i < |n.outputs| ==> OutputResolves(n.outputs[i], live))
  }

  /** A node filed under `id` in a consistent graph. */
  predicate NodeOk(n: Node, id: int, types: set<string>, lastNodeId: int, live: set<int>)
  {
    id <= lastNodeId && n.id == id && n.body.nodeType in types && SlotsResolve(n, live)
  }

  /** A link filed under `l` in a consistent graph. */
  predicate LinkOk(link: Link, l: int, lastLinkId: int, ids: set<int>)
  {
    l <= lastLinkId && link.originId in ids && link.targetId in ids
  }

  /**
   * The host's consistency between the two tables: nodes are filed under
   * their ids and are of registered types; ids never exceed the last one
   * handed out; both ends of every link exist (no link dangles); and every
   * link a slot refers to exists, no input link being `undefined`.
   */
  ghost predicate Consistent(types: set<string>, nodes: map<int, Node>, links: map<int, Link>,
                             lastNodeId: int, lastLinkId: int)
  {
    && (forall id {:trigger nodes[id]} :: id in nodes ==> NodeOk(nodes[id], id, types, lastNodeId, links.Keys))
    && (forall l {:trigger links[l]} :: l in links ==> LinkOk(links[l], l, lastLinkId, nodes.Keys))
  }

  lemma ResolvesGrow(n: Node, live: set<int>, more: set<int>)
    requires SlotsResolve(n, live) && live <= more
    ensures SlotsResolve(n, more)
  {
    forall i | 0 <= i < |n.inputs| ensures InputResolves(n.inputs[i], more) {
      assert InputResolves(n.inputs[i], live);
    }
    forall i | 0 <= i < |n.outputs| ensures OutputResolves(n.outputs[i], more) {
      assert OutputResolves(n.outputs[i], live);
    }
  }

  // ---------------------------------------------------------------------------
  // Recording a new link on its two ends (`connect`)
  // ---------------------------------------------------------------------------

  /** Node `n` once input `slot` holds link `lid`. */
  function WithInputLink(n: Node, slot: nat, lid: int): (r: Node)
    requires slot < |n.inputs|
    ensures r.id == n.id && r.body == n.body && r.outputs == n.outputs && |r.inputs| == |n.inputs|
    ensures r.inputs[slot].link == LinkTo(lid)
  {
    n.(inputs := n.inputs[slot := n.inputs[slot].(link := LinkTo(lid))])
  }

  /** Node `n` once output `slot` also lists link `lid`. */
  function WithOutputLink(n: Node, slot: nat, lid: int): (r: Node)
    requires slot < |n.outputs|
    ensures r.id == n.id && r.body == n.body && r.inputs == n.inputs && |r.outputs| == |n.outputs|
    ensures r.outputs[slot].links == n.outputs[slot].links + [lid]
  {
    n.(outputs := n.outputs[slot := n.outputs[slot].(links := n.outputs[slot].links + [lid])])
  }

  lemma WithInputLinkResolves(n: Node, slot: nat, lid: int, live: set<int>)
    requires slot < |n.inputs| && SlotsResolve(n, live) && lid in live
    ensures SlotsResolve(WithInputLink(n, slot, lid), live)
  {
    var r := WithInputLink(n, slot, lid);
    forall i | 0 <= i < |r.inputs| ensures InputResolves(r.inputs[i], live) {
      assert InputResolves(n.inputs[i], live);
    }
  }

  lemma WithOutputLinkResolves(n: Node, slot: nat, lid: int, live: set<int>)
    requires slot < |n.outputs| && SlotsResolve(n, live) && lid in live
    ensures SlotsResolve(WithOutputLink(n, slot, lid), live)
  {
    var r := WithOutputLink(n, slot, lid);
    forall i | 0 <= i < |r.outputs| ensures OutputResolves(r.outputs[i], live) {
      assert OutputResolves(n.outputs[i], live);
    }
  }

  /** Whether `connect` can record `link`: both of its slots exist. */
  predicate CanAttach(nodes: map<int, Node>, link: Link)
  {
    && link.targetId in nodes && 0 <= link.targetSlot < |nodes[link.targetId].inputs|
    && link.originId in nodes && 0 <= link.originSlot < |nodes[link.originId].outputs|
  }

  /** The node table once link `lid` = `link` is recorded on both of its ends. */
  function Attached(nodes: map<int, Node>, link: Link, lid: int): (r: map<int, Node>)
    requires CanAttach(nodes, link)
    ensures r.Keys == nodes.Keys
  {
    var n1 := nodes[link.targetId := WithInputLink(nodes[link.targetId], link.targetSlot, lid)];
    n1[link.originId := WithOutputLink(n1[link.originId], link.originSlot, lid)]
  }

  /**
   * Recording a link changes no id, no body and no slot count, changes only
   * the inputs of its target and the outputs of its origin, and leaves the
   * target input holding the link and the origin output listing it last.
   */
  lemma AttachedFrame(nodes: map<int, Node>, link: Link, lid: int, id: int)
    requires CanAttach(nodes, link) && id in nodes
    ensures var r := Attached(nodes, link, lid);
            && r[id].id == nodes[id].id && r[id].body == nodes[id].body
            && |r[id].inputs| == |nodes[id].inputs| && |r[id].outputs| == |nodes[id].outputs|
            && (id != link.targetId ==> r[id].inputs == nodes[id].inputs)
            && (id != link.originId ==> r[id].outputs == nodes[id].outputs)
            && (id == link.targetId ==>
                  && r[id].inputs[link.targetSlot].link == LinkTo(lid)
                  && forall i :: 0 <= i < |r[id].inputs| && i != link.targetSlot ==> r[id].inputs[i] == nodes[id].inputs[i])
            && (id == link.originId ==>
                  && r[id].outputs[link.originSlot].links == nodes[id].outputs[link.originSlot].links + [lid]
                  && forall i :: 0 <= i < |r[id].outputs| && i != link.originSlot ==> r[id].outputs[i] == nodes[id].outputs[i])
  {
  }

  /** Node `id` keeps its body and the number of its slots from `before` to `after`. */
  predicate SameFrame(before: map<int, Node>, after: map<int, Node>, id: int)
    requires id in before && id in after
  {
    && after[id].body == before[id].body
    && |after[id].inputs| == |before[id].inputs|
    && |after[id].outputs| == |before[id].outputs|
  }

  /** Every link of `before` is still in `after`, unchanged. */
  predicate LinksKept(before: map<int, Link>, after: map<int, Link>)
  {
    forall l :: l in before ==> l in after && after[l] == before[l]
  }

  /** Some link of the table joins exactly these two slots. */
  predicate HasLink(links: map<int, Link>, link: Link)
  {
    exists l :: l in links && links[l] == link
  }

  lemma HasLinkKept(before: map<int, Link>, after: map<int, Link>, link: Link)
    requires LinksKept(before, after) && HasLink(before, link)
    ensures HasLink(after, link)
  {
    var l :| l in before && before[l] == link;
    assert l in after && after[l] == link;
  }

  /** Every node of `before` still in `after` keeps its body and the number of its slots. */
  predicate FramesKept(before: map<int, Node>, after: map<int, Node>)
  {
    forall id :: id in before && id in after ==> SameFrame(before, after, id)
  }

  /** Node `id` keeps its outputs, each of which may only have gained links. */
  predicate OutputsGrew(before: map<int, Node>, after: map<int, Node>, id: int)
    requires id in before && id in after
  {
    && |after[id].outputs| == |before[id].outputs|
    && forall i, l :: 0 <= i < |before[id].outputs| && l in before[id].outputs[i].links ==> l in after[id].outputs[i].links
  }

  lemma GrewTrans(a: map<int, Node>, b: map<int, Node>, c: map<int, Node>)
    requires b.Keys == a.Keys && c.Keys == b.Keys
    requires FramesKept(a, b) && FramesKept(b, c)
    requires forall id :: id in b ==> OutputsGrew(a, b, id)
    requires forall id :: id in c ==> OutputsGrew(b, c, id)
    ensures FramesKept(a, c) && forall id :: id in c ==> OutputsGrew(a, c, id)
  {
    forall id | id in c
      ensures SameFrame(a, c, id) && OutputsGrew(a, c, id)
    {
      assert SameFrame(a, b, id) && SameFrame(b, c, id);
      assert OutputsGrew(a, b, id) && OutputsGrew(b, c, id);
    }
  }

  lemma FramesTrans(a: map<int, Node>, b: map<int, Node>, c: map<int, Node>)
    requires FramesKept(a, b) && FramesKept(b, c)
    requires forall id :: id in a && id in c ==> id in b
    ensures FramesKept(a, c)
  {
    forall id | id in a && id in c
      ensures SameFrame(a, c, id)
    {
      assert SameFrame(a, b, id) && SameFrame(b, c, id);
    }
  }

  /** Every link of `after` is either one of `before`, unchanged, or numbered above `last`. */
  predicate LinksEvolved(before: map<int, Link>, after: map<int, Link>, last: int)
  {
    forall l :: l in after ==> (l in before && after[l] == before[l]) || l > last
  }

  /**
   * What recording a link leaves alone: every id, body and slot count; the
   * inputs of every node but the target; every link an output listed.
   */
  lemma AttachedFacts(nodes: map<int, Node>, link: Link, lid: int, nodes': map<int, Node>)
    requires CanAttach(nodes, link) && nodes' == Attached(nodes, link, lid)
    ensures nodes'.Keys == nodes.Keys && FramesKept(nodes, nodes')
    ensures forall id :: id in nodes' ==> nodes'[id].id == nodes[id].id
    ensures forall id :: id in nodes' && id != link.targetId ==> nodes'[id].inputs == nodes[id].inputs
    ensures forall id :: id in nodes' && id != link.originId ==> nodes'[id].outputs == nodes[id].outputs
    ensures forall id :: id in nodes' ==> OutputsGrew(nodes, nodes', id)
  {
    forall id | id in nodes'
      ensures SameFrame(nodes, nodes', id) && nodes'[id].id == nodes[id].id
      ensures id != link.targetId ==> nodes'[id].inputs == nodes[id].inputs
      ensures id != link.originId ==> nodes'[id].outputs == nodes[id].outputs
      ensures OutputsGrew(nodes, nodes', id)
    {
      AttachedFrame(nodes, link, lid, id);
      if id == link.originId {
        forall i, l | 0 <= i < |nodes[id].outputs| && l in nodes[id].outputs[i].links
          ensures l in nodes'[id].outputs[i].links
        {
          if i == link.originSlot {
            assert nodes'[id].outputs[i].links == nodes[id].outputs[i].links + [lid];
          }
        }
      }
    }
  }

  lemma AttachedNodeOk(types: set<string>, nodes: map<int, Node>, link: Link, lid: int,
                       lastNodeId: int, live: set<int>, id: int)
    requires CanAttach(nodes, link) && lid in live
    requires id in nodes && NodeOk(nodes[id], id, types, lastNodeId, live)
    requires NodeOk(nodes[link.targetId], link.targetId, types, lastNodeId, live)
    ensures NodeOk(Attached(nodes, link, lid)[id], id, types, lastNodeId, live)
  {
    var t := nodes[link.targetId];
    WithInputLinkResolves(t, link.targetSlot, lid, live);
    var n1 := nodes[link.targetId := WithInputLink(t, link.targetSlot, lid)];
    if id == link.originId {
      WithOutputLinkResolves(n1[id], link.originSlot, lid, live);
    }
  }

  /** Adding a link and recording it on its two ends keeps the tables consistent. */
  lemma AttachedConsistent(types: set<string>, nodes: map<int, Node>, links: map<int, Link>,
                           lastNodeId: int, lastLinkId: int, link: Link,
                           nodes': map<int, Node>, links': map<int, Link>)
    requires Consistent(types, nodes, links, lastNodeId, lastLinkId)
    requires CanAttach(nodes, link)
    requires nodes' == Attached(nodes, link, lastLinkId + 1) && links' == links[lastLinkId + 1 := link]
    ensures Consistent(types, nodes', links', lastNodeId, lastLinkId + 1)
  {
    var lid := lastLinkId + 1;
    var live := links.Keys + {lid};
    var after := Attached(nodes, link, lid);
    assert links[lid := link].Keys == live;
    ResolvesGrow(nodes[link.targetId], links.Keys, live);
    forall id | id in after
      ensures NodeOk(after[id], id, types, lastNodeId, live)
    {
      ResolvesGrow(nodes[id], links.Keys, live);
      AttachedNodeOk(types, nodes, link, lid, lastNodeId, live, id);
    }
  }

  // ---------------------------------------------------------------------------
  // Dropping links from every slot that refers to them (`remove`, `removeInput`)
  // ---------------------------------------------------------------------------

  /** `s` without the ids in `drop`, order kept. */
  function Without(s: seq<int>, drop: set<int>): (r: seq<int>)
    ensures forall l :: l in r <==> l in s && l !in drop
    ensures |r| <= |s|
  {
    if s == [] then []
    else (if s[0] in drop then [] else [s[0]]) + Without(s[1..], drop)
  }

  function ScrubInput(inp: Input, drop: set<int>): Input
  {
    if inp.link.LinkTo? && inp.link.id in drop then inp.(link := NullLink) else inp
  }

  /** A node with every reference to a link in `drop` cleared from its slots. */
  function Scrub(n: Node, drop: set<int>): (r: Node)
    ensures r.id == n.id && r.body == n.body
    ensures |r.inputs| == |n.inputs| && |r.outputs| == |n.outputs|
  {
    n.(inputs := seq(|n.inputs|, i requires 0 <= i < |n.inputs| => ScrubInput(n.inputs[i], drop)),
       outputs := seq(|n.outputs|, i requires 0 <= i < |n.outputs| =>
                        n.outputs[i].(links := Without(n.outputs[i].links, drop))))
  }

  lemma ScrubResolves(n: Node, live: set<int>, drop: set<int>)
    requires SlotsResolve(n, live)
    ensures SlotsResolve(Scrub(n, drop), live - drop)
  {
    var r := Scrub(n, drop);
    forall i | 0 <= i < |r.inputs|
      ensures InputResolves(r.inputs[i], live - drop)
    {
      assert r.inputs[i] == ScrubInput(n.inputs[i], drop);
      assert InputResolves(n.inputs[i], live);
    }
    forall i | 0 <= i < |r.outputs|
      ensures OutputResolves(r.outputs[i], live - drop)
    {
      assert r.outputs[i].links == Without(n.outputs[i].links, drop);
      assert OutputResolves(n.outputs[i], live);
    }
  }

  /** Every node with the links in `drop` cleared from its slots. */
  function ScrubAll(nodes: map<int, Node>, drop: set<int>): (r: map<int, Node>)
    ensures r.Keys == nodes.Keys
  {
    map id | id in nodes :: Scrub(nodes[id], drop)
  }

  /** The ids of the links that have `id` at either end. */
  function Dropped(links: map<int, Link>, id: int): (d: set<int>)
    ensures forall l :: l in d <==> l in links && Touches(links[l], id)
  {
    set l | l in links && Touches(links[l], id)
  }

  /** Dropping links and every reference to them keeps the tables consistent. */
  lemma ScrubAllConsistent(types: set<string>, nodes: map<int, Node>, links: map<int, Link>,
                           lastNodeId: int, lastLinkId: int, drop: set<int>)
    requires Consistent(types, nodes, links, lastNodeId, lastLinkId)
    ensures Consistent(types, ScrubAll(nodes, drop), links - drop, lastNodeId, lastLinkId)
  {
    var after := ScrubAll(nodes, drop);
    var live := (links - drop).Keys;
    assert live == links.Keys - drop;
    forall id | id in after
      ensures NodeOk(after[id], id, types, lastNodeId, live)
    {
      ScrubResolves(nodes[id], links.Keys, drop);
    }
  }

  /** Removing a node together with every link touching it keeps the tables consistent. */
  lemma DetachedConsistent(types: set<string>, nodes: map<int, Node>, links: map<int, Link>,
                           lastNodeId: int, lastLinkId: int, id: int)
    requires Consistent(types, nodes, links, lastNodeId, lastLinkId)
    ensures var drop := Dropped(links, id);
            Consistent(types, ScrubAll(nodes, drop) - {id}, links - drop, lastNodeId, lastLinkId)
  {
    var drop := Dropped(links, id);
    ScrubAllConsistent(types, nodes, links, lastNodeId, lastLinkId, drop);
    var after := ScrubAll(nodes, drop) - {id};
    forall l | l in links - drop
      ensures LinkOk((links - drop)[l], l, lastLinkId, after.Keys)
    {
      assert !Touches(links[l], id);
    }
  }

  /** The node table once input `slot` of node `id` is released and spliced out. */
  function InputRemoved(nodes: map<int, Node>, id: int, slot: nat, drop: set<int>): (r: map<int, Node>)
    requires id in nodes && slot < |nodes[id].inputs|
    ensures r.Keys == nodes.Keys
  {
    var s := ScrubAll(nodes, drop);
    s[id := s[id].(inputs := s[id].inputs[..slot] + s[id].inputs[slot + 1..])]
  }

  /** The link an input holds, as the set of ids `removeInput` releases. */
  function Held(inp: Input): set<int>
  {
    if inp.link.LinkTo? then {inp.link.id} else {}
  }

  lemma {:induction false} WithoutNothing(s: seq<int>)
    ensures Without(s, {}) == s
  {
    if s != [] {
      WithoutNothing(s[1..]);
      assert s == [s[0]] + s[1..];
    }
  }

  /** Removing an input that holds no link touches no other slot and no other node. */
  lemma InputRemovedUnheld(nodes: map<int, Node>, id: int, slot: nat)
    requires id in nodes && slot < |nodes[id].inputs| && Held(nodes[id].inputs[slot]) == {}
    ensures InputRemoved(nodes, id, slot, {})
              == nodes[id := nodes[id].(inputs := nodes[id].inputs[..slot] + nodes[id].inputs[slot + 1..])]
  {
    forall n | n in nodes.Values
      ensures Scrub(n, {}) == n
    {
      forall k | 0 <= k < |n.outputs| ensures Without(n.outputs[k].links, {}) == n.outputs[k].links {
        WithoutNothing(n.outputs[k].links);
      }
    }
    assert ScrubAll(nodes, {}) == nodes;
  }

  lemma InputRemovedConsistent(types: set<string>, nodes: map<int, Node>, links: map<int, Link>,
                               lastNodeId: int, lastLinkId: int, id: int, slot: nat,
                               nodes': map<int, Node>, links': map<int, Link>)
    requires Consistent(types, nodes, links, lastNodeId, lastLinkId)
    requires id in nodes && slot < |nodes[id].inputs|
    requires var drop := Held(nodes[id].inputs[slot]);
             nodes' == InputRemoved(nodes, id, slot, drop) && links' == links - drop
    ensures Consistent(types, nodes', links', lastNodeId, lastLinkId)
  {
    var drop := Held(nodes[id].inputs[slot]);
    var sc := ScrubAll(nodes, drop);
    ScrubAllConsistent(types, nodes, links, lastNodeId, lastLinkId, drop);
    var s := sc[id];
    assert NodeOk(s, id, types, lastNodeId, links'.Keys);
    var s' := s.(inputs := s.inputs[..slot] + s.inputs[slot + 1..]);
    assert forall i :: 0 <= i < |s'.inputs| ==> s'.inputs[i] == s.inputs[if i < slot then i else i + 1];
    assert NodeOk(s', id, types, lastNodeId, links'.Keys);
  }

  class Graph {
    /** The node type registry `LiteGraph.createNode` draws on. */
    const registry: map<string, Template>
    var nodes: map<int, Node>
    var links: map<int, Link>
    var lastNodeId: int
    var lastLinkId: int
    /** How many times the canvas has been marked dirty. */
    var dirtyMarks: nat

    /** The host's consistency between the two tables (see `Consistent`). */
    ghost predicate Valid()
      reads this
    {
      Consistent(registry.Keys, nodes, links, lastNodeId, lastLinkId)
    }

    constructor (registry: map<string, Template>)
      ensures Valid()
      ensures this.registry == registry && nodes == map[] && links == map[]
      ensures lastNodeId == 0 && lastLinkId == 0 && dirtyMarks == 0
    {
      this.registry := registry;
      nodes, links := map[], map[];
      lastNodeId, lastLinkId, dirtyMarks := 0, 0, 0;
    }

    /** `LiteGraph.createNode(type)` for a registered type. */
    function CreateNode(nodeType: string): (n: Node)
      requires nodeType in registry
      ensures n.body.nodeType == nodeType && Unlinked(n)
    {
      Instantiate(nodeType, registry[nodeType])
    }

    /** `graph.add(node)`: files the node under a fresh id. */
    method Add(n: Node) returns (id: int)
      requires Valid() && n.body.nodeType in registry && Unlinked(n)
      modifies this
      ensures Valid()
      ensures id == old(lastNodeId) + 1 == lastNodeId && id !in old(nodes)
      ensures nodes == old(nodes)[id := n.(id := id)]
      ensures links == old(links) && lastLinkId == old(lastLinkId) && dirtyMarks == old(dirtyMarks)
    {
      lastNodeId := lastNodeId + 1;
      id := lastNodeId;
      assert SlotsResolve(n.(id := id), links.Keys);
      nodes := nodes[id := n.(id := id)];
    }

    /**
     * `origin.connect(originSlot, target, targetSlot)`: when both slots exist,
     * records a new link under a fresh id and refers to it from both slots;
     * otherwise nothing happens. (Type checks and the release of a link the
     * target input held before are host details left out.)
     */
    method Connect(originId: int, originSlot: int, targetId: int, targetSlot: int) returns (made: Option<int>)
      requires Valid() && originId in nodes && targetId in nodes
      modifies this
      ensures Valid()
      ensures var link := Link(originId, originSlot, targetId, targetSlot);
              && (made.Some? <==> CanAttach(old(nodes), link))
              && (made.None? ==> nodes == old(nodes) && links == old(links) && lastLinkId == old(lastLinkId))
              && (made.Some? ==>
                    && made.value == lastLinkId == old(lastLinkId) + 1 && made.value !in old(links)
                    && links == old(links)[made.value := link]
                    && nodes == Attached(old(nodes), link, made.value))
      ensures nodes.Keys == old(nodes).Keys && FramesKept(old(nodes), nodes) && LinksKept(old(links), links)
      ensures forall id :: id in nodes ==> nodes[id].id == old(nodes[id].id)
      ensures forall id :: id in nodes && id != targetId ==> nodes[id].inputs == old(nodes[id].inputs)
      ensures forall id :: id in nodes && id != originId ==> nodes[id].outputs == old(nodes[id].outputs)
      ensures forall id :: id in nodes ==> OutputsGrew(old(nodes), nodes, id)
      ensures made.Some? ==> HasLink(links, Link(originId, originSlot, targetId, targetSlot))
      ensures lastLinkId >= old(lastLinkId) && LinksEvolved(old(links), links, old(lastLinkId))
      ensures lastNodeId == old(lastNodeId) && dirtyMarks == old(dirtyMarks)
    {
      var link := Link(originId, originSlot, targetId, targetSlot);
      if CanAttach(nodes, link) {
        ghost var nodes0, links0 := nodes, links;
        forall l | l in links0 ensures l <= lastLinkId {
          assert LinkOk(links0[l], l, lastLinkId, nodes0.Keys);
        }
        nodes, links, lastLinkId := Attached(nodes, link, lastLinkId + 1), links[lastLinkId + 1 := link], lastLinkId + 1;
        AttachedConsistent(registry.Keys, nodes0, links0, lastNodeId, lastLinkId - 1, link, nodes, links);
        AttachedFacts(nodes0, link, lastLinkId, nodes);
        assert links[lastLinkId] == link;
        made := Some(lastLinkId);
      } else {
        made := None;
      }
    }

    /**
     * `graph.remove(node)`: the node goes, every link touching it goes, and
     * the other nodes' slots stop referring to those links.
     */
    method Remove(id: int)
      requires Valid() && id in nodes
      modifies this
      ensures Valid()
      ensures var drop := Dropped(old(links), id);
              && links == old(links) - drop
              && nodes == ScrubAll(old(nodes), drop) - {id}
      ensures nodes.Keys == old(nodes).Keys - {id} && FramesKept(old(nodes), nodes)
      ensures forall l :: l in old(links) && !Touches(old(links)[l], id) ==> l in links && links[l] == old(links)[l]
      ensures lastNodeId == old(lastNodeId) && lastLinkId == old(lastLinkId) && dirtyMarks == old(dirtyMarks)
    {
      DetachedConsistent(registry.Keys, nodes, links, lastNodeId, lastLinkId, id);
      var drop := Dropped(links, id);
      nodes, links := ScrubAll(nodes, drop) - {id}, links - drop;
    }

    /** `node.addInput(name, type)`: appends an unconnected input. */
    method AddInput(id: int, name: string, slotType: string)
      requires Valid() && id in nodes
      modifies this
      ensures Valid()
      ensures nodes == old(nodes)[id := old(nodes[id]).(inputs := old(nodes[id]).inputs + [Input(name, slotType, NullLink)])]
      ensures links == old(links) && lastNodeId == old(lastNodeId) && lastLinkId == old(lastLinkId)
      ensures dirtyMarks == old(dirtyMarks)
    {
      var n := nodes[id];
      var n' := n.(inputs := n.inputs + [Input(name, slotType, NullLink)]);
      assert NodeOk(n, id, registry.Keys, lastNodeId, links.Keys);
      assert forall i :: 0 <= i < |n.inputs| ==> n'.inputs[i] == n.inputs[i];
      nodes := nodes[id := n'];
    }

    /**
     * `node.removeInput(slot)`: releases the link the input holds, if any,
     * then removes the slot. (The host's renumbering of the target slot of
     * links into later inputs is left out.)
     */
    method RemoveInput(id: int, slot: nat)
      requires Valid() && id in nodes && slot < |nodes[id].inputs|
      modifies this
      ensures Valid()
      ensures var drop := Held(old(nodes[id].inputs[slot]));
              links == old(links) - drop && nodes == InputRemoved(old(nodes), id, slot, drop)
      ensures lastNodeId == old(lastNodeId) && lastLinkId == old(lastLinkId) && dirtyMarks == old(dirtyMarks)
    {
      var drop := Held(nodes[id].inputs[slot]);
      ghost var nodes0, links0 := nodes, links;
      nodes, links := InputRemoved(nodes, id, slot, drop), links - drop;
      InputRemovedConsistent(registry.Keys, nodes0, links0, lastNodeId, lastLinkId, id, slot, nodes, links);
    }

    /** Writes node fields that are not slots (properties, widgets, ...); the type is fixed. */
    method WriteBody(id: int, b: Body)
      requires Valid() && id in nodes && b.nodeType == nodes[id].body.nodeType
      modifies this
      ensures Valid()
      ensures nodes == old(nodes)[id := old(nodes[id]).(body := b)]
      ensures links == old(links) && lastNodeId == old(lastNodeId) && lastLinkId == old(lastLinkId)
      ensures dirtyMarks == old(dirtyMarks)
    {
      assert NodeOk(nodes[id], id, registry.Keys, lastNodeId, links.Keys);
      nodes := nodes[id := nodes[id].(body := b)];
    }

    /** Writes the `name` and `type` of output `k` of a node; its links are untouched. */
    method WriteOutputLabel(id: int, k: nat, name: string, slotType: string)
      requires Valid() && id in nodes && k < |nodes[id].outputs|
      modifies this
      ensures Valid()
      ensures nodes == old(nodes)[id := old(nodes[id]).(outputs :=
                old(nodes[id]).outputs[k := old(nodes[id]).outputs[k].(name := name, slotType := slotType)])]
      ensures links == old(links) && lastNodeId == old(lastNodeId) && lastLinkId == old(lastLinkId)
      ensures dirtyMarks == old(dirtyMarks)
    {
      var n := nodes[id];
      var n' := n.(outputs := n.outputs[k := n.outputs[k].(name := name, slotType := slotType)]);
      assert NodeOk(n, id, registry.Keys, lastNodeId, links.Keys);
      assert forall i :: 0 <= i < |n.outputs| ==> n'.outputs[i].links == n.outputs[i].links;
      nodes := nodes[id := n'];
    }

    /** `setDirtyCanvas(true, true)`, on the graph or on one of its nodes. */
    method MarkDirty()
      modifies this
      ensures dirtyMarks == old(dirtyMarks) + 1
      ensures nodes == old(nodes) && links == old(links)
      ensures lastNodeId == old(lastNodeId) && lastLinkId == old(lastLinkId)
    {
      dirtyMarks := dirtyMarks + 1;
    }
  }
}

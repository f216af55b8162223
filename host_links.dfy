/**
 * The agreement the host editor keeps between the slots of its nodes and its
 * link table, beyond what `HostGraph.Consistent` records: every link is held
 * by the input it leads into and listed by the output it leaves, and every
 * output lists only links that leave it, none twice. `WellLinked` is that
 * agreement; `LinkedApart` is the same agreement with the links touching a
 * set of nodes exempted, which is what holds in the middle of a node's
 * replacement, while new links have already been connected to inputs that
 * still-present old links were held by.
 */
module HostLinks {
  import opened HostGraph

  /** Input `k.targetSlot` of node `k.targetId` holds link `l`. */
  predicate HeldAt(nodes: map<int, Node>, l: int, k: Link)
  {
    && k.targetId in nodes && 0 <= k.targetSlot < |nodes[k.targetId].inputs|
    && nodes[k.targetId].inputs[k.targetSlot].link == LinkTo(l)
  }

  /** Output `k.originSlot` of node `k.originId` lists link `l`. */
  predicate ListedAt(nodes: map<int, Node>, l: int, k: Link)
  {
    && k.originId in nodes && 0 <= k.originSlot < |nodes[k.originId].outputs|
    && l in nodes[k.originId].outputs[k.originSlot].links
  }

  /** Link `l` of the table is referred to from both of its ends. */
  predicate Referenced(nodes: map<int, Node>, links: map<int, Link>, l: int)
    requires l in links
  {
    HeldAt(nodes, l, links[l]) && ListedAt(nodes, l, links[l])
  }

  /** No id occurs twice in `s`. */
  predicate Distinct(s: seq<int>)
  {
    forall a, b :: 0 <= a < b < |s| ==> s[a] != s[b]
  }

  /** The link list `ls` of output `i` of node `id` names, once each, links of the table that leave that output. */
  predicate OutputAgrees(links: map<int, Link>, id: int, i: int, ls: seq<int>)
  {
    && (forall l :: l in ls ==> l in links && links[l].originId == id && links[l].originSlot == i)
    && Distinct(ls)
  }

  ghost predicate OutputsAgree(nodes: map<int, Node>, links: map<int, Link>)
  {
    forall id, i :: id in nodes && 0 <= i < |nodes[id].outputs| ==>
      OutputAgrees(links, id, i, nodes[id].outputs[i].links)
  }

  /**
   * Every link with no end among `gone` is referred to from both of its
   * ends, and every output agrees with the table.
   */
  ghost predicate LinkedApart(nodes: map<int, Node>, links: map<int, Link>, gone: set<int>)
  {
    && (forall l :: l in links && links[l].originId !in gone && links[l].targetId !in gone ==>
          Referenced(nodes, links, l))
    && OutputsAgree(nodes, links)
  }

  /** The host's agreement between slots and links, with no exemption. */
  ghost predicate WellLinked(nodes: map<int, Node>, links: map<int, Link>)
  {
    LinkedApart(nodes, links, {})
  }

  /** Exempting more nodes weakens the agreement. */
  lemma LinkedApartWiden(nodes: map<int, Node>, links: map<int, Link>, gone: set<int>, more: set<int>)
    requires LinkedApart(nodes, links, gone) && gone <= more
    ensures LinkedApart(nodes, links, more)
  {
  }

  /** In a well-linked graph, each link an output lists is held by the input it leads into. */
  lemma ListedIsHeld(nodes: map<int, Node>, links: map<int, Link>, id: int, i: int, l: int)
    requires WellLinked(nodes, links)
    requires id in nodes && 0 <= i < |nodes[id].outputs| && l in nodes[id].outputs[i].links
    ensures l in links && HeldAt(nodes, l, links[l])
  {
    assert OutputAgrees(links, id, i, nodes[id].outputs[i].links);
  }

  /** Replacing nodes by nodes with the same slots keeps the agreement. */
  lemma LinkedSameSlots(nodes: map<int, Node>, links: map<int, Link>, gone: set<int>, nodes': map<int, Node>)
    requires LinkedApart(nodes, links, gone)
    requires nodes'.Keys == nodes.Keys
    requires forall id :: id in nodes ==> nodes'[id].inputs == nodes[id].inputs && nodes'[id].outputs == nodes[id].outputs
    ensures LinkedApart(nodes', links, gone)
  {
    forall l | l in links && links[l].originId !in gone && links[l].targetId !in gone
      ensures Referenced(nodes', links, l)
    {
      assert Referenced(nodes, links, l);
    }
    forall id, i | id in nodes' && 0 <= i < |nodes'[id].outputs|
      ensures OutputAgrees(links, id, i, nodes'[id].outputs[i].links)
    {
      assert OutputAgrees(links, id, i, nodes[id].outputs[i].links);
    }
  }

  /** Filing a node with no connected slot under a new id keeps the agreement. */
  lemma LinkedAdd(nodes: map<int, Node>, links: map<int, Link>, gone: set<int>, id: int, n: Node)
    requires LinkedApart(nodes, links, gone) && id !in nodes && Unlinked(n)
    ensures LinkedApart(nodes[id := n], links, gone)
  {
    var nodes' := nodes[id := n];
    forall l | l in links && links[l].originId !in gone && links[l].targetId !in gone
      ensures Referenced(nodes', links, l)
    {
      assert Referenced(nodes, links, l);
    }
    forall x, i | x in nodes' && 0 <= i < |nodes'[x].outputs|
      ensures OutputAgrees(links, x, i, nodes'[x].outputs[i].links)
    {
      if x != id {
        assert OutputAgrees(links, x, i, nodes[x].outputs[i].links);
      }
    }
  }

  /**
   * Recording a new link `lid` keeps the agreement, provided the input it is
   * connected to held no link of the table, or only one with an end among
   * the exempted nodes (the link it displaces).
   */
  lemma LinkedAttach(nodes: map<int, Node>, links: map<int, Link>, gone: set<int>, link: Link, lid: int)
    requires LinkedApart(nodes, links, gone) && CanAttach(nodes, link) && lid !in links
    requires var r := nodes[link.targetId].inputs[link.targetSlot].link;
             r.LinkTo? && r.id in links ==> links[r.id].originId in gone || links[r.id].targetId in gone
    ensures LinkedApart(Attached(nodes, link, lid), links[lid := link], gone)
  {
    var nodes', links' := Attached(nodes, link, lid), links[lid := link];
    AttachedFrame(nodes, link, lid, link.targetId);
    AttachedFrame(nodes, link, lid, link.originId);
    forall l | l in links' && links'[l].originId !in gone && links'[l].targetId !in gone
      ensures Referenced(nodes', links', l)
    {
      if l != lid {
        var k := links[l];
        assert Referenced(nodes, links, l);
        AttachedFrame(nodes, link, lid, k.targetId);
        AttachedFrame(nodes, link, lid, k.originId);
        assert HeldAt(nodes', l, k);
        assert ListedAt(nodes', l, k) by {
          if k.originId == link.originId && k.originSlot == link.originSlot {
            assert nodes'[k.originId].outputs[k.originSlot].links
                == nodes[k.originId].outputs[k.originSlot].links + [lid];
          }
        }
      }
    }
    forall id, i | id in nodes' && 0 <= i < |nodes'[id].outputs|
      ensures OutputAgrees(links', id, i, nodes'[id].outputs[i].links)
    {
      var ls := nodes[id].outputs[i].links;
      assert OutputAgrees(links, id, i, ls);
      AttachedFrame(nodes, link, lid, id);
      if id == link.originId && i == link.originSlot {
        var ls' := ls + [lid];
        assert nodes'[id].outputs[i].links == ls';
        forall a, b | 0 <= a < b < |ls'| ensures ls'[a] != ls'[b] {
          if b == |ls| {
            assert ls'[a] == ls[a] && ls[a] in links;
          } else {
            assert ls'[a] == ls[a] && ls'[b] == ls[b];
          }
        }
      } else {
        assert nodes'[id].outputs[i].links == ls;
      }
    }
  }

  /**
   * Each link the output list `outs` names, from link `j` of output `i` on,
   * is a link of the table held by the input it leads into.
   */
  ghost predicate HeldFrom(nodes: map<int, Node>, links: map<int, Link>, outs: seq<Output>, i: int, j: int)
  {
    forall a, b :: 0 <= a < |outs| && 0 <= b < |outs[a].links| && (i < a || (i == a && j <= b)) ==>
      outs[a].links[b] in links && HeldAt(nodes, outs[a].links[b], links[outs[a].links[b]])
  }

  /** Past the last link of output `i`, the links still to come start at output `i + 1`. */
  lemma HeldFromNext(nodes: map<int, Node>, links: map<int, Link>, outs: seq<Output>, i: int)
    requires 0 <= i < |outs| && HeldFrom(nodes, links, outs, i, |outs[i].links|)
    ensures HeldFrom(nodes, links, outs, i + 1, 0)
  {
  }

  /** In a well-linked graph, every link a node's outputs list is held by its input. */
  lemma HeldFromStart(nodes: map<int, Node>, links: map<int, Link>, id: int)
    requires WellLinked(nodes, links) && id in nodes
    ensures HeldFrom(nodes, links, nodes[id].outputs, 0, 0)
  {
    var outs := nodes[id].outputs;
    forall a, b | 0 <= a < |outs| && 0 <= b < |outs[a].links|
      ensures outs[a].links[b] in links && HeldAt(nodes, outs[a].links[b], links[outs[a].links[b]])
    {
      ListedIsHeld(nodes, links, id, a, outs[a].links[b]);
    }
  }

  /**
   * Connecting a new link `lid` to the input that link `j` of output `i` of
   * the exempted node `x` leads into displaces that link only: the
   * agreement apart from `gone` is kept, and every later link of `x`'s
   * outputs is still held by its input.
   */
  lemma LinkedDisplace(nodes: map<int, Node>, links: map<int, Link>, gone: set<int>, x: int,
                       i: int, j: int, link: Link, lid: int)
    requires LinkedApart(nodes, links, gone) && x in gone && x in nodes
    requires 0 <= i < |nodes[x].outputs| && 0 <= j < |nodes[x].outputs[i].links|
    requires HeldFrom(nodes, links, nodes[x].outputs, i, j)
    requires CanAttach(nodes, link) && lid !in links
    requires var k := links[nodes[x].outputs[i].links[j]];
             link.targetId == k.targetId && link.targetSlot == k.targetSlot
    ensures LinkedApart(Attached(nodes, link, lid), links[lid := link], gone)
    ensures HeldFrom(Attached(nodes, link, lid), links[lid := link], nodes[x].outputs, i, j + 1)
  {
    var outs := nodes[x].outputs;
    var l := outs[i].links[j];
    assert OutputAgrees(links, x, i, outs[i].links);
    assert HeldAt(nodes, l, links[l]);
    LinkedAttach(nodes, links, gone, link, lid);
    var nodes', links' := Attached(nodes, link, lid), links[lid := link];
    forall a, b | 0 <= a < |outs| && 0 <= b < |outs[a].links| && (i < a || (i == a && j + 1 <= b))
      ensures outs[a].links[b] in links' && HeldAt(nodes', outs[a].links[b], links'[outs[a].links[b]])
    {
      var m := outs[a].links[b];
      assert OutputAgrees(links, x, a, outs[a].links);
      assert m != l by {
        if a == i {
          assert Distinct(outs[i].links);
        } else {
          assert links[m].originSlot == a && links[l].originSlot == i;
        }
      }
      var k := links[m];
      assert HeldAt(nodes, m, k);
      AttachedFrame(nodes, link, lid, k.targetId);
      assert links'[m] == k;
    }
  }

  lemma {:induction false} WithoutDistinct(s: seq<int>, drop: set<int>)
    requires Distinct(s)
    ensures Distinct(Without(s, drop))
  {
    if s != [] {
      WithoutDistinct(s[1..], drop);
      var rest := Without(s[1..], drop);
      if s[0] !in drop {
        var r := [s[0]] + rest;
        assert Without(s, drop) == r;
        forall a, b | 0 <= a < b < |r| ensures r[a] != r[b] {
          if a == 0 {
            assert r[b] in rest && r[b] in s[1..];
          } else {
            assert r[a] == rest[a - 1] && r[b] == rest[b - 1];
          }
        }
      } else {
        assert Without(s, drop) == rest;
      }
    }
  }

  /**
   * `graph.remove(node)` on a graph that agrees apart from the links
   * touching the removed node leaves a graph that agrees in full.
   */
  lemma LinkedRemove(nodes: map<int, Node>, links: map<int, Link>, id: int)
    requires LinkedApart(nodes, links, {id})
    ensures var drop := Dropped(links, id);
            WellLinked(ScrubAll(nodes, drop) - {id}, links - drop)
  {
    var drop := Dropped(links, id);
    var nodes', links' := ScrubAll(nodes, drop) - {id}, links - drop;
    forall l | l in links'
      ensures Referenced(nodes', links', l)
    {
      var k := links[l];
      assert !Touches(k, id);
      assert Referenced(nodes, links, l);
      var t := nodes[k.targetId];
      assert nodes'[k.targetId].inputs[k.targetSlot] == ScrubInput(t.inputs[k.targetSlot], drop);
      var o := nodes[k.originId];
      assert nodes'[k.originId].outputs[k.originSlot].links == Without(o.outputs[k.originSlot].links, drop);
    }
    forall x, i | x in nodes' && 0 <= i < |nodes'[x].outputs|
      ensures OutputAgrees(links', x, i, nodes'[x].outputs[i].links)
    {
      var ls := nodes[x].outputs[i].links;
      assert OutputAgrees(links, x, i, ls);
      assert nodes'[x].outputs[i].links == Without(ls, drop);
      WithoutDistinct(ls, drop);
    }
  }
}

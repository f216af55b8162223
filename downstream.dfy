/**
 * The lookup both state nodes use to find the node whose widgets they save
 * and restore: the target of the first link leaving output 0.
 */
module Downstream {
  import opened JsValues
  import opened HostGraph

  /**
   * `getTargetNode(source)`: none when output 0 is missing or has no link,
   * when the first link is not on record, or when its target is not in the
   * graph; otherwise that target.
   */
  function FirstTarget(source: Node, nodes: map<int, Node>, links: map<int, Link>): (r: Option<int>)
    ensures r.Some? <==> && |source.outputs| > 0 && |source.outputs[0].links| > 0
                         && source.outputs[0].links[0] in links
                         && links[source.outputs[0].links[0]].targetId in nodes
    ensures r.Some? ==> r.value in nodes && r.value == links[source.outputs[0].links[0]].targetId
  {
    if |source.outputs| == 0 || |source.outputs[0].links| == 0 then None
    else
      var l := source.outputs[0].links[0];
      if l !in links || links[l].targetId !in nodes then None
      else Some(links[l].targetId)
  }

  /**
   * In a consistent graph the first link of a node's output 0 is always on
   * record and leads to a node, so the lookup fails only when that output
   * has no link.
   */
  lemma FirstTargetFound(types: set<string>, nodes: map<int, Node>, links: map<int, Link>,
                         lastNodeId: int, lastLinkId: int, id: int)
    requires Consistent(types, nodes, links, lastNodeId, lastLinkId) && id in nodes
    ensures var out := nodes[id].outputs;
            FirstTarget(nodes[id], nodes, links).Some? <==> |out| > 0 && |out[0].links| > 0
    ensures var out := nodes[id].outputs;
            |out| > 0 && |out[0].links| > 0 ==> out[0].links[0] in links
  {
    var n := nodes[id];
    assert NodeOk(n, id, types, lastNodeId, links.Keys);
    if |n.outputs| > 0 && |n.outputs[0].links| > 0 {
      var l := n.outputs[0].links[0];
      assert OutputResolves(n.outputs[0], links.Keys);
      assert l in links;
      assert LinkOk(links[l], l, lastLinkId, nodes.Keys);
    }
  }
}

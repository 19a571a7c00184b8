/** What the distances and first links in the nodes mean, in terms of the fields of nodes and links alone. */
module TopologyPaths {
  import opened ShortestPaths
  import opened Topologies

  // The links lead from n to t one after the other; each is enabled, and so is each node that they start from.
  ghost predicate IsPath(top: Topology, n: Node, t: Node, path: seq<Link>)
    reads top`nodes, top`links, top.nodes`enabled, top.links`srcNode, top.links`destNode, top.links`enabled
  {
    if path == [] then n == t
    else
      && path[0] in top.links && path[0].enabled && path[0].srcNode == n && n in top.nodes && n.enabled
      && path[0].destNode != null && IsPath(top, path[0].destNode, t, path[1..])
  }

  // The weights of the links of a path, added up.
  ghost function LinkWeights(top: Topology, path: seq<Link>): Length
    reads top`links, top.links`weight
  {
    if path == [] || path[0] !in top.links then Finite(0.0)
    else path[0].weight.Plus(LinkWeights(top, path[1..]))
  }

  // The weights of the nodes that a path comes to, t excepted, added up.
  ghost function NodeWeights(top: Topology, t: Node, path: seq<Link>): Length
    reads top`nodes, top`links, top.nodes`weight, top.links`destNode
  {
    if path == [] || path[0] !in top.links || path[0].destNode !in top.nodes then Finite(0.0)
    else
      (if path[0].destNode == t then Finite(0.0) else path[0].destNode.weight).Plus(NodeWeights(top, t, path[1..]))
  }

  ghost function Weights(top: Topology, t: Node, path: seq<Link>): Length
    reads top`nodes, top`links, top.nodes`weight, top.links`destNode, top.links`weight
  {
    LinkWeights(top, path).Plus(NodeWeights(top, t, path))
  }

  lemma {:induction false} WayIsPath(top: Topology, n: Node, t: Node, path: seq<Link>, weighted: bool)
    requires top.InMirrored(top.links)
    ensures IsWay(top.Network(t, weighted), t, n, path) <==> IsPath(top, n, t, path)
    decreases |path|
  {
    if path != [] && path[0] in top.links && path[0].destNode != null {
      WayIsPath(top, path[0].destNode, t, path[1..], weighted);
    }
  }

  lemma PlusSwaps(a: Length, b: Length, c: Length, d: Length)
    ensures a.Plus(b).Plus(c.Plus(d)) == a.Plus(c).Plus(b.Plus(d))
  {
  }

  // What the first link of a path adds to the weights.
  ghost function FirstWeight(t: Node, l: Link): Length
    requires l.destNode != null
    reads l`destNode, l`weight, l.destNode`weight
  {
    l.weight.Plus(if l.destNode == t then Finite(0.0) else l.destNode.weight)
  }

  lemma WeightsMore(top: Topology, n: Node, t: Node, path: seq<Link>)
    requires top.InMirrored(top.links) && IsPath(top, n, t, path) && path != []
    ensures Weights(top, t, path) == FirstWeight(t, path[0]).Plus(Weights(top, t, path[1..]))
  {
    var l := path[0];
    PlusSwaps(l.weight, if l.destNode == t then Finite(0.0) else l.destNode.weight,
              LinkWeights(top, path[1..]), NodeWeights(top, t, path[1..]));
  }

  lemma FirstCost(top: Topology, n: Node, t: Node, path: seq<Link>)
    requires top.InMirrored(top.links) && IsPath(top, n, t, path) && path != []
    ensures path[0] in top.Network(t, true) && top.Network(t, true)[path[0]].cost == FirstWeight(t, path[0])
  {
  }

  lemma {:induction false} CostIsWeights(top: Topology, n: Node, t: Node, path: seq<Link>)
    requires top.InMirrored(top.links) && IsPath(top, n, t, path)
    ensures Cost(top.Network(t, true), path) == Weights(top, t, path)
    decreases |path|
  {
    if path != [] {
      CostIsWeights(top, path[0].destNode, t, path[1..]);
      WeightsMore(top, n, t, path);
      FirstCost(top, n, t, path);
    }
  }

  lemma {:induction false} CostIsCount(top: Topology, n: Node, t: Node, path: seq<Link>)
    requires top.InMirrored(top.links) && IsPath(top, n, t, path)
    ensures Cost(top.Network(t, false), path) == Finite(|path| as real)
    decreases |path|
  {
    if path != [] {
      CostIsCount(top, path[0].destNode, t, path[1..]);
    }
  }

  // After the weighted search, the distance of every node is the least sum of weights over all paths to the target,
  // and infinite if and only if no path has a finite sum.
  lemma LeastWeights(top: Topology, n: Node, t: Node)
    requires top.InMirrored(top.links) && top.Routed(top.Network(t, true), t) && n in top.nodes
    ensures forall path :: IsPath(top, n, t, path) ==> n.dist.AtMost(Weights(top, t, path))
    ensures n.dist.Finite? <==> exists path :: IsPath(top, n, t, path) && Weights(top, t, path).Finite?
    ensures n.dist.Finite? ==> exists path :: IsPath(top, n, t, path) && Weights(top, t, path) == n.dist
  {
    var net := top.Network(t, true);
    assert IsDistance(net, t, n, n.dist);
    forall path | IsPath(top, n, t, path)
      ensures n.dist.AtMost(Weights(top, t, path))
    {
      WayIsPath(top, n, t, path, true);
      CostIsWeights(top, n, t, path);
    }
    if n.dist.Finite? {
      var path :| IsWay(net, t, n, path) && Cost(net, path) == n.dist;
      WayIsPath(top, n, t, path, true);
      CostIsWeights(top, n, t, path);
    }
  }

  // After the search that counts links, it is the least number of links.
  lemma LeastLinks(top: Topology, n: Node, t: Node)
    requires top.InMirrored(top.links) && top.Routed(top.Network(t, false), t) && n in top.nodes
    ensures forall path :: IsPath(top, n, t, path) ==> n.dist.AtMost(Finite(|path| as real))
    ensures n.dist.Finite? <==> exists path :: IsPath(top, n, t, path)
    ensures n.dist.Finite? ==> exists path :: IsPath(top, n, t, path) && n.dist == Finite(|path| as real)
  {
    var net := top.Network(t, false);
    assert IsDistance(net, t, n, n.dist);
    forall path | IsPath(top, n, t, path)
      ensures n.dist.AtMost(Finite(|path| as real))
    {
      WayIsPath(top, n, t, path, false);
      CostIsCount(top, n, t, path);
    }
    if n.dist.Finite? {
      var path :| IsWay(net, t, n, path) && Cost(net, path) == n.dist;
      WayIsPath(top, n, t, path, false);
      CostIsCount(top, n, t, path);
    }
  }

  // The link to take after either search: it is enabled, starts from the node and leads to one that is nearer, by its
  // weight and that of the node it leads to, or by one. Exactly the target and the nodes that are not reached have
  // none.
  lemma FirstLinkLeadsOn(top: Topology, n: Node, t: Node, weighted: bool)
    requires top.InMirrored(top.links) && top.Routed(top.Network(t, weighted), t) && n in top.nodes
    ensures n.outPath == null <==> n == t || n.dist == Infinity
    ensures n.outPath != null ==> var l := n.outPath;
      && l in top.links && l.enabled && l.srcNode == n && n.enabled && l.destNode in top.nodes
      && l.destNode.dist.Less(n.dist)
      && (!weighted ==> n.dist == l.destNode.dist.Plus(Finite(1.0)))
      && (weighted && l.destNode == t ==> n.dist == l.destNode.dist.Plus(l.weight))
      && (weighted && l.destNode != t ==> n.dist == l.destNode.dist.Plus(l.weight).Plus(l.destNode.weight))
  {
  }
}

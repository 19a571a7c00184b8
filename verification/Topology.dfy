/** A graph of nodes and links that is changed in place, and the searches that run on it. */
module Topologies {
  import opened ShortestPaths

  class Topology {
    var nodes: seq<Node>
    var target: Node?
    ghost var links: set<Link>

    // Module IDs are compared as unsigned numbers, so that -1 is the greatest.
    static function Key(id: ModuleId): nat {
      if id < 0 then id + 0x1_0000_0000 else id
    }

    // The inLinks of the nodes list the links of `some`, each once, at the node it leads to.
    ghost predicate InMirrored(some: set<Link>)
      reads this`nodes, nodes`inLinks, some`destNode
    {
      && (forall n {:trigger n.inLinks} :: n in nodes ==>
            NoDuplicates(n.inLinks)
            && forall l {:trigger l in n.inLinks} :: l in n.inLinks ==> l in some && l.destNode == n)
      && (forall l {:trigger l.destNode} :: l in some ==> l.destNode in nodes && l in l.destNode.inLinks)
    }

    // The outLinks of the nodes list the links of `some`, each once, at the node it starts from.
    ghost predicate OutMirrored(some: set<Link>)
      reads this`nodes, nodes`outLinks, some`srcNode
    {
      && (forall n {:trigger n.outLinks} :: n in nodes ==>
            NoDuplicates(n.outLinks)
            && forall l {:trigger l in n.outLinks} :: l in n.outLinks ==> l in some && l.srcNode == n)
      && (forall l {:trigger l.srcNode} :: l in some ==> l.srcNode in nodes && l in l.srcNode.outLinks)
    }

    // The nodes stand in the order of their module IDs, those without one at the end.
    ghost predicate Ordered(some: seq<Node>) {
      NoDuplicates(some) && forall i, j :: 0 <= i < j < |some| ==> Key(some[i].moduleId) <= Key(some[j].moduleId)
    }

    ghost predicate Valid()
      reads this`nodes, this`links, nodes`inLinks, nodes`outLinks, links`srcNode, links`destNode
    {
      Ordered(nodes) && InMirrored(links) && OutMirrored(links)
    }

    constructor ()
      ensures Valid() && nodes == [] && links == {} && target == null
    {
      nodes, target, links := [], null, {};
    }

    // ---------- changing the graph ----------

    // the position of the first node that is not less than the key
    method LowerBound(key: int) returns (k: nat)
      requires Ordered(nodes)
      ensures k <= |nodes| && (forall i :: 0 <= i < k ==> Key(nodes[i].moduleId) < key)
      ensures forall i :: k <= i < |nodes| ==> key <= Key(nodes[i].moduleId)
    {
      k := 0;
      var count := |nodes|;
      while count > 0
        invariant 0 <= count && k + count <= |nodes| && forall i :: 0 <= i < k ==> Key(nodes[i].moduleId) < key
        invariant forall i :: k + count <= i < |nodes| ==> key <= Key(nodes[i].moduleId)
      {
        var half := count / 2;
        if Key(nodes[k + half].moduleId) < key {
          k, count := k + half + 1, count - half - 1;
        } else {
          count := half;
        }
      }
    }

    // Finds the node of a module if there is one.
    method GetNodeFor(id: ModuleId) returns (found: Node?)
      requires Ordered(nodes)
      ensures found == null <==> forall n :: n in nodes ==> n.moduleId != id
      ensures found != null ==> found in nodes && found.moduleId == id
    {
      var k := LowerBound(Key(id));
      found := if k == |nodes| || nodes[k].moduleId != id then null else nodes[k];
      if found == null {
        forall n | n in nodes
          ensures n.moduleId != id
        {
          var i :| 0 <= i < |nodes| && nodes[i] == n;
          if k < i {
            assert Key(nodes[k].moduleId) <= Key(nodes[i].moduleId);
          }
        }
      }
    }

    lemma InsertedOrdered(some: seq<Node>, n: Node, k: nat)
      requires Ordered(some) && n !in some && k <= |some|
      requires forall i :: 0 <= i < k ==> Key(some[i].moduleId) <= Key(n.moduleId)
      requires forall i :: k <= i < |some| ==> Key(n.moduleId) <= Key(some[i].moduleId)
      ensures Ordered(Inserted(some, n, k))
      ensures forall m {:trigger m in Inserted(some, n, k)} :: m in Inserted(some, n, k) <==> m in some || m == n
    {
      var r := Inserted(some, n, k);
      assert some == some[..k] + some[k..];
      assert forall m {:trigger m in r} :: m in r <==> m in some[..k] || m == n || m in some[k..];
    }

    // Adds a node without links at its place; returns the place.
    method AddNode(n: Node) returns (k: nat)
      requires Valid() && n !in nodes && n.inLinks == n.outLinks == []
      modifies this`nodes
      ensures Valid() && k <= |old(nodes)| && nodes == Inserted(old(nodes), n, k)
    {
      if n.moduleId == -1 {
        k := |nodes|;
        InsertedOrdered(nodes, n, k);
        assert Inserted(nodes, n, k) == nodes + [n];
        nodes := nodes + [n];
      } else {
        k := LowerBound(Key(n.moduleId));
        InsertedOrdered(nodes, n, k);
        nodes := Inserted(nodes, n, k);
      }
    }

    lemma ErasedFacts<T>(s: seq<T>, i: nat)
      requires NoDuplicates(s) && i < |s|
      ensures NoDuplicates(s[..i] + s[i + 1..])
      ensures forall x {:trigger x in s[..i] + s[i + 1..]} :: x in s[..i] + s[i + 1..] <==> x in s && x != s[i]
    {
      assert s == s[..i] + [s[i]] + s[i + 1..];
      assert forall j {:trigger s[i + 1..][j]} :: 0 <= j < |s| - i - 1 ==> s[i + 1..][j] == s[i + 1 + j];
    }

    static method Find<T(==)>(s: seq<T>, x: T) returns (i: nat)
      requires x in s
      ensures i < |s| && s[i] == x
    {
      i := 0;
      while s[i] != x
        invariant i < |s| && x !in s[..i]
        decreases |s| - i
      {
        assert s[..i + 1] == s[..i] + [s[i]];
        assert s[..|s|] == s;
        i := i + 1;
      }
    }

    method UnlinkFromSourceNode(l: Link, ghost some: set<Link>)
      requires OutMirrored(some) && l in some
      modifies l.srcNode`outLinks
      ensures OutMirrored(some - {l})
    {
      var src := l.srcNode;
      var i := Find(src.outLinks, l);
      ErasedFacts(src.outLinks, i);
      src.outLinks := src.outLinks[..i] + src.outLinks[i + 1..];
    }

    method UnlinkFromDestNode(l: Link, ghost some: set<Link>)
      requires InMirrored(some) && l in some
      modifies l.destNode`inLinks
      ensures InMirrored(some - {l})
    {
      var dest := l.destNode;
      var i := Find(dest.inLinks, l);
      ErasedFacts(dest.inLinks, i);
      dest.inLinks := dest.inLinks[..i] + dest.inLinks[i + 1..];
    }

    // Takes l out of the graph if it is in it.
    method Unlink(l: Link)
      requires Valid() && (l !in links ==> l.srcNode == l.destNode == null)
      modifies this`links, nodes`inLinks, nodes`outLinks
      ensures links == old(links) - {l} && InMirrored(links) && OutMirrored(links)
    {
      if l.srcNode != null {
        UnlinkFromSourceNode(l, links);
      }
      if l.destNode != null {
        UnlinkFromDestNode(l, links);
      }
      links := links - {l};
    }

    method AppendOut(l: Link, src: Node)
      requires OutMirrored(links) && l !in links && src in nodes && l.srcNode == src
      modifies src`outLinks
      ensures OutMirrored(links + {l}) && src.outLinks == old(src.outLinks) + [l]
    {
      assert l !in src.outLinks;
      SnocFacts(src.outLinks, l);
      src.outLinks := src.outLinks + [l];
    }

    method AppendIn(l: Link, dest: Node)
      requires InMirrored(links) && l !in links && dest in nodes && l.destNode == dest
      modifies dest`inLinks
      ensures InMirrored(links + {l}) && dest.inLinks == old(dest.inLinks) + [l]
    {
      assert l !in dest.inLinks;
      SnocFacts(dest.inLinks, l);
      dest.inLinks := dest.inLinks + [l];
    }

    method Attach(l: Link, src: Node, dest: Node)
      requires InMirrored(links) && OutMirrored(links) && l !in links
      modifies l`srcNode, l`destNode, l`srcGateId, l`destGateId
      ensures InMirrored(links) && OutMirrored(links) && l.srcNode == src && l.destNode == dest
      ensures l.srcGateId == if old(l.srcNode) == src then old(l.srcGateId) else -1
      ensures l.destGateId == if old(l.destNode) == dest then old(l.destGateId) else -1
    {
      if l.srcNode != src {
        l.srcGateId := -1;
      }
      if l.destNode != dest {
        l.destGateId := -1;
      }
      l.srcNode := src;
      l.destNode := dest;
    }

    method Append(l: Link, src: Node, dest: Node)
      requires InMirrored(links) && OutMirrored(links) && l !in links
      requires src in nodes && l.srcNode == src && dest in nodes && l.destNode == dest
      modifies this`links, src`outLinks, dest`inLinks
      ensures links == old(links) + {l} && InMirrored(links) && OutMirrored(links)
    {
      AppendOut(l, src);
      AppendIn(l, dest);
      links := links + {l};
    }

    method Connect(l: Link, src: Node, dest: Node)
      requires InMirrored(links) && OutMirrored(links) && l !in links && src in nodes && dest in nodes
      modifies this`links, l`srcNode, l`destNode, l`srcGateId, l`destGateId, src`outLinks, dest`inLinks
      ensures links == old(links) + {l} && InMirrored(links) && OutMirrored(links)
      ensures l.srcNode == src && l.destNode == dest
      ensures l.srcGateId == if old(l.srcNode) == src then old(l.srcGateId) else -1
      ensures l.destGateId == if old(l.destNode) == dest then old(l.destGateId) else -1
    {
      Attach(l, src, dest);
      Append(l, src, dest);
    }

    // Adds a link, or reconnects one that is in the graph.
    method AddLink(l: Link, src: Node, dest: Node)
      requires Valid() && src in nodes && dest in nodes && (l !in links ==> l.srcNode == l.destNode == null)
      modifies this`links, nodes`inLinks, nodes`outLinks
      modifies l`srcNode, l`destNode, l`srcGateId, l`destGateId
      ensures Valid() && links == old(links) + {l} && l.srcNode == src && l.destNode == dest
      ensures l.srcGateId == if old(l.srcNode) == src then old(l.srcGateId) else -1
      ensures l.destGateId == if old(l.destNode) == dest then old(l.destGateId) else -1
    {
      Unlink(l);
      Connect(l, src, dest);
    }

    method DeleteLink(l: Link)
      requires Valid() && l in links
      modifies this`links, nodes`inLinks, nodes`outLinks
      ensures Valid() && links == old(links) - {l}
    {
      UnlinkFromSourceNode(l, links);
      UnlinkFromDestNode(l, links);
      links := links - {l};
    }

    // Takes the links that start from n out of the lists of the nodes they lead to.
    method UnlinkAllOut(n: Node) returns (ghost gone: set<Link>)
      requires Valid() && n in nodes
      modifies nodes`inLinks
      ensures InMirrored(links - gone) && gone <= links
      ensures forall l {:trigger l in gone} :: l in gone <==> l in n.outLinks
    {
      gone := {};
      assert forall l {:trigger l in n.outLinks} :: l in n.outLinks ==> l in links && l.destNode in nodes;
      for i := 0 to |n.outLinks|
        invariant InMirrored(links - gone) && gone <= links
        invariant forall l {:trigger l in gone} :: l in gone <==> l in n.outLinks[..i]
      {
        var link := n.outLinks[i];
        assert link in n.outLinks;
        assert link !in n.outLinks[..i] && n.outLinks[..i + 1] == n.outLinks[..i] + [link];
        UnlinkFromDestNode(link, links - gone);
        gone := gone + {link};
        assert links - gone == links - (gone - {link}) - {link};
      }
      assert n.outLinks[..|n.outLinks|] == n.outLinks;
    }

    method ClearOut(n: Node, ghost gone: set<Link>)
      requires InMirrored(links - gone) && OutMirrored(links) && n in nodes
      requires forall l {:trigger l in gone} :: l in gone <==> l in n.outLinks
      modifies this`links, n`outLinks
      ensures links == old(links) - gone && InMirrored(links) && OutMirrored(links) && n.outLinks == []
    {
      n.outLinks := [];
      links := links - gone;
    }

    method DropOutLinks(n: Node)
      requires Valid() && n in nodes
      modifies this`links, nodes`inLinks, n`outLinks
      ensures Valid() && n.outLinks == [] && links == set l | l in old(links) && l.srcNode != n
    {
      ghost var gone := UnlinkAllOut(n);
      ClearOut(n, gone);
    }

    // Takes the links that lead to n out of the lists of the nodes they start from.
    method UnlinkAllIn(n: Node) returns (ghost gone: set<Link>)
      requires Valid() && n in nodes
      modifies nodes`outLinks
      ensures OutMirrored(links - gone) && gone <= links
      ensures forall l {:trigger l in gone} :: l in gone <==> l in n.inLinks
    {
      gone := {};
      assert forall l {:trigger l in n.inLinks} :: l in n.inLinks ==> l in links && l.srcNode in nodes;
      for i := 0 to |n.inLinks|
        invariant OutMirrored(links - gone) && gone <= links
        invariant forall l {:trigger l in gone} :: l in gone <==> l in n.inLinks[..i]
      {
        var link := n.inLinks[i];
        assert link in n.inLinks;
        assert link !in n.inLinks[..i] && n.inLinks[..i + 1] == n.inLinks[..i] + [link];
        UnlinkFromSourceNode(link, links - gone);
        gone := gone + {link};
        assert links - gone == links - (gone - {link}) - {link};
      }
      assert n.inLinks[..|n.inLinks|] == n.inLinks;
    }

    method ClearIn(n: Node, ghost gone: set<Link>)
      requires OutMirrored(links - gone) && InMirrored(links) && n in nodes
      requires forall l {:trigger l in gone} :: l in gone <==> l in n.inLinks
      modifies this`links, n`inLinks
      ensures links == old(links) - gone && OutMirrored(links) && InMirrored(links) && n.inLinks == []
    {
      n.inLinks := [];
      links := links - gone;
    }

    method DropInLinks(n: Node)
      requires Valid() && n in nodes
      modifies this`links, nodes`outLinks, n`inLinks
      ensures Valid() && n.inLinks == [] && links == set l | l in old(links) && l.destNode != n
    {
      ghost var gone := UnlinkAllIn(n);
      ClearIn(n, gone);
    }

    method RemoveNode(n: Node) returns (ghost i: nat)
      requires Valid() && n in nodes
               && forall l {:trigger l in links} :: l in links ==> l.srcNode != n && l.destNode != n
      modifies this`nodes
      ensures Valid() && i < |old(nodes)| && old(nodes)[i] == n && nodes == old(nodes)[..i] + old(nodes)[i + 1..]
    {
      var k := Find(nodes, n);
      i := k;
      ErasedFacts(nodes, k);
      nodes := nodes[..k] + nodes[k + 1..];
    }

    // Removes a node with all its links, those from it to itself too.
    method DeleteNode(n: Node) returns (ghost i: nat)
      requires Valid() && n in nodes
      modifies this`nodes, this`links, nodes`inLinks, nodes`outLinks
      ensures Valid() && links == set l | l in old(links) && l.srcNode != n && l.destNode != n
      ensures i < |old(nodes)| && old(nodes)[i] == n && nodes == old(nodes)[..i] + old(nodes)[i + 1..]
    {
      DropOutLinks(n);
      DropInLinks(n);
      i := RemoveNode(n);
    }

    // The links the search may use, with the cost of each: the weight of the link and of the node it leads
    // to, which costs nothing if it is the target; or one for every link.
    ghost function Network(t: Node, weighted: bool): Graph
      reads this`nodes, this`links, nodes`weight, nodes`enabled
      reads links`srcNode, links`destNode, links`weight, links`enabled
    {
      map l | l in links && l.enabled && l.srcNode in nodes && l.destNode in nodes && l.srcNode.enabled ::
        Edge(l.srcNode, l.destNode,
             if !weighted then Finite(1.0)
             else if l.destNode == t then l.weight
             else l.weight.Plus(l.destNode.weight))
    }

    // What the program asserts of the weights: for nodes from which t can be reached at a finite cost, and for the
    // usable links into them.
    ghost predicate WeightsValid(t: Node)
      reads this`nodes, this`links, nodes`weight, nodes`enabled
      reads links`srcNode, links`destNode, links`weight, links`enabled
    {
      && (forall n {:trigger n.weight} :: n in nodes && Reaches(Network(t, true), t, n) ==>
            Finite(0.0).AtMost(n.weight))
      && (forall l {:trigger l.weight} :: l in Near(Network(t, true), t) ==> Finite(0.0).Less(l.weight))
    }

    // The links of g lead from and to nodes of the topology.
    ghost predicate Inside(g: Graph)
      reads this`nodes
    {
      forall l {:trigger g[l]} :: l in g ==> g[l].src in nodes && g[l].dst in nodes
    }

    lemma NetworkIsUnit(t: Node)
      ensures Unit(Network(t, false)) && Positive(Network(t, false)) && Inside(Network(t, false))
    {
    }

    lemma NearIsPositive(t: Node)
      requires WeightsValid(t)
      ensures Positive(Near(Network(t, true), t)) && Inside(Near(Network(t, true), t))
    {
      var net := Network(t, true);
      forall l | l in Near(net, t)
        ensures Finite(0.0).Less(net[l].cost)
      {
        assert Finite(0.0).Less(l.weight) && Finite(0.0).AtMost(l.destNode.weight);
      }
    }

    lemma LinksInto(t: Node, weighted: bool, v: Node)
      requires InMirrored(links) && OutMirrored(links) && v in nodes
      ensures forall l :: l in Network(t, weighted) && Network(t, weighted)[l].dst == v ==> l in v.inLinks
      ensures forall l :: l in v.inLinks ==> l in links && l.srcNode in nodes && l.destNode == v
      ensures forall l :: l in v.inLinks ==> (l in Network(t, weighted) <==> l.enabled && l.srcNode.enabled)
    {
    }

    // The fields of the nodes hold the state of the search.
    ghost predicate Holds(s: Search)
      reads this`nodes, nodes`dist, nodes`outPath
    {
      && (forall n {:trigger n.dist} {:trigger n.outPath} {:trigger n in nodes} :: n in nodes ==>
            n in s.d && n.dist == s.d[n] && n.outPath == (if n in s.via then s.via[n] else null))
      && (forall n {:trigger n in s.d} :: n in s.d ==> n in nodes)
    }

    // Finds the place of a node at distance x: in front of the first that is farther away.
    method FindPlace(q: seq<Node>, x: Length) returns (k: nat)
      ensures k <= |q| && (k < |q| ==> x.Less(q[k].dist))
      ensures forall i :: 0 <= i < k ==> q[i].dist.AtMost(x)
    {
      k := 0;
      while k < |q| && !x.Less(q[k].dist)
        invariant k <= |q| && forall i :: 0 <= i < k ==> q[i].dist.AtMost(x)
      {
        k := k + 1;
      }
    }

    // The queue is as it was recorded, and so is the distance of every node in it.
    ghost predicate Recorded(q: seq<Node>, d: map<Node, Length>)
      reads q`dist
    {
      forall i {:trigger q[i]} :: 0 <= i < |q| ==> q[i] in d && q[i].dist == d[q[i]]
    }

    method Enqueue(q: seq<Node>, n: Node, x: Length, ghost d: map<Node, Length>) returns (q': seq<Node>, ghost k: nat)
      requires Recorded(q, d)
      ensures IsPlace(d, q, x, k) && q' == Inserted(q, n, k)
    {
      var i := FindPlace(q, x);
      k := i;
      q' := Inserted(q, n, i);
    }

    lemma QueueRecorded(s: Search, q: seq<Node>)
      requires Holds(s) && forall i {:trigger q[i]} :: 0 <= i < |q| ==> q[i] in s.d
      ensures Recorded(q, s.d)
    {
    }

    // What the search sees of the links into v.
    ghost predicate Describes(g: Graph, t: Node, weighted: bool, v: Node)
      reads this`nodes, this`links, nodes`enabled, v`weight, v`inLinks, links`srcNode, links`weight, links`enabled
    {
      forall i {:trigger v.inLinks[i]} :: 0 <= i < |v.inLinks| ==>
        var l := v.inLinks[i];
        && l in links && l.srcNode in nodes && (l in g <==> l.enabled && l.srcNode.enabled)
        && (l in g ==> g[l].src == l.srcNode && g[l].dst == v)
        && (l in g && !weighted ==> g[l].cost == Finite(1.0))
        && (l in g && weighted ==> g[l].cost == if v == t then l.weight else l.weight.Plus(v.weight))
    }

    ghost predicate Arrives(g: Graph, l: Link)
      requires l in g
      reads this`nodes, nodes`inLinks
    {
      g[l].dst in nodes && l in g[l].dst.inLinks
    }

    // What the search sees is g, as far as the target can be reached.
    ghost predicate Seen(g: Graph, t: Node, weighted: bool)
      reads this`nodes, this`links, nodes`enabled, nodes`weight, nodes`inLinks
      reads links`srcNode, links`weight, links`enabled
    {
      && (forall v {:trigger Describes(g, t, weighted, v)} :: v in nodes && Reaches(g, t, v) ==>
            Describes(g, t, weighted, v))
      && (forall l {:trigger Arrives(g, l)} :: l in g ==> Arrives(g, l))
    }

    lemma AllArrive(g: Graph, v: Node, weighted: bool)
      requires target != null && Seen(g, target, weighted)
      ensures forall l {:trigger g[l]} :: l in g && g[l].dst == v ==> l in v.inLinks
    {
      forall l | l in g && g[l].dst == v
        ensures l in v.inLinks
      {
        assert Arrives(g, l);
      }
    }

    lemma NetworkIsSeen(t: Node, weighted: bool)
      requires InMirrored(links) && OutMirrored(links)
      ensures Seen(Network(t, weighted), t, weighted)
    {
      forall v | v in nodes
        ensures Describes(Network(t, weighted), t, weighted, v)
      {
        LinksInto(t, weighted, v);
        assert forall i {:trigger v.inLinks[i]} :: 0 <= i < |v.inLinks| ==> v.inLinks[i] in v.inLinks;
      }
      forall l | l in Network(t, weighted)
        ensures Arrives(Network(t, weighted), l)
      {
        LinksInto(t, weighted, l.destNode);
      }
    }

    lemma NearIsSeen(t: Node)
      requires InMirrored(links) && OutMirrored(links)
      ensures Seen(Near(Network(t, true), t), t, true)
    {
      var net := Network(t, true);
      NetworkIsSeen(t, true);
      forall v | v in nodes && Reaches(Near(net, t), t, v)
        ensures Describes(Near(net, t), t, true, v)
      {
        NearReaches(net, t, v);
        assert Describes(net, t, true, v);
      }
      forall l | l in Near(net, t)
        ensures Arrives(Near(net, t), l)
      {
        assert Arrives(net, l);
      }
    }

    // cleans the path information
    method ClearPaths(ghost g: Graph, t: Node, ghost weighted: bool)
      requires t in nodes && Seen(g, t, weighted)
      modifies nodes`dist, nodes`outPath
      ensures Seen(g, t, weighted)
      ensures Holds(Started((set n | n in nodes), t))
    {
      for k := 0 to |nodes|
        invariant forall i :: 0 <= i < k ==> nodes[i].dist == Infinity && nodes[i].outPath == null
      {
        nodes[k].dist, nodes[k].outPath := Infinity, null;
      }
      t.dist := Finite(0.0);
    }

    method SetPath(n: Node, x: Length, l: Link, ghost s: Search)
      requires Holds(s) && n in nodes
      modifies n`dist, n`outPath
      ensures n.dist == x && Holds(Search(s.d[n := x], s.via[n := l], s.q, s.done))
    {
      n.dist := x;
      n.outPath := l;
    }

    lemma Requeued(s: Search, n: Node)
      requires Queued(s)
      ensures forall i {:trigger Without(s.q, n)[i]} :: 0 <= i < |Without(s.q, n)| ==>
        Without(s.q, n)[i] in s.d && Without(s.q, n)[i] != n
      ensures n in s.d && s.d[n] == Infinity ==> Without(s.q, n) == s.q
    {
      if n !in s.q {
        WithoutAbsent(s.q, n);
      }
      WithoutFacts(s.d, s.q, n);
      assert forall i :: 0 <= i < |Without(s.q, n)| ==> Without(s.q, n)[i] in Without(s.q, n);
    }

    // A shorter way from the source of l was found, over l.
    method Shorten(ghost g: Graph, l: Link, x: Length, q: seq<Node>, ghost s: Search)
      returns (q': seq<Node>, ghost k: nat)
      requires l in g && l.srcNode == g[l].src && l.srcNode in nodes && g[l].dst in nodes && Holds(s)
      requires s.q == q && Queued(s) && x == g[l].cost.Plus(s.d[g[l].dst]) && x.Less(l.srcNode.dist)
      modifies l.srcNode`dist, l.srcNode`outPath
      ensures Improves(g, s, g[l].dst, l, k) && Holds(Improved(g, s, l, k)) && q' == Improved(g, s, l, k).q
    {
      var src := l.srcNode;
      q' := if src.dist != Infinity then Without(q, src) else q;
      Requeued(s, src);
      QueueRecorded(s, q');
      SetPath(src, x, l, s);
      q', k := Enqueue(q', src, x, s.d);
    }

    method ShortenKept(ghost g: Graph, l: Link, x: Length, q: seq<Node>, ghost s: Search)
      returns (q': seq<Node>, ghost k: nat)
      requires l in g && l.srcNode == g[l].src && l.srcNode in nodes && g[l].dst in nodes && Holds(s)
      requires s.q == q && Queued(s) && x == g[l].cost.Plus(s.d[g[l].dst]) && x.Less(l.srcNode.dist)
      requires target != null && Seen(g, target, true)
      modifies l.srcNode`dist, l.srcNode`outPath
      ensures Improves(g, s, g[l].dst, l, k) && Holds(Improved(g, s, l, k)) && q' == Improved(g, s, l, k).q
      ensures Seen(g, target, true)
    {
      q', k := Shorten(g, l, x, q, s);
      assert Seen(g, target, true) == old(Seen(g, target, true));
    }

    // l gives a shorter way.
    method Cross(ghost g: Graph, v: Node, l: Link, ghost open: seq<Link>, x: Length, q: seq<Node>, ghost s: Search)
      returns (q': seq<Node>, ghost s': Search)
      requires target != null && v in nodes && l.srcNode in nodes && Seen(g, target, true)
      requires l in g && g[l].src == l.srcNode && g[l].dst == v
      requires Holds(s) && s.q == q && Running(g, target, s, v, [l] + open)
      requires x == g[l].cost.Plus(s.d[v]) && x.Less(l.srcNode.dist)
      modifies l.srcNode`dist, l.srcNode`outPath
      ensures Seen(g, target, true)
      ensures Holds(s') && s'.q == q' && Running(g, target, s', v, open)
      ensures s'.done == s.done && s'.d.Keys == s.d.Keys
    {
      ghost var k;
      q', k := ShortenKept(g, l, x, q, s);
      ImprovedRuns(g, target, s, v, l, k, open);
      s' := Improved(g, s, l, k);
    }

    // one round of the inner loop: the i-th incoming link of v
    method TryLink(ghost g: Graph, v: Node, i: nat, q: seq<Node>, ghost s: Search)
      returns (q': seq<Node>, ghost s': Search)
      requires target != null && v in nodes && i < |v.inLinks| && Seen(g, target, true)
      requires Holds(s) && s.q == q && Running(g, target, s, v, v.inLinks[i..])
      modifies nodes`dist, nodes`outPath
      ensures Seen(g, target, true)
      ensures Holds(s') && s'.q == q' && Running(g, target, s', v, v.inLinks[i + 1..])
      ensures s'.done == s.done && s'.d.Keys == s.d.Keys
    {
      var l := v.inLinks[i];
      q', s' := q, s;
      DoneReaches(g, target, s, v);
      assert Describes(g, target, true, v);
      assert v.inLinks[i..] == [l] + v.inLinks[i + 1..];
      if !l.enabled {
        SkippedRuns(g, target, s, v, l, v.inLinks[i + 1..]);
        return;
      }
      var src := l.srcNode;
      if !src.enabled {
        SkippedRuns(g, target, s, v, l, v.inLinks[i + 1..]);
        return;
      }
      var newdist := v.dist.Plus(l.weight);
      if v != target {
        newdist := newdist.Plus(v.weight);
      }
      assert newdist == g[l].cost.Plus(s.d[v]);
      if newdist != Infinity && newdist.Less(src.dist) {
        q', s' := Cross(g, v, l, v.inLinks[i + 1..], newdist, q, s);
      } else {
        SkippedRuns(g, target, s, v, l, v.inLinks[i + 1..]);
      }
    }

    // the inner loop: all incoming links of v
    method TryLinks(ghost g: Graph, v: Node, q: seq<Node>, ghost s: Search)
      returns (q': seq<Node>, ghost s': Search)
      requires target != null && v in nodes && Seen(g, target, true)
      requires Holds(s) && s.q == q && Running(g, target, s, v, v.inLinks)
      modifies nodes`dist, nodes`outPath
      ensures Seen(g, target, true)
      ensures Holds(s') && s'.q == q' && Between(g, target, s')
      ensures s'.done == s.done && s'.d.Keys == s.d.Keys
    {
      q', s' := q, s;
      for i := 0 to |v.inLinks|
        invariant Seen(g, target, true)
        invariant Holds(s') && s'.q == q' && Running(g, target, s', v, v.inLinks[i..])
        invariant s'.done == s.done && s'.d.Keys == s.d.Keys
      {
        q', s' := TryLink(g, v, i, q', s');
      }
      assert v.inLinks[|v.inLinks|..] == [];
      NextBetween(g, target, s', v);
    }

    // What a search to t finds: in every node the length of a shortest way, and in every reached node other
    // than t the first link of one.
    ghost predicate Routed(g: Graph, t: Node)
      reads this`nodes, nodes`dist, nodes`outPath
    {
      forall n {:trigger n.dist} {:trigger n.outPath} :: n in nodes ==>
        && IsDistance(g, t, n, n.dist)
        && (n.outPath == null <==> n == t || n.dist == Infinity)
        && (n.outPath != null ==>
              && n.outPath in g && g[n.outPath].src == n && g[n.outPath].dst in nodes
              && n.dist == g[n.outPath].cost.Plus(g[n.outPath].dst.dist) && g[n.outPath].dst.dist.Less(n.dist))
    }

    lemma SearchRoutes(g: Graph, t: Node, s: Search)
      requires Holds(s) && Finished(g, t, s)
      ensures Routed(g, t)
    {
      forall n | n in nodes
        ensures n in s.d && IsDistance(g, t, n, n.dist)
      {
        FoundDistances(g, t, s, n);
      }
      forall n | n in nodes
        ensures n in s.via <==> n != t && n.dist.Finite?
        ensures n in s.via ==>
          && s.via[n] in g && g[s.via[n]].src == n && g[s.via[n]].dst in nodes
          && n.dist == g[s.via[n]].cost.Plus(g[s.via[n]].dst.dist) && g[s.via[n]].dst.dist.Less(n.dist)
      {
        FoundFirstLink(g, t, s, n);
      }
    }

    lemma NearRoutes(g: Graph, t: Node)
      requires Routed(Near(g, t), t)
      ensures Routed(g, t)
    {
      forall n | n in nodes
        ensures IsDistance(g, t, n, n.dist)
      {
        NearDistance(g, t, n, n.dist);
      }
    }

    // The links met by following outPath from n, `hops` at most.
    ghost function Route(g: Graph, t: Node, n: Node, hops: nat): seq<Link>
      reads this`nodes, nodes`outPath
    {
      if n == t || n !in nodes || n.outPath == null || n.outPath !in g || hops == 0 then []
      else [n.outPath] + Route(g, t, g[n.outPath].dst, hops - 1)
    }

    lemma {:induction false} RouteIsFollowed(g: Graph, t: Node, s: Search, n: Node, hops: nat)
      requires Holds(s) && Sound(g, t, s)
      ensures Route(g, t, n, hops) == Followed(g, t, s, n, hops)
    {
      if n in s.via && hops > 0 && s.via[n] in g {
        RouteIsFollowed(g, t, s, g[s.via[n]].dst, hops - 1);
      }
    }

    // Following outPath from a reached node ends at the target, and the costs add up to its distance.
    lemma RouteLeadsToTarget(g: Graph, t: Node, s: Search, n: Node)
      requires Holds(s) && Finished(g, t, s) && n in nodes && n.dist.Finite?
      ensures IsWay(g, t, n, Route(g, t, n, |nodes|)) && Cost(g, Route(g, t, n, |nodes|)) == n.dist
    {
      assert n in s.done;
      var i :| 0 <= i < |s.done| && s.done[i] == n;
      TakenOnce(s.done, s.d.Keys);
      assert |s.d.Keys| <= |nodes| by {
        assert forall m {:trigger m in s.d} :: m in s.d ==> m in nodes;
        NoMoreElements(s.d.Keys, nodes);
      }
      RouteIsFollowed(g, t, s, n, |nodes|);
      FollowedIsWay(g, t, s, i, |nodes|);
    }

    // The same over all links, if the search left out those that lead to nowhere.
    lemma NearRouteLeadsToTarget(g: Graph, t: Node, s: Search, n: Node)
      requires Holds(s) && Finished(Near(g, t), t, s) && n in nodes && n.dist.Finite?
      ensures IsWay(g, t, n, Route(Near(g, t), t, n, |nodes|)) && Cost(g, Route(Near(g, t), t, n, |nodes|)) == n.dist
    {
      RouteLeadsToTarget(Near(g, t), t, s, n);
      NearWayIsWay(g, t, n, Route(Near(g, t), t, n, |nodes|));
    }

    // one round of the outer loop: the first node of the queue
    method Settle(ghost g: Graph, q: seq<Node>, ghost s: Search, ghost all: set<Node>)
      returns (q': seq<Node>, ghost s': Search)
      requires target != null && Seen(g, target, true)
      requires Holds(s) && s.q == q && q != [] && Between(g, target, s) && s.d.Keys == all
      modifies nodes`dist, nodes`outPath
      ensures Seen(g, target, true)
      ensures Holds(s') && s'.q == q' && Between(g, target, s') && s'.d.Keys == all
      ensures |s.done| < |s'.done| <= |all|
    {
      var v := q[0];
      assert v in q && v in nodes;
      AllArrive(g, v, true);
      PoppedRuns(g, target, s, v.inLinks);
      TakenOnce(Popped(s).done, all);
      q', s' := TryLinks(g, v, q[1..], Popped(s));
    }

    // The target alone is in the queue.
    method Prepare(ghost g: Graph, t: Node, ghost weighted: bool) returns (q: seq<Node>, ghost s: Search)
      requires t in nodes && Seen(g, t, weighted) && Positive(g) && Inside(g)
      modifies nodes`dist, nodes`outPath
      ensures Seen(g, t, weighted) && Holds(s) && q == s.q == [t] && Between(g, t, s) && Level(s, t)
      ensures s.d.Keys == (set n | n in nodes) && s.done == []
    {
      ghost var all := set n | n in nodes;
      ClearPaths(g, t, weighted);
      q := [t];
      s := Started(all, t);
      StartedBetween(g, all, t);
    }

    // the whole search
    method RunSearch(ghost g: Graph, t: Node) returns (ghost s: Search)
      requires target == t && t in nodes && Seen(g, t, true) && Positive(g)
      requires Inside(g)
      modifies nodes`dist, nodes`outPath
      ensures Holds(s) && Finished(g, t, s)
    {
      ghost var all := set n | n in nodes;
      var q;
      q, s := Prepare(g, t, true);
      while q != []
        invariant target == t && Seen(g, t, true)
        invariant Holds(s) && s.q == q && Between(g, t, s) && s.d.Keys == all && |s.done| <= |all|
        decreases |all| - |s.done|
      {
        q, s := Settle(g, q, s, all);
      }
    }

    method RunSearchKept(ghost g: Graph, t: Node) returns (ghost s: Search)
      requires target == t && t in nodes && g == Near(Network(t, true), t)
      requires Seen(g, t, true) && Positive(g) && Inside(g)
      modifies nodes`dist, nodes`outPath
      ensures Holds(s) && Finished(g, t, s) && Network(t, true) == old(Network(t, true))
    {
      s := RunSearch(g, t);
    }

    // Finds the least cost from every node to t, and the way to go.
    method CalculateWeightedSingleShortestPathsTo(t: Node?) returns (ok: bool, ghost s: Search)
      requires InMirrored(links) && OutMirrored(links)
      requires t != null ==> t in nodes && WeightsValid(t)
      modifies this`target, nodes`dist, nodes`outPath
      ensures ok <==> t != null
      ensures !ok ==>
        target == old(target) && forall n :: n in nodes ==> n.dist == old(n.dist) && n.outPath == old(n.outPath)
      ensures ok ==> target == t && Network(t, true) == old(Network(t, true)) && Routed(Network(t, true), t)
      ensures ok ==> Holds(s) && Finished(Near(Network(t, true), t), t, s)
    {
      s := Search(map[], map[], [], []);
      if t == null {
        return false, s;
      }
      target := t;
      ghost var net := Network(t, true);
      assert net == old(Network(t, true));
      assert WeightsValid(t) == old(WeightsValid(t));
      NearIsPositive(t);
      NearIsSeen(t);
      s := RunSearchKept(Near(net, t), t);
      SearchRoutes(Near(net, t), t, s);
      NearRoutes(net, t);
      ok := true;
    }

    method AppendMet(ghost g: Graph, v: Node, l: Link, q: seq<Node>, ghost s: Search) returns (q': seq<Node>)
      requires target != null && v in nodes && l.srcNode in nodes && Holds(s) && Seen(g, target, false)
      modifies l.srcNode`dist, l.srcNode`outPath
      ensures Seen(g, target, false) && q' == q + [l.srcNode]
      ensures Holds(Search(s.d[l.srcNode := Finite(1.0).Plus(s.d[v])], s.via[l.srcNode := l], s.q, s.done))
    {
      SetPath(l.srcNode, v.dist.Plus(Finite(1.0)), l, s);
      assert Seen(g, target, false) == old(Seen(g, target, false));
      q' := q + [l.srcNode];
    }

    // The source of l is met for the first time.
    method Meet(ghost g: Graph, v: Node, l: Link, ghost open: seq<Link>, q: seq<Node>, ghost s: Search)
      returns (q': seq<Node>, ghost s': Search)
      requires target != null && v in nodes && l.srcNode in nodes && Seen(g, target, false) && Unit(g)
      requires l in g && g[l].src == l.srcNode && g[l].dst == v && l.srcNode.dist == Infinity
      requires Holds(s) && s.q == q && Running(g, target, s, v, [l] + open) && Level(s, v)
      modifies l.srcNode`dist, l.srcNode`outPath
      ensures Seen(g, target, false)
      ensures Holds(s') && s'.q == q' && Running(g, target, s', v, open) && Level(s', v)
      ensures s'.done == s.done && s'.d.Keys == s.d.Keys
    {
      FirstMet(g, target, s, v, l);
      FirstMetLevel(g, target, s, v, l);
      ImprovedRuns(g, target, s, v, l, |q|, open);
      q' := AppendMet(g, v, l, q, s);
      s' := Improved(g, s, l, |q|);
    }

    // one round of the inner loop of the search that counts links
    method TryHop(ghost g: Graph, v: Node, i: nat, q: seq<Node>, ghost s: Search)
      returns (q': seq<Node>, ghost s': Search)
      requires target != null && v in nodes && i < |v.inLinks| && Seen(g, target, false) && Unit(g)
      requires Holds(s) && s.q == q && Running(g, target, s, v, v.inLinks[i..]) && Level(s, v)
      modifies nodes`dist, nodes`outPath
      ensures Seen(g, target, false)
      ensures Holds(s') && s'.q == q' && Running(g, target, s', v, v.inLinks[i + 1..]) && Level(s', v)
      ensures s'.done == s.done && s'.d.Keys == s.d.Keys
    {
      q', s' := q, s;
      ghost var l, open := v.inLinks[i], v.inLinks[i + 1..];
      DoneReaches(g, target, s, v);
      assert Describes(g, target, false, v);
      assert v.inLinks[i..] == [l] + open;
      if !v.inLinks[i].enabled {
        SkippedRuns(g, target, s, v, l, open);
        return;
      }
      var w := v.inLinks[i].srcNode;
      if !w.enabled {
        SkippedRuns(g, target, s, v, l, open);
        return;
      }
      if w.dist == Infinity {
        q', s' := Meet(g, v, v.inLinks[i], open, q, s);
      } else {
        MetAgain(g, target, s, v, l);
        SkippedRuns(g, target, s, v, l, open);
      }
    }

    method TryHops(ghost g: Graph, v: Node, q: seq<Node>, ghost s: Search)
      returns (q': seq<Node>, ghost s': Search)
      requires target != null && v in nodes && Seen(g, target, false) && Unit(g)
      requires Holds(s) && s.q == q && Running(g, target, s, v, v.inLinks) && Level(s, v)
      modifies nodes`dist, nodes`outPath
      ensures Seen(g, target, false)
      ensures Holds(s') && s'.q == q' && Between(g, target, s') && Levelled(s')
      ensures s'.done == s.done && s'.d.Keys == s.d.Keys
    {
      q', s' := q, s;
      for i := 0 to |v.inLinks|
        invariant Seen(g, target, false)
        invariant Holds(s') && s'.q == q' && Running(g, target, s', v, v.inLinks[i..]) && Level(s', v)
        invariant s'.done == s.done && s'.d.Keys == s.d.Keys
      {
        q', s' := TryHop(g, v, i, q', s');
      }
      assert v.inLinks[|v.inLinks|..] == [];
      NextBetween(g, target, s', v);
      if q' != [] {
        NextLevel(s', v);
      }
    }

    method SettleHops(ghost g: Graph, q: seq<Node>, ghost s: Search, ghost all: set<Node>)
      returns (q': seq<Node>, ghost s': Search)
      requires target != null && Seen(g, target, false) && Unit(g)
      requires Holds(s) && s.q == q && q != [] && Between(g, target, s) && s.d.Keys == all && Levelled(s)
      modifies nodes`dist, nodes`outPath
      ensures Seen(g, target, false)
      ensures Holds(s') && s'.q == q' && Between(g, target, s') && s'.d.Keys == all && Levelled(s')
      ensures |s.done| < |s'.done| <= |all|
    {
      var v := q[0];
      assert v in q && v in nodes;
      AllArrive(g, v, false);
      PoppedRuns(g, target, s, v.inLinks);
      PoppedLevel(s);
      TakenOnce(Popped(s).done, all);
      q', s' := TryHops(g, v, q[1..], Popped(s));
    }

    method RunHops(ghost g: Graph, t: Node) returns (ghost s: Search)
      requires target == t && t in nodes && Seen(g, t, false) && Positive(g) && Unit(g)
      requires Inside(g)
      modifies nodes`dist, nodes`outPath
      ensures Holds(s) && Finished(g, t, s)
    {
      ghost var all := set n | n in nodes;
      var q;
      q, s := Prepare(g, t, false);
      while q != []
        invariant target == t && Seen(g, t, false)
        invariant Holds(s) && s.q == q && Between(g, t, s) && s.d.Keys == all && |s.done| <= |all|
        invariant Levelled(s)
        decreases |all| - |s.done|
      {
        q, s := SettleHops(g, q, s, all);
      }
    }

    method RunHopsKept(ghost g: Graph, t: Node) returns (ghost s: Search)
      requires target == t && t in nodes && g == Network(t, false) && Seen(g, t, false) && Positive(g) && Unit(g)
      requires Inside(g)
      modifies nodes`dist, nodes`outPath
      ensures Holds(s) && Finished(g, t, s) && g == Network(t, false)
    {
      s := RunHops(g, t);
    }

    // Finds the least number of links from every node to t, and the way to go.
    method CalculateUnweightedSingleShortestPathsTo(t: Node?) returns (ok: bool, ghost s: Search)
      requires InMirrored(links) && OutMirrored(links)
      requires t != null ==> t in nodes
      modifies this`target, nodes`dist, nodes`outPath
      ensures ok <==> t != null
      ensures !ok ==>
        target == old(target) && forall n :: n in nodes ==> n.dist == old(n.dist) && n.outPath == old(n.outPath)
      ensures ok ==> target == t && Network(t, false) == old(Network(t, false)) && Routed(Network(t, false), t)
      ensures ok ==> Holds(s) && Finished(Network(t, false), t, s)
    {
      s := Search(map[], map[], [], []);
      if t == null {
        return false, s;
      }
      target := t;
      ghost var g := Network(t, false);
      assert g == old(Network(t, false));
      NetworkIsUnit(t);
      NetworkIsSeen(t, false);
      s := RunHopsKept(g, t);
      SearchRoutes(g, t, s);
      ok := true;
    }
  }
}

/** Graphs with weighted links, and a search for shortest ways as a sequence of steps. */
module ShortestPaths {

  // A distance or weight: a real number or infinity.
  datatype Length = Finite(value: real) | Infinity {
    predicate Less(other: Length) {
      Finite? && (other.Finite? ==> value < other.value)
    }

    predicate AtMost(other: Length) {
      !other.Less(this)
    }

    function Plus(other: Length): Length {
      if Finite? && other.Finite? then Finite(value + other.value) else Infinity
    }
  }

  // A module ID is a 32-bit integer; -1 stands for none.
  type ModuleId = x: int | -0x8000_0000 <= x < 0x8000_0000

  class Node {
    const moduleId: ModuleId
    var weight: Length
    var enabled: bool
    var inLinks: seq<Link>
    var outLinks: seq<Link>
    var dist: Length
    var outPath: Link?

    constructor (moduleId: ModuleId)
      ensures this.moduleId == moduleId && weight == Finite(0.0) && enabled && inLinks == outLinks == []
      ensures dist == Infinity && outPath == null
    {
      this.moduleId, weight, enabled, inLinks, outLinks := moduleId, Finite(0.0), true, [], [];
      dist, outPath := Infinity, null;
    }
  }

  class Link {
    var srcNode: Node?
    var destNode: Node?
    var srcGateId: int
    var destGateId: int
    var weight: Length
    var enabled: bool

    constructor (weight: Length)
      ensures srcNode == null && destNode == null && this.weight == weight && enabled
    {
      srcNode, destNode, srcGateId, destGateId := null, null, -1, -1;
      this.weight, enabled := weight, true;
    }
  }

  ghost predicate NoDuplicates<T>(s: seq<T>) {
    forall i, j :: 0 <= i < j < |s| ==> s[i] != s[j]
  }

  lemma SnocFacts<T>(s: seq<T>, v: T)
    requires NoDuplicates(s) && v !in s
    ensures NoDuplicates(s + [v])
    ensures forall n {:trigger n in s + [v]} :: n in s + [v] <==> n in s || n == v
  {
  }

  // ---------- the graph as a value ----------

  // A usable link: where it leads and what crossing it costs.
  datatype Edge = Edge(src: Node, dst: Node, cost: Length)

  type Graph = map<Link, Edge>

  // Every edge costs something.
  predicate Positive(g: Graph) {
    forall l {:trigger g[l]} :: l in g ==> Finite(0.0).Less(g[l].cost)
  }

  // A way over usable links from n to the target.
  predicate IsWay(g: Graph, target: Node, n: Node, older way: seq<Link>) {
    if way == [] then n == target
    else way[0] in g && g[way[0]].src == n && IsWay(g, target, g[way[0]].dst, way[1..])
  }

  function Cost(g: Graph, way: seq<Link>): Length {
    if way == [] then Finite(0.0)
    else (if way[0] in g then g[way[0]].cost else Infinity).Plus(Cost(g, way[1..]))
  }

  // d is the length of a shortest way from n to the target, infinite if there is none of finite length.
  ghost predicate IsDistance(g: Graph, target: Node, n: Node, d: Length) {
    && (forall way :: IsWay(g, target, n, way) ==> d.AtMost(Cost(g, way)))
    && (d.Finite? ==> exists way :: IsWay(g, target, n, way) && Cost(g, way) == d)
  }

  // There is a way from n to the target at a finite cost.
  ghost predicate Reaches(g: Graph, target: Node, n: Node) {
    exists way :: IsWay(g, target, n, way) && Cost(g, way).Finite?
  }

  // The links that lead to nodes from which the target can be reached. Others are never looked at.
  ghost function Near(g: Graph, target: Node): Graph {
    map l | l in g && Reaches(g, target, g[l].dst) :: g[l]
  }

  lemma {:induction false} NearWayIsWay(g: Graph, target: Node, n: Node, way: seq<Link>)
    requires IsWay(Near(g, target), target, n, way)
    ensures IsWay(g, target, n, way) && Cost(g, way) == Cost(Near(g, target), way)
  {
    if way != [] {
      NearWayIsWay(g, target, g[way[0]].dst, way[1..]);
    }
  }

  lemma {:induction false} FiniteWayIsNear(g: Graph, target: Node, n: Node, way: seq<Link>)
    requires IsWay(g, target, n, way) && Cost(g, way).Finite?
    ensures IsWay(Near(g, target), target, n, way) && Cost(Near(g, target), way) == Cost(g, way)
  {
    if way != [] {
      FiniteWayIsNear(g, target, g[way[0]].dst, way[1..]);
      assert Reaches(g, target, g[way[0]].dst);
    }
  }

  // So leaving the others out changes no distance.
  lemma NearDistance(g: Graph, target: Node, n: Node, d: Length)
    requires IsDistance(Near(g, target), target, n, d)
    ensures IsDistance(g, target, n, d)
  {
    forall way | IsWay(g, target, n, way)
      ensures d.AtMost(Cost(g, way))
    {
      if Cost(g, way).Finite? {
        FiniteWayIsNear(g, target, n, way);
      }
    }
    if d.Finite? {
      var way :| IsWay(Near(g, target), target, n, way) && Cost(Near(g, target), way) == d;
      NearWayIsWay(g, target, n, way);
    }
  }

  lemma NearReaches(g: Graph, target: Node, n: Node)
    requires Reaches(Near(g, target), target, n)
    ensures Reaches(g, target, n)
  {
    var way :| IsWay(Near(g, target), target, n, way) && Cost(Near(g, target), way).Finite?;
    NearWayIsWay(g, target, n, way);
  }

  // ---------- the state of the search ----------

  // d: tentative distances; via: the first link of the best way known; q: the queue; done: the nodes
  // taken from the queue, in that order.
  datatype Search = Search(d: map<Node, Length>, via: map<Node, Link>, q: seq<Node>, done: seq<Node>)

  // The nodes of s are in d, nearest first.
  predicate Sorted(d: map<Node, Length>, s: seq<Node>) {
    && (forall n {:trigger n in s} :: n in s ==> n in d)
    && (forall i, j :: 0 <= i < j < |s| ==> s[i] in d && s[j] in d && d[s[i]].AtMost(d[s[j]]))
  }

  // The nodes with a finite distance are those in the queue, sorted by distance, and those already
  // taken from it, which are no farther away.
  ghost predicate Queued(s: Search) {
    && NoDuplicates(s.q) && NoDuplicates(s.done)
    && Sorted(s.d, s.q) && (forall n {:trigger n in s.done} :: n in s.done ==> n in s.d)
    && (forall n {:trigger s.d[n]} :: n in s.d ==> (s.d[n].Finite? <==> n in s.q || n in s.done))
    && (forall a, b :: a in s.done && b in s.q ==> a != b && a in s.d && b in s.d && s.d[a].AtMost(s.d[b]))
  }

  // The best way known from n starts with via[n] and goes on from a node taken from the queue before n.
  ghost predicate Explained(g: Graph, s: Search, n: Node)
    requires n in s.d
  {
    && n in s.via && s.via[n] in g && g[s.via[n]].src == n
    && var m := g[s.via[n]].dst;
       && m in s.done && m in s.d && s.d[n] == g[s.via[n]].cost.Plus(s.d[m])
       && forall i :: 0 <= i < |s.done| && s.done[i] == n ==> m in s.done[..i]
  }

  ghost predicate Sound(g: Graph, target: Node, s: Search) {
    && Positive(g) && Queued(s)
    && target in s.d && s.d[target] == Finite(0.0)
    && (forall l {:trigger g[l]} :: l in g ==> g[l].src in s.d && g[l].dst in s.d)
    && (forall n {:trigger Explained(g, s, n)} :: n in s.d && s.d[n].Finite? && n != target ==> Explained(g, s, n))
    && (forall n {:trigger n in s.via} :: n in s.via ==> n in s.d && s.d[n].Finite? && n != target)
  }

  // The link gives no shorter way than the one known.
  ghost predicate Relaxed(g: Graph, s: Search, l: Link)
    requires l in g
  {
    g[l].src in s.d && g[l].dst in s.d && s.d[g[l].src].AtMost(g[l].cost.Plus(s.d[g[l].dst]))
  }

  // All links into finished nodes are relaxed, except those into v that are in `open`.
  ghost predicate RelaxedBut(g: Graph, s: Search, v: Node, open: seq<Link>) {
    forall l {:trigger Relaxed(g, s, l)} ::
      l in g && g[l].dst in s.done && !(g[l].dst == v && l in open) ==> Relaxed(g, s, l)
  }

  // v was the last node taken from the queue.
  ghost predicate Current(s: Search, v: Node) {
    && v in s.done && v in s.d && s.d[v].Finite?
    && forall a {:trigger a in s.done} :: a in s.done ==> a in s.d && s.d[a].AtMost(s.d[v])
  }

  // ---------- steps of the search ----------

  function Started(nodes: set<Node>, target: Node): Search {
    Search(map n | n in nodes + {target} :: if n == target then Finite(0.0) else Infinity, map[], [target], [])
  }

  lemma StartedIsSound(g: Graph, nodes: set<Node>, target: Node)
    requires Positive(g) && forall l {:trigger g[l]} :: l in g ==> g[l].src in nodes && g[l].dst in nodes
    ensures Sound(g, target, Started(nodes, target))
  {
  }

  function Popped(s: Search): Search
    requires s.q != []
  {
    s.(q := s.q[1..], done := s.done + [s.q[0]])
  }

  lemma TailFacts(d: map<Node, Length>, q: seq<Node>)
    requires NoDuplicates(q) && Sorted(d, q) && q != []
    ensures NoDuplicates(q[1..]) && Sorted(d, q[1..])
    ensures forall n {:trigger n in q[1..]} :: n in q[1..] <==> n in q && n != q[0]
    ensures forall n {:trigger d[n]} :: n in q ==> n in d && d[q[0]].AtMost(d[n])
  {
    var r := q[1..];
    assert forall i {:trigger r[i]} :: 0 <= i < |r| ==> r[i] == q[i + 1] && q[i + 1] in q;
    assert forall n :: n in q ==> n == q[0] || n in r;
    forall i, j | 0 <= i < j < |r|
      ensures r[i] in d && r[j] in d && d[r[i]].AtMost(d[r[j]])
    {
      assert r[i] == q[i + 1] && r[j] == q[j + 1];
    }
  }

  lemma PoppedQueued(s: Search)
    requires Queued(s) && s.q != []
    ensures Queued(Popped(s)) && Current(Popped(s), s.q[0])
  {
    TailFacts(s.d, s.q);
    assert s.q[0] in s.q;
    SnocFacts(s.done, s.q[0]);
  }

  lemma PoppedExplained(g: Graph, s: Search, n: Node)
    requires s.q != [] && s.q[0] !in s.done && n in s.d && Explained(g, s, n) && (n in s.done || n in s.q)
    requires forall m :: m in s.q ==> m !in s.done
    ensures Explained(g, Popped(s), n)
  {
    var s' := Popped(s);
    assert s'.done[..|s.done|] == s.done;
    forall i | 0 <= i < |s'.done| && s'.done[i] == n
      ensures g[s.via[n]].dst in s'.done[..i]
    {
      if i < |s.done| {
        assert s'.done[..i] == s.done[..i];
      }
    }
  }

  lemma PoppedIsSound(g: Graph, target: Node, s: Search)
    requires Sound(g, target, s) && s.q != []
    ensures Sound(g, target, Popped(s))
  {
    PoppedQueued(s);
    forall n | n in s.d && s.d[n].Finite? && n != target
      ensures Explained(g, Popped(s), n)
    {
      assert Explained(g, s, n);
      assert s.q[0] in s.q;
      PoppedExplained(g, s, n);
    }
  }

  // The queue without n.
  function Without(q: seq<Node>, n: Node): seq<Node> {
    if q == [] then [] else (if q[0] == n then [] else [q[0]]) + Without(q[1..], n)
  }

  lemma ConsFacts(d: map<Node, Length>, q: seq<Node>, x: Node)
    requires NoDuplicates(q) && Sorted(d, q) && x !in q && x in d
    requires forall n {:trigger n in q} :: n in q ==> d[x].AtMost(d[n])
    ensures NoDuplicates([x] + q) && Sorted(d, [x] + q)
  {
    var r := [x] + q;
    assert forall i {:trigger r[i]} :: 0 < i < |r| ==> r[i] == q[i - 1] && q[i - 1] in q;
  }

  lemma {:induction false} WithoutFacts(d: map<Node, Length>, q: seq<Node>, n: Node)
    requires NoDuplicates(q) && Sorted(d, q)
    ensures NoDuplicates(Without(q, n)) && Sorted(d, Without(q, n))
    ensures forall m {:trigger m in Without(q, n)} :: m in Without(q, n) <==> m in q && m != n
  {
    if q != [] {
      TailFacts(d, q);
      WithoutFacts(d, q[1..], n);
      assert forall m :: m in q <==> m == q[0] || m in q[1..];
      assert q[0] in q;
      assert n == q[0] ==> Without(q, n) == Without(q[1..], n);
      if q[0] != n {
        ConsFacts(d, Without(q[1..], n), q[0]);
      }
    }
  }

  lemma {:induction false} WithoutAbsent(q: seq<Node>, n: Node)
    requires n !in q
    ensures Without(q, n) == q
  {
    if q != [] {
      WithoutAbsent(q[1..], n);
    }
  }

  function Inserted<T>(q: seq<T>, n: T, k: nat): seq<T>
    requires k <= |q|
  {
    q[..k] + [n] + q[k..]
  }

  // The place of a node at distance x in a sorted queue: behind all that are at most as far away.
  predicate IsPlace(d: map<Node, Length>, q: seq<Node>, x: Length, k: nat) {
    && k <= |q| && (forall i :: 0 <= i < |q| ==> q[i] in d)
    && (forall i :: 0 <= i < k ==> d[q[i]].AtMost(x))
    && (k < |q| ==> x.Less(d[q[k]]))
  }

  lemma InsertedFacts(d: map<Node, Length>, q: seq<Node>, n: Node, x: Length, k: nat)
    requires NoDuplicates(q) && Sorted(d, q) && n !in q && IsPlace(d, q, x, k)
    ensures NoDuplicates(Inserted(q, n, k)) && Sorted(d[n := x], Inserted(q, n, k))
    ensures forall m {:trigger m in Inserted(q, n, k)} :: m in Inserted(q, n, k) <==> m in q || m == n
  {
    var r := Inserted(q, n, k);
    assert q == q[..k] + q[k..];
    assert forall m {:trigger m in r} :: m in r <==> m in q[..k] || m == n || m in q[k..];
  }

  // A shorter way from the source of l was found, over l: it moves to its place k in the queue.
  function Improved(g: Graph, s: Search, l: Link, k: nat): Search
    requires l in g && g[l].dst in s.d && k <= |Without(s.q, g[l].src)|
  {
    var n := g[l].src;
    Search(s.d[n := g[l].cost.Plus(s.d[g[l].dst])], s.via[n := l], Inserted(Without(s.q, n), n, k), s.done)
  }

  // l leads to v and gives a shorter way of finite length from its source.
  ghost predicate Improves(g: Graph, s: Search, v: Node, l: Link, k: nat) {
    && l in g && g[l].dst == v && v in s.d && g[l].src in s.d
    && g[l].cost.Plus(s.d[v]).Less(s.d[g[l].src])
    && IsPlace(s.d, Without(s.q, g[l].src), g[l].cost.Plus(s.d[v]), k)
  }

  // A finished node is never improved, so an improved node that has been met is in the queue, as a comment says.
  lemma NeverImprovedAgain(g: Graph, s: Search, v: Node, l: Link, k: nat)
    requires Positive(g) && Current(s, v) && Improves(g, s, v, l, k)
    ensures g[l].src !in s.done && g[l].src != v && g[l].cost.Finite? && s.d[v].Less(g[l].cost.Plus(s.d[v]))
    ensures Queued(s) ==> (g[l].src in s.q <==> s.d[g[l].src] != Infinity)
  {
    assert Finite(0.0).Less(g[l].cost);
    assert g[l].cost.Plus(s.d[v]).Finite?;
    assert g[l].src in s.done ==> s.d[g[l].src].AtMost(s.d[v]);
  }

  lemma ImprovedQueued(g: Graph, s: Search, v: Node, l: Link, k: nat)
    requires Positive(g) && Queued(s) && Current(s, v) && Improves(g, s, v, l, k)
    ensures Queued(Improved(g, s, l, k)) && Current(Improved(g, s, l, k), v)
  {
    NeverImprovedAgain(g, s, v, l, k);
    var n, x := g[l].src, g[l].cost.Plus(s.d[v]);
    WithoutFacts(s.d, s.q, n);
    InsertedFacts(s.d, Without(s.q, n), n, x, k);
  }

  lemma ImprovedIsSound(g: Graph, target: Node, s: Search, v: Node, l: Link, k: nat)
    requires Sound(g, target, s) && Current(s, v) && Improves(g, s, v, l, k) && target in s.done
    ensures Sound(g, target, Improved(g, s, l, k))
  {
    NeverImprovedAgain(g, s, v, l, k);
    ImprovedQueued(g, s, v, l, k);
    var n, s' := g[l].src, Improved(g, s, l, k);
    forall m | m in s'.d && s'.d[m].Finite? && m != target
      ensures Explained(g, s', m)
    {
      if m != n {
        assert Explained(g, s, m);
      }
    }
  }

  // Only n's distance went down, and n is not finished: finished links stay relaxed.
  lemma ImprovedStaysRelaxed(g: Graph, target: Node, s: Search, v: Node, l: Link, k: nat, open: seq<Link>)
    requires Sound(g, target, s) && Current(s, v) && Improves(g, s, v, l, k)
    requires RelaxedBut(g, s, v, [l] + open)
    ensures RelaxedBut(g, Improved(g, s, l, k), v, open)
  {
    NeverImprovedAgain(g, s, v, l, k);
    var s' := Improved(g, s, l, k);
    forall m | m in g && g[m].dst in s'.done && !(g[m].dst == v && m in open)
      ensures Relaxed(g, s', m)
    {
      if m != l {
        assert Relaxed(g, s, m);
      }
    }
  }

  lemma PoppedRelaxedBut(g: Graph, target: Node, s: Search, open: seq<Link>)
    requires Sound(g, target, s) && s.q != [] && RelaxedBut(g, s, target, [])
    requires forall l {:trigger g[l]} :: l in g && g[l].dst == s.q[0] ==> l in open
    ensures RelaxedBut(g, Popped(s), s.q[0], open)
  {
    var s' := Popped(s);
    forall m | m in g && g[m].dst in s'.done && !(g[m].dst == s.q[0] && m in open)
      ensures Relaxed(g, s', m)
    {
      assert Relaxed(g, s, m);
    }
  }

  // v was just taken from the queue, and its incoming links except those in `open` have been seen to.
  ghost predicate Running(g: Graph, target: Node, s: Search, v: Node, open: seq<Link>) {
    Sound(g, target, s) && Current(s, v) && target in s.done && RelaxedBut(g, s, v, open)
  }

  lemma ImprovedRuns(g: Graph, target: Node, s: Search, v: Node, l: Link, k: nat, open: seq<Link>)
    requires Running(g, target, s, v, [l] + open) && Improves(g, s, v, l, k)
    ensures Running(g, target, Improved(g, s, l, k), v, open)
    ensures Improved(g, s, l, k).d.Keys == s.d.Keys
  {
    ImprovedIsSound(g, target, s, v, l, k);
    ImprovedStaysRelaxed(g, target, s, v, l, k, open);
    NeverImprovedAgain(g, s, v, l, k);
  }

  lemma SkippedRuns(g: Graph, target: Node, s: Search, v: Node, l: Link, open: seq<Link>)
    requires Running(g, target, s, v, [l] + open) && (l in g ==> Relaxed(g, s, l))
    ensures Running(g, target, s, v, open)
  {
    forall m | m in g && g[m].dst in s.done && !(g[m].dst == v && m in open)
      ensures Relaxed(g, s, m)
    {
      assert m != l ==> m !in [l] + open || m in open;
      assert m != l ==> Relaxed(g, s, m);
    }
  }

  // Between two nodes: all links into finished nodes have been seen to; the target comes first.
  ghost predicate Between(g: Graph, target: Node, s: Search) {
    && Sound(g, target, s) && RelaxedBut(g, s, target, [])
    && (target in s.done || (s.q != [] && s.q[0] == target))
  }

  lemma StartedBetween(g: Graph, nodes: set<Node>, target: Node)
    requires Positive(g) && forall l {:trigger g[l]} :: l in g ==> g[l].src in nodes && g[l].dst in nodes
    ensures Between(g, target, Started(nodes, target))
  {
    StartedIsSound(g, nodes, target);
  }

  lemma PoppedRuns(g: Graph, target: Node, s: Search, open: seq<Link>)
    requires Between(g, target, s) && s.q != []
    requires forall l {:trigger g[l]} :: l in g && g[l].dst == s.q[0] ==> l in open
    ensures Running(g, target, Popped(s), s.q[0], open)
  {
    PoppedIsSound(g, target, s);
    PoppedQueued(s);
    PoppedRelaxedBut(g, target, s, open);
  }

  lemma NextBetween(g: Graph, target: Node, s: Search, v: Node)
    requires Running(g, target, s, v, [])
    ensures Between(g, target, s)
  {
    forall m | m in g && g[m].dst in s.done
      ensures Relaxed(g, s, m)
    {
      assert !(g[m].dst == v && m in []);
    }
  }

  lemma {:induction false} NoMoreElements<T>(all: set<T>, s: seq<T>)
    requires forall x {:trigger x in all} :: x in all ==> x in s
    ensures |all| <= |s|
  {
    if s != [] {
      assert forall x {:trigger x in all - {s[0]}} :: x in all - {s[0]} ==> x in s[1..];
      NoMoreElements(all - {s[0]}, s[1..]);
    } else {
      assert all == {};
    }
  }

  // Every node is taken from the queue at most once.
  lemma {:induction false} TakenOnce(done: seq<Node>, all: set<Node>)
    requires NoDuplicates(done) && forall n {:trigger n in done} :: n in done ==> n in all
    ensures |done| <= |all|
  {
    if done != [] {
      var last := done[|done| - 1];
      var front := done[..|done| - 1];
      assert last in done && last in all;
      assert last !in front;
      assert forall n {:trigger n in front} :: n in front ==> n in done;
      TakenOnce(front, all - {last});
    }
  }

  // ---------- every link costs one ----------

  ghost predicate Unit(g: Graph) {
    forall l {:trigger g[l]} :: l in g ==> g[l].cost == Finite(1.0)
  }

  // No node of the queue is more than one link farther away than v.
  ghost predicate Level(s: Search, v: Node) {
    v in s.d && forall b {:trigger b in s.q} :: b in s.q ==> b in s.d && s.d[b].AtMost(s.d[v].Plus(Finite(1.0)))
  }

  ghost predicate Levelled(s: Search) {
    s.q != [] ==> Level(s, s.q[0])
  }

  lemma PoppedLevel(s: Search)
    requires Queued(s) && s.q != [] && Level(s, s.q[0])
    ensures Level(Popped(s), s.q[0])
  {
    TailFacts(s.d, s.q);
  }

  lemma NextLevel(s: Search, v: Node)
    requires Queued(s) && v in s.done && Level(s, v) && s.q != []
    ensures Level(s, s.q[0])
  {
    assert s.q[0] in s.q;
  }

  // A node met for the first time goes to the end of the queue.
  lemma FirstMet(g: Graph, target: Node, s: Search, v: Node, l: Link)
    requires Sound(g, target, s) && Current(s, v) && Level(s, v) && Unit(g)
    requires l in g && g[l].dst == v && s.d[g[l].src] == Infinity
    ensures Without(s.q, g[l].src) == s.q && Improves(g, s, v, l, |s.q|)
  {
    WithoutAbsent(s.q, g[l].src);
    assert forall i {:trigger s.q[i]} :: 0 <= i < |s.q| ==> s.q[i] in s.q;
  }

  lemma FirstMetLevel(g: Graph, target: Node, s: Search, v: Node, l: Link)
    requires Current(s, v) && Level(s, v) && l in g && g[l].dst == v && g[l].cost == Finite(1.0)
    requires v != g[l].src && Without(s.q, g[l].src) == s.q
    ensures Improved(g, s, l, |s.q|).q == s.q + [g[l].src] && Level(Improved(g, s, l, |s.q|), v)
  {
    assert Inserted(s.q, g[l].src, |s.q|) == s.q + [g[l].src];
  }

  // A node met again has a way that is at least as short.
  lemma MetAgain(g: Graph, target: Node, s: Search, v: Node, l: Link)
    requires Sound(g, target, s) && Current(s, v) && Level(s, v) && Unit(g)
    requires l in g && g[l].dst == v && s.d[g[l].src] != Infinity
    ensures Relaxed(g, s, l)
  {
    assert g[l].src in s.q || g[l].src in s.done;
  }

  // ---------- the end of the search ----------

  ghost predicate Finished(g: Graph, target: Node, s: Search) {
    Sound(g, target, s) && s.q == [] && RelaxedBut(g, s, target, [])
  }

  // No way is shorter than the distance found.
  lemma {:induction false} NoShorterWay(g: Graph, target: Node, s: Search, n: Node, way: seq<Link>)
    requires Finished(g, target, s) && n in s.d && IsWay(g, target, n, way)
    ensures s.d[n].AtMost(Cost(g, way))
    decreases |way|
  {
    if way != [] {
      var l := way[0];
      NoShorterWay(g, target, s, g[l].dst, way[1..]);
      assert Finite(0.0).Less(g[l].cost);
      if Cost(g, way).Finite? {
        assert g[l].dst in s.done;
        assert Relaxed(g, s, l);
      }
    }
  }

  // The way found from n: over the first link known, and so on, for at most `hops` links.
  function Followed(g: Graph, target: Node, s: Search, n: Node, hops: nat): seq<Link> {
    if n == target || n !in s.via || s.via[n] !in g || hops == 0 then []
    else [s.via[n]] + Followed(g, target, s, g[s.via[n]].dst, hops - 1)
  }

  lemma FollowedOneMore(g: Graph, target: Node, s: Search, n: Node, hops: nat)
    requires n in s.d && n != target && Explained(g, s, n) && hops > 0
    requires IsWay(g, target, g[s.via[n]].dst, Followed(g, target, s, g[s.via[n]].dst, hops - 1))
    requires Cost(g, Followed(g, target, s, g[s.via[n]].dst, hops - 1)) == s.d[g[s.via[n]].dst]
    ensures IsWay(g, target, n, Followed(g, target, s, n, hops))
    ensures Cost(g, Followed(g, target, s, n, hops)) == s.d[n]
  {
    var rest := Followed(g, target, s, g[s.via[n]].dst, hops - 1);
    var way := [s.via[n]] + rest;
    assert way[0] == s.via[n] && way[1..] == rest;
    assert Followed(g, target, s, n, hops) == way;
  }

  lemma ExplainedEarlier(g: Graph, s: Search, i: nat) returns (j: nat)
    requires i < |s.done| && s.done[i] in s.d && Explained(g, s, s.done[i])
    ensures j < i && s.done[j] == g[s.via[s.done[i]]].dst
  {
    assert g[s.via[s.done[i]]].dst in s.done[..i];
    j :| 0 <= j < i && s.done[j] == g[s.via[s.done[i]]].dst;
  }

  // Following the first links from a reached node leads to the target, at the distance found.
  lemma {:induction false} FollowedIsWay(g: Graph, target: Node, s: Search, i: nat, hops: nat)
    requires Sound(g, target, s) && i < |s.done| && i <= hops
    ensures IsWay(g, target, s.done[i], Followed(g, target, s, s.done[i], hops))
    ensures Cost(g, Followed(g, target, s, s.done[i], hops)) == s.d[s.done[i]]
    decreases i
  {
    var n := s.done[i];
    assert n in s.done && s.d[n].Finite?;
    if n != target {
      assert Explained(g, s, n);
      var j := ExplainedEarlier(g, s, i);
      FollowedIsWay(g, target, s, j, hops - 1);
      FollowedOneMore(g, target, s, n, hops);
    }
  }

  // The target can be reached from every node taken from the queue.
  lemma DoneReaches(g: Graph, target: Node, s: Search, v: Node)
    requires Sound(g, target, s) && v in s.done
    ensures Reaches(g, target, v)
  {
    var i :| 0 <= i < |s.done| && s.done[i] == v;
    FollowedIsWay(g, target, s, i, i);
  }

  // What the search found is, for every node, the least cost over all ways to the target, and infinite
  // exactly when no way has a finite cost.
  lemma FoundDistances(g: Graph, target: Node, s: Search, n: Node)
    requires Finished(g, target, s) && n in s.d
    ensures IsDistance(g, target, n, s.d[n])
    ensures s.d[n].Infinity? <==> forall way :: IsWay(g, target, n, way) ==> Cost(g, way).Infinity?
  {
    forall way | IsWay(g, target, n, way)
      ensures s.d[n].AtMost(Cost(g, way))
    {
      NoShorterWay(g, target, s, n, way);
    }
    if s.d[n].Finite? {
      assert n in s.done;
      var i :| 0 <= i < |s.done| && s.done[i] == n;
      FollowedIsWay(g, target, s, i, |s.done|);
      assert IsWay(g, target, n, Followed(g, target, s, n, |s.done|));
    }
  }

  // The first link of the way found starts a shortest way: crossing it leaves exactly the rest of the
  // distance, which is less. A node has one exactly when it is reached and not the target.
  lemma FoundFirstLink(g: Graph, target: Node, s: Search, n: Node)
    requires Finished(g, target, s) && n in s.d
    ensures n in s.via <==> n != target && s.d[n].Finite?
    ensures n in s.via ==>
      && s.via[n] in g && g[s.via[n]].src == n && g[s.via[n]].dst in s.d
      && s.d[n] == g[s.via[n]].cost.Plus(s.d[g[s.via[n]].dst]) && s.d[g[s.via[n]].dst].Less(s.d[n])
  {
    if n != target && s.d[n].Finite? {
      assert Explained(g, s, n);
      assert Finite(0.0).Less(g[s.via[n]].cost);
    }
  }
}

/** Intervals, nodes, and the theory of red-black trees seen from a place inside them. */
module IntervalTreeShapes {
  import opened Powers

  const MAX_TIME: int := 0x7FFF_FFFF_FFFF_FFFF

  type SimTime = t: int | -MAX_TIME <= t <= MAX_TIME

  function Max(a: SimTime, b: SimTime): SimTime {
    if a < b then b else a
  }

  class Interval {
    const low: SimTime
    const high: SimTime

    constructor (low: SimTime, high: SimTime)
      ensures this.low == low && this.high == high
    {
      this.low, this.high := low, high;
    }
  }

  class Node {
    const interval: Interval?
    const key: SimTime
    const high: SimTime
    var maxHigh: SimTime
    var red: bool
    var left: Node
    var right: Node
    var parent: Node

    constructor Sentinel(limit: SimTime)
      ensures interval == null && maxHigh == limit && !red
      ensures left == this && right == this && parent == this
    {
      interval, key, high, maxHigh, red := null, limit, limit, limit, false;
      left, right, parent := this, this, this;
    }

    constructor (ivl: Interval)
      ensures interval == ivl && key == ivl.low && high == ivl.high && maxHigh == high && !red
    {
      interval, key, high, maxHigh, red := ivl, ivl.low, ivl.high, ivl.high, false;
      left, right, parent := this, this, this;
    }
  }

  // The subtree that hangs below a pointer, with the colour and the max_high each node carries.
  datatype Tree =
    | Leaf
    | Branch(left: Tree, node: Node, red: bool, maxHigh: SimTime, right: Tree)
  {
    ghost function Nodes(): set<Node> {
      if Leaf? then {} else left.Nodes() + {node} + right.Nodes()
    }

    ghost predicate Distinct() {
      Branch? ==>
        && node !in left.Nodes() && node !in right.Nodes() && left.Nodes() !! right.Nodes()
        && left.Distinct() && right.Distinct()
    }

    function InOrder(): seq<Node> {
      if Leaf? then [] else left.InOrder() + [node] + right.InOrder()
    }

    function Peak(): SimTime {
      if Leaf? then -MAX_TIME else maxHigh
    }

    // Every max_high is the maximum of the node's own high end and its children's max_high.
    predicate MaxOk() {
      Branch? ==> maxHigh == MaxOf(node, left, right) && left.MaxOk() && right.MaxOk()
    }

    predicate IsRed() {
      Branch? && red
    }

    function Bh(): nat {
      if Leaf? then 0 else left.Bh() + if red then 0 else 1
    }

    // Red-black: equal black heights everywhere and no red node with a red child.
    predicate Rb() {
      Branch? ==>
        && left.Rb() && right.Rb() && left.Bh() == right.Bh()
        && (red ==> !left.IsRed() && !right.IsRed())
    }

    function Height(): nat {
      if Leaf? then 0 else 1 + if left.Height() < right.Height() then right.Height() else left.Height()
    }
  }

  // Everything above a pointer: the way from it up to the root, with the subtrees passed on the way.
  datatype Path =
    | Top
    | Left(up: Path, node: Node, red: bool, maxHigh: SimTime, other: Tree)
    | Right(up: Path, node: Node, red: bool, maxHigh: SimTime, other: Tree)
  {
    ghost function Nodes(): set<Node> {
      if Top? then {} else up.Nodes() + {node} + other.Nodes()
    }

    ghost predicate Distinct() {
      !Top? ==>
        && node !in up.Nodes() && node !in other.Nodes() && up.Nodes() !! other.Nodes()
        && up.Distinct() && other.Distinct()
    }

    function Depth(): nat {
      if Top? then 0 else 1 + up.Depth()
    }

    function Before(): seq<Node> {
      match this
      case Top => []
      case Left(up, _, _, _, _) => up.Before()
      case Right(up, n, _, _, o) => up.Before() + o.InOrder() + [n]
    }

    function After(): seq<Node> {
      match this
      case Top => []
      case Left(up, n, _, _, o) => [n] + o.InOrder() + up.After()
      case Right(up, _, _, _, _) => up.After()
    }

    predicate OthersMaxOk() {
      !Top? ==> other.MaxOk() && up.OthersMaxOk()
    }

    predicate MaxOk(peak: SimTime) {
      !Top? ==> maxHigh == Max(node.high, Max(peak, other.Peak())) && other.MaxOk() && up.MaxOk(maxHigh)
    }

    predicate ParentRed() {
      !Top? && red
    }

    // The nodes above and beside the hole are red-black for a subtree of black height k.
    predicate Rb(k: nat) {
      !Top? ==>
        && other.Rb() && other.Bh() == k
        && (red ==> !other.IsRed() && !up.ParentRed())
        && up.Rb(if red then k else k + 1)
    }

    predicate RootBlack() {
      !Top? ==> if up.Top? then !red else up.RootBlack()
    }
  }

  function MaxOf(n: Node, l: Tree, r: Tree): SimTime {
    Max(n.high, Max(l.Peak(), r.Peak()))
  }

  function Plug(c: Path, t: Tree): Tree {
    match c
    case Top => t
    case Left(up, n, red, m, o) => Plug(up, Branch(t, n, red, m, o))
    case Right(up, n, red, m, o) => Plug(up, Branch(o, n, red, m, t))
  }

  // The subtree rooted at the node just above the hole.
  function Closed(c: Path, t: Tree): (r: Tree)
    requires !c.Top?
    ensures r.Branch?
  {
    if c.Left? then Branch(t, c.node, c.red, c.maxHigh, c.other) else Branch(c.other, c.node, c.red, c.maxHigh, t)
  }

  function Append(d: Path, b: Path): Path {
    match d
    case Top => b
    case Left(up, n, red, m, o) => Left(Append(up, b), n, red, m, o)
    case Right(up, n, red, m, o) => Right(Append(up, b), n, red, m, o)
  }

  // The path with every max_high recomputed from below, the hole having the given peak.
  function Refit(c: Path, peak: SimTime): Path {
    match c
    case Top => Top
    case Left(up, n, red, _, o) =>
      var m := Max(n.high, Max(peak, o.Peak()));
      Left(Refit(up, m), n, red, m, o)
    case Right(up, n, red, _, o) =>
      var m := Max(n.high, Max(peak, o.Peak()));
      Right(Refit(up, m), n, red, m, o)
  }

  function RotatedLeft(t: Tree): Tree
    requires t.Branch? && t.right.Branch?
  {
    var x := Branch(t.left, t.node, t.red, MaxOf(t.node, t.left, t.right.left), t.right.left);
    Branch(x, t.right.node, t.right.red, MaxOf(t.right.node, x, t.right.right), t.right.right)
  }

  function RotatedRight(t: Tree): Tree
    requires t.Branch? && t.left.Branch?
  {
    var y := Branch(t.left.right, t.node, t.red, MaxOf(t.node, t.left.right, t.right), t.right);
    Branch(t.left.left, t.left.node, t.left.red, MaxOf(t.left.node, t.left.left, y), y)
  }

  ghost predicate Sorted(s: seq<Node>) {
    forall i, j :: 0 <= i < j < |s| ==> s[i].key <= s[j].key
  }

  // ---------- rotations keep the in-order sequence and the exactness of max_high ----------

  lemma Regroup(a: seq<Node>, x: Node, b: seq<Node>, y: Node, c: seq<Node>)
    ensures (a + [x] + b) + [y] + c == a + [x] + (b + [y] + c)
  {
  }

  lemma Reassociate(a: seq<Node>, b: seq<Node>, c: seq<Node>, d: seq<Node>, e: seq<Node>)
    ensures a + (b + c + d) + e == a + b + (c + d + e)
    ensures a + (b + c + d) + e == (a + b + c) + d + e
  {
  }

  lemma {:induction false} RotatedLeftOrder(t: Tree)
    requires t.Branch? && t.right.Branch?
    ensures RotatedLeft(t).InOrder() == t.InOrder()
  {
    var l, m, r := t.left.InOrder(), t.right.left.InOrder(), t.right.right.InOrder();
    assert t.InOrder() == l + [t.node] + (m + [t.right.node] + r);
    Regroup(l, t.node, m, t.right.node, r);
    assert RotatedLeft(t).left.InOrder() == l + [t.node] + m;
  }

  lemma {:induction false} RotatedRightOrder(t: Tree)
    requires t.Branch? && t.left.Branch?
    ensures RotatedRight(t).InOrder() == t.InOrder()
  {
    var l, m, r := t.left.left.InOrder(), t.left.right.InOrder(), t.right.InOrder();
    assert t.InOrder() == (l + [t.left.node] + m) + [t.node] + r;
    Regroup(l, t.left.node, m, t.node, r);
    assert RotatedRight(t).right.InOrder() == m + [t.node] + r;
  }

  lemma {:induction false} RotatedLeftMax(t: Tree)
    requires t.Branch? && t.right.Branch? && t.MaxOk()
    ensures RotatedLeft(t).MaxOk() && RotatedLeft(t).maxHigh == t.maxHigh
  {
    assert t.right.MaxOk();
    assert RotatedLeft(t).left.MaxOk();
  }

  lemma {:induction false} RotatedRightMax(t: Tree)
    requires t.Branch? && t.left.Branch? && t.MaxOk()
    ensures RotatedRight(t).MaxOk() && RotatedRight(t).maxHigh == t.maxHigh
  {
    assert t.left.MaxOk();
    assert RotatedRight(t).right.MaxOk();
  }

  // ---------- a tree and its parts ----------

  lemma {:induction false} PlugInOrder(c: Path, t: Tree)
    ensures Plug(c, t).InOrder() == c.Before() + t.InOrder() + c.After()
    decreases c
  {
    match c
    case Top =>
    case Left(up, n, red, m, o) =>
      PlugInOrder(up, Closed(c, t));
      var b, s, q, a := up.Before(), t.InOrder(), o.InOrder(), up.After();
      assert Closed(c, t).InOrder() == s + [n] + q;
      Reassociate(b, s, [n], q, a);
    case Right(up, n, red, m, o) =>
      PlugInOrder(up, Closed(c, t));
      var b, s, q, a := up.Before(), t.InOrder(), o.InOrder(), up.After();
      assert Closed(c, t).InOrder() == q + [n] + s;
      Reassociate(b, q, [n], s, a);
  }

  lemma SwapInOrder(c: Path, t: Tree, t': Tree)
    requires t.InOrder() == t'.InOrder()
    ensures Plug(c, t).InOrder() == Plug(c, t').InOrder()
  {
    PlugInOrder(c, t);
    PlugInOrder(c, t');
  }

  lemma PlugMax(c: Path, t: Tree)
    ensures Plug(c, t).MaxOk() <==> t.MaxOk() && c.MaxOk(t.Peak())
    decreases c
  {
    if !c.Top? {
      PlugMax(c.up, Closed(c, t));
    }
  }

  lemma PlugRb(c: Path, t: Tree)
    ensures Plug(c, t).Rb() <==> t.Rb() && c.Rb(t.Bh()) && !(t.IsRed() && c.ParentRed())
    ensures Plug(c, t).IsRed() <==> if c.Top? then t.IsRed() else !c.RootBlack()
    decreases c
  {
    if !c.Top? {
      PlugRb(c.up, Closed(c, t));
    }
  }

  lemma PlugAppend(d: Path, b: Path, t: Tree)
    ensures Plug(Append(d, b), t) == Plug(b, Plug(d, t))
    decreases d
  {
    if !d.Top? {
      PlugAppend(d.up, b, Closed(d, t));
    }
  }

  lemma RefitFacts(c: Path, peak: SimTime)
    ensures Refit(c, peak).Before() == c.Before() && Refit(c, peak).After() == c.After()
    ensures Refit(c, peak).ParentRed() == c.ParentRed() && Refit(c, peak).RootBlack() == c.RootBlack()
    ensures c.OthersMaxOk() ==> Refit(c, peak).MaxOk(peak)
    decreases c
  {
    if !c.Top? {
      RefitFacts(c.up, Max(c.node.high, Max(peak, c.other.Peak())));
    }
  }

  lemma RefitRb(c: Path, peak: SimTime, k: nat)
    ensures Refit(c, peak).Rb(k) == c.Rb(k)
    decreases c
  {
    if !c.Top? {
      var m := Max(c.node.high, Max(peak, c.other.Peak()));
      RefitFacts(c.up, m);
      RefitRb(c.up, m, if c.red then k else k + 1);
    }
  }

  lemma MaxOkOthers(c: Path, peak: SimTime)
    requires c.MaxOk(peak)
    ensures c.OthersMaxOk()
    decreases c
  {
    if !c.Top? {
      MaxOkOthers(c.up, c.maxHigh);
    }
  }

  lemma SortedParts(t: Tree)
    requires t.Branch? && Sorted(t.InOrder())
    ensures Sorted(t.left.InOrder()) && Sorted(t.right.InOrder())
    ensures forall n :: n in t.left.InOrder() ==> n.key <= t.node.key
    ensures forall n :: n in t.right.InOrder() ==> t.node.key <= n.key
  {
    SortedAround(t.left.InOrder(), t.node, t.right.InOrder());
  }

  lemma SortedAround(l: seq<Node>, n: Node, r: seq<Node>)
    requires Sorted(l + [n] + r)
    ensures Sorted(l) && Sorted(r)
    ensures forall m :: m in l ==> m.key <= n.key
    ensures forall m :: m in r ==> n.key <= m.key
  {
    var s := l + [n] + r;
    assert forall i :: 0 <= i < |l| ==> s[i] == l[i];
    assert s[|l|] == n;
    assert forall i :: 0 <= i < |r| ==> s[|l| + 1 + i] == r[i];
  }

  // Everything before the hole has a key of at most k, everything after it a larger one.
  ghost predicate Splits(c: Path, k: SimTime) {
    && (forall n :: n in c.Before() ==> n.key <= k)
    && (forall n :: n in c.After() ==> k < n.key)
    && (c.Left? ==> k < c.node.key)
    && (c.Right? ==> c.node.key <= k)
  }

  lemma SplitsBelow(c: Path, t: Tree, k: SimTime)
    requires t.Branch? && Sorted(t.InOrder()) && Splits(c, k)
    ensures Sorted(t.left.InOrder()) && Sorted(t.right.InOrder())
    ensures k < t.node.key ==> Splits(Left(c, t.node, t.red, t.maxHigh, t.right), k)
    ensures t.node.key <= k ==> Splits(Right(c, t.node, t.red, t.maxHigh, t.left), k)
  {
    SortedParts(t);
  }

  function DownLeft(c: Path, t: Tree): Path
    requires t.Branch?
  {
    Left(c, t.node, t.red, t.maxHigh, t.right)
  }

  function DownRight(c: Path, t: Tree): Path
    requires t.Branch?
  {
    Right(c, t.node, t.red, t.maxHigh, t.left)
  }

  // ---------- insertion: colours and max_high ----------

  // A red node sits at the hole; the only thing that may be wrong is that its parent is red too.
  predicate RedAt(c: Path, t: Tree) {
    && t.Branch? && t.red && t.Rb() && t.MaxOk()
    && c.Rb(t.Bh()) && c.RootBlack() && c.MaxOk(t.Peak())
  }

  function Recolored(t: Tree): Tree
    requires t.Branch? && t.left.Branch? && t.right.Branch?
  {
    Branch(t.left.(red := false), t.node, true, t.maxHigh, t.right.(red := false))
  }

  lemma {:induction false} RecolorStep(c: Path, t: Tree)
    requires RedAt(c, t) && c.ParentRed() && !c.up.Top? && c.up.other.IsRed()
    ensures RedAt(c.up.up, Recolored(Closed(c.up, Closed(c, t))))
    ensures Plug(c.up.up, Recolored(Closed(c.up, Closed(c, t)))).InOrder() == Plug(c, t).InOrder()
  {
    var pt := Closed(c, t);
    var gt := Closed(c.up, pt);
    assert c.up.Rb(t.Bh()) && c.up.MaxOk(c.maxHigh) && c.up.RootBlack();
    assert pt.(red := false).Rb() && c.up.other.(red := false).Rb();
    assert gt.InOrder() == Recolored(gt).InOrder();
    SwapInOrder(c.up.up, gt, Recolored(gt));
  }

  // The red node pt has a red left child and a black right one, and hangs left of a black node
  // whose other child is black: painting and a right rotation finish the job.
  predicate ReadyRight(c: Path, pt: Tree) {
    && pt.IsRed() && pt.left.IsRed() && !pt.right.IsRed()
    && pt.left.Rb() && pt.right.Rb() && pt.left.Bh() == pt.right.Bh() && pt.MaxOk()
    && c.Left? && !c.red && !c.other.IsRed() && c.Rb(pt.Bh()) && c.MaxOk(pt.Peak()) && c.RootBlack()
  }

  lemma {:induction false} ReadyStraightRight(c: Path, t: Tree)
    requires RedAt(c, t) && c.Left? && c.ParentRed() && c.up.Left? && !c.up.other.IsRed()
    ensures ReadyRight(c.up, Closed(c, t))
  {
    assert c.up.Rb(t.Bh()) && c.up.MaxOk(c.maxHigh) && c.up.RootBlack();
  }

  lemma {:induction false} ReadyBentRight(c: Path, t: Tree)
    requires RedAt(c, t) && c.Right? && c.ParentRed() && c.up.Left? && !c.up.other.IsRed()
    ensures ReadyRight(c.up, RotatedLeft(Closed(c, t)))
    ensures Plug(c.up, RotatedLeft(Closed(c, t))).InOrder() == Plug(c, t).InOrder()
  {
    var pt := Closed(c, t);
    assert c.up.Rb(t.Bh()) && c.up.MaxOk(c.maxHigh) && c.up.RootBlack();
    RotatedLeftOrder(pt);
    RotatedLeftMax(pt);
    SwapInOrder(c.up, pt, RotatedLeft(pt));
    assert RotatedLeft(pt).left.Rb();
  }

  function RotatedOverRight(c: Path, pt: Tree): Tree
    requires c.Left? && pt.Branch? && pt.left.Branch?
  {
    var gt := Closed(c, pt.(red := false));
    RotatedRight(gt.(red := true))
  }

  lemma {:induction false} RotateStepRight(c: Path, pt: Tree)
    requires ReadyRight(c, pt)
    ensures var ft := RotatedOverRight(c, pt);
      && RedAt(DownLeft(c.up, ft), ft.left)
      && Plug(c.up, ft).InOrder() == Plug(c, pt).InOrder()
  {
    var gt := Closed(c, pt.(red := false));
    gt := gt.(red := true);
    assert gt.InOrder() == Closed(c, pt).InOrder();
    RotatedRightOrder(gt);
    RotatedRightMax(gt);
    SwapInOrder(c.up, Closed(c, pt), RotatedRight(gt));
    assert RotatedRight(gt).right.Rb();
  }

  // The red node pt has a red right child and a black left one, and hangs right of a black node
  // whose other child is black: painting and a left rotation finish the job.
  predicate ReadyLeft(c: Path, pt: Tree) {
    && pt.IsRed() && pt.right.IsRed() && !pt.left.IsRed()
    && pt.right.Rb() && pt.left.Rb() && pt.right.Bh() == pt.left.Bh() && pt.MaxOk()
    && c.Right? && !c.red && !c.other.IsRed() && c.Rb(pt.Bh()) && c.MaxOk(pt.Peak()) && c.RootBlack()
  }

  lemma {:induction false} ReadyStraightLeft(c: Path, t: Tree)
    requires RedAt(c, t) && c.Right? && c.ParentRed() && c.up.Right? && !c.up.other.IsRed()
    ensures ReadyLeft(c.up, Closed(c, t))
  {
    assert c.up.Rb(t.Bh()) && c.up.MaxOk(c.maxHigh) && c.up.RootBlack();
  }

  lemma {:induction false} ReadyBentLeft(c: Path, t: Tree)
    requires RedAt(c, t) && c.Left? && c.ParentRed() && c.up.Right? && !c.up.other.IsRed()
    ensures ReadyLeft(c.up, RotatedRight(Closed(c, t)))
    ensures Plug(c.up, RotatedRight(Closed(c, t))).InOrder() == Plug(c, t).InOrder()
  {
    var pt := Closed(c, t);
    assert c.up.Rb(t.Bh()) && c.up.MaxOk(c.maxHigh) && c.up.RootBlack();
    RotatedRightOrder(pt);
    RotatedRightMax(pt);
    SwapInOrder(c.up, pt, RotatedRight(pt));
    assert RotatedRight(pt).right.Rb();
  }

  function RotatedOverLeft(c: Path, pt: Tree): Tree
    requires c.Right? && pt.Branch? && pt.right.Branch?
  {
    var gt := Closed(c, pt.(red := false));
    RotatedLeft(gt.(red := true))
  }

  lemma {:induction false} RotateStepLeft(c: Path, pt: Tree)
    requires ReadyLeft(c, pt)
    ensures var ft := RotatedOverLeft(c, pt);
      && RedAt(DownRight(c.up, ft), ft.right)
      && Plug(c.up, ft).InOrder() == Plug(c, pt).InOrder()
  {
    var gt := Closed(c, pt.(red := false));
    gt := gt.(red := true);
    assert gt.InOrder() == Closed(c, pt).InOrder();
    RotatedLeftOrder(gt);
    RotatedLeftMax(gt);
    SwapInOrder(c.up, Closed(c, pt), RotatedLeft(gt));
    assert RotatedLeft(gt).left.Rb();
  }

  // ---------- deletion: colours and max_high ----------

  function Blackened(t: Tree): Tree {
    if t.Leaf? then Leaf else t.(red := false)
  }

  // The subtree at the hole is one black node short; if its top is red, painting it black repairs that.
  predicate Deficit(c: Path, t: Tree) {
    && Blackened(t).Rb() && c.Rb(t.Bh() + 1) && c.RootBlack()
    && t.MaxOk() && c.MaxOk(t.Peak())
  }

  predicate Fine(t: Tree) {
    t.Rb() && !t.IsRed() && t.MaxOk()
  }

  lemma {:induction false} DeficitResolved(c: Path, t: Tree)
    requires Deficit(c, t) && (c.Top? || t.IsRed())
    ensures Fine(Plug(c, Blackened(t))) && Plug(c, Blackened(t)).InOrder() == Plug(c, t).InOrder()
  {
    PlugRb(c, Blackened(t));
    PlugMax(c, Blackened(t));
    SwapInOrder(c, t, Blackened(t));
  }

  lemma {:induction false} NoDeficit(c: Path, t: Tree)
    requires t.Rb() && !t.IsRed() && c.Rb(t.Bh()) && c.RootBlack() && t.MaxOk() && c.MaxOk(t.Peak())
    ensures Fine(Plug(c, t))
  {
    PlugRb(c, t);
    PlugMax(c, t);
  }

  function Outer(c: Path): Node
    requires !c.Top?
  {
    if c.up.Top? then c.node else Outer(c.up)
  }

  lemma {:induction false} OuterIsRoot(c: Path, t: Tree)
    requires !c.Top?
    ensures Plug(c, t).Branch? && Plug(c, t).node == Outer(c)
    decreases c
  {
    if !c.up.Top? {
      OuterIsRoot(c.up, Closed(c, t));
    }
  }

  // Sibling red: paint it black, the parent red, and rotate; the hole gets a black sibling.
  function RedSiblingLeft(c: Path, t: Tree): Tree
    requires c.Left? && c.other.Branch?
  {
    RotatedLeft(Closed(Left(c.up, c.node, true, c.maxHigh, c.other.(red := false)), t))
  }

  lemma {:induction false} RedSiblingStepLeft(c: Path, t: Tree)
    requires Deficit(c, t) && !t.IsRed() && c.Left? && c.other.IsRed()
    ensures var r := RedSiblingLeft(c, t);
      && r.left.Branch? && r.left.left == t && r.left.node == c.node
      && var c' := DownLeft(DownLeft(c.up, r), r.left);
         && Deficit(c', t) && c'.ParentRed() && !c'.other.IsRed()
         && Plug(c', t).InOrder() == Plug(c, t).InOrder()
  {
    assert c.other.Rb() && c.other.MaxOk() && t.Rb();
    assert c.other.left.Rb() && c.other.right.Rb();
    var q := Closed(Left(c.up, c.node, true, c.maxHigh, c.other.(red := false)), t);
    assert q.InOrder() == Closed(c, t).InOrder();
    RotatedLeftOrder(q);
    RotatedLeftMax(q);
    SwapInOrder(c.up, Closed(c, t), RotatedLeft(q));
  }

  lemma {:induction false} SiblingLeft(c: Path, t: Tree)
    requires Deficit(c, t) && c.Left?
    ensures c.other.Branch? && (c.other.IsRed() ==> c.other.left.Branch? && !c.other.left.IsRed() && !c.red)
  {
  }

  // Sibling and both its children black: the sibling turns red and the deficit moves up.
  function BlackSiblingLeft(c: Path, t: Tree): Tree
    requires c.Left? && c.other.Branch?
  {
    Closed(Left(c.up, c.node, c.red, c.maxHigh, c.other.(red := true)), t)
  }

  lemma {:induction false} BlackSiblingStepLeft(c: Path, t: Tree)
    requires Deficit(c, t) && !t.IsRed() && c.Left? && !c.other.IsRed()
    requires c.other.Branch? && !c.other.left.IsRed() && !c.other.right.IsRed()
    ensures Deficit(c.up, BlackSiblingLeft(c, t))
    ensures Plug(c.up, BlackSiblingLeft(c, t)).InOrder() == Plug(c, t).InOrder()
  {
    var r := BlackSiblingLeft(c, t);
    assert c.other.Rb() && c.other.MaxOk();
    assert c.other.(red := true).Rb() && c.other.(red := true).MaxOk() && t.Rb();
    assert r.InOrder() == Closed(c, t).InOrder();
    SwapInOrder(c.up, Closed(c, t), r);
  }

  // The sibling's near child is red and its far one black: turn the red child outwards.
  function TurnedOutLeft(c: Path): Path
    requires c.Left? && c.other.Branch? && c.other.left.Branch?
  {
    var o := c.other;
    Left(c.up, c.node, c.red, c.maxHigh,
         RotatedRight(o.(red := true, left := o.left.(red := false))))
  }

  lemma {:induction false} TurnOutStepLeft(c: Path, t: Tree)
    requires Deficit(c, t) && !t.IsRed() && c.Left? && !c.other.IsRed()
    requires c.other.Branch? && c.other.left.IsRed() && !c.other.right.IsRed()
    ensures var c' := TurnedOutLeft(c);
      && Deficit(c', t) && c'.other.Branch? && !c'.other.red && c'.other.right.IsRed()
      && Plug(c', t).InOrder() == Plug(c, t).InOrder()
  {
    var o := c.other;
    assert o.Rb() && o.MaxOk();
    assert o.left.Rb() && o.right.Rb() && o.left.MaxOk();
    assert o.left.(red := false).Rb() && o.left.(red := false).MaxOk();
    var q := o.(red := true, left := o.left.(red := false));
    assert q.InOrder() == o.InOrder();
    RotatedRightOrder(q);
    RotatedRightMax(q);
    assert Closed(TurnedOutLeft(c), t).InOrder() == Closed(c, t).InOrder();
    SwapInOrder(c.up, Closed(c, t), Closed(TurnedOutLeft(c), t));
  }

  lemma Recoloured(t: Tree, red: bool)
    requires t.Branch?
    ensures t.(red := red).MaxOk() == t.MaxOk() && t.(red := red).InOrder() == t.InOrder()
  {
  }

  // The sibling's far child is red: one rotation makes up for the missing black node.
  function ResolvedLeft(c: Path, t: Tree): Tree
    requires c.Left? && c.other.Branch? && c.other.right.Branch?
  {
    var o := c.other;
    var o' := o.(red := c.red, right := o.right.(red := false));
    RotatedLeft(Closed(Left(c.up, c.node, false, c.maxHigh, o'), t))
  }

  lemma {:induction false} ResolveStepLeft(c: Path, t: Tree)
    requires Deficit(c, t) && !t.IsRed() && c.Left? && !c.other.IsRed() && c.other.Branch? && c.other.right.IsRed()
    ensures Fine(Plug(c.up, ResolvedLeft(c, t)))
    ensures Plug(c.up, ResolvedLeft(c, t)).InOrder() == Plug(c, t).InOrder()
  {
    var o := c.other;
    var o' := o.(red := c.red, right := o.right.(red := false));
    var q := Closed(Left(c.up, c.node, false, c.maxHigh, o'), t);
    assert o.Rb() && o.MaxOk();
    assert o.left.Rb() && o.right.Rb() && o.right.MaxOk();
    Recoloured(o.right, false);
    Recoloured(o, c.red);
    assert o.right.(red := false).Rb() && o'.MaxOk();
    assert o'.InOrder() == o.InOrder() && q.InOrder() == Closed(c, t).InOrder();
    RotatedLeftOrder(q);
    RotatedLeftMax(q);
    var r := RotatedLeft(q);
    assert t.Rb();
    assert r.left.Rb() && r.Rb();
    SwapInOrder(c.up, Closed(c, t), r);
    PlugRb(c.up, r);
    PlugMax(c.up, r);
  }

  // Sibling red: paint it black, the parent red, and rotate; the hole gets a black sibling.
  function RedSiblingRight(c: Path, t: Tree): Tree
    requires c.Right? && c.other.Branch?
  {
    RotatedRight(Closed(Right(c.up, c.node, true, c.maxHigh, c.other.(red := false)), t))
  }

  lemma {:induction false} RedSiblingStepRight(c: Path, t: Tree)
    requires Deficit(c, t) && !t.IsRed() && c.Right? && c.other.IsRed()
    ensures var r := RedSiblingRight(c, t);
      && r.right.Branch? && r.right.right == t && r.right.node == c.node
      && var c' := DownRight(DownRight(c.up, r), r.right);
         && Deficit(c', t) && c'.ParentRed() && !c'.other.IsRed()
         && Plug(c', t).InOrder() == Plug(c, t).InOrder()
  {
    assert c.other.Rb() && c.other.MaxOk() && t.Rb();
    assert c.other.right.Rb() && c.other.left.Rb();
    var q := Closed(Right(c.up, c.node, true, c.maxHigh, c.other.(red := false)), t);
    assert q.InOrder() == Closed(c, t).InOrder();
    RotatedRightOrder(q);
    RotatedRightMax(q);
    SwapInOrder(c.up, Closed(c, t), RotatedRight(q));
  }

  lemma {:induction false} SiblingRight(c: Path, t: Tree)
    requires Deficit(c, t) && c.Right?
    ensures c.other.Branch? && (c.other.IsRed() ==> c.other.right.Branch? && !c.other.right.IsRed() && !c.red)
  {
  }

  // Sibling and both its children black: the sibling turns red and the deficit moves up.
  function BlackSiblingRight(c: Path, t: Tree): Tree
    requires c.Right? && c.other.Branch?
  {
    Closed(Right(c.up, c.node, c.red, c.maxHigh, c.other.(red := true)), t)
  }

  lemma {:induction false} BlackSiblingStepRight(c: Path, t: Tree)
    requires Deficit(c, t) && !t.IsRed() && c.Right? && !c.other.IsRed()
    requires c.other.Branch? && !c.other.right.IsRed() && !c.other.left.IsRed()
    ensures Deficit(c.up, BlackSiblingRight(c, t))
    ensures Plug(c.up, BlackSiblingRight(c, t)).InOrder() == Plug(c, t).InOrder()
  {
    var r := BlackSiblingRight(c, t);
    assert c.other.Rb() && c.other.MaxOk();
    assert c.other.(red := true).Rb() && c.other.(red := true).MaxOk() && t.Rb();
    assert r.InOrder() == Closed(c, t).InOrder();
    SwapInOrder(c.up, Closed(c, t), r);
  }

  // The sibling's near child is red and its far one black: turn the red child outwards.
  function TurnedOutRight(c: Path): Path
    requires c.Right? && c.other.Branch? && c.other.right.Branch?
  {
    var o := c.other;
    Right(c.up, c.node, c.red, c.maxHigh,
         RotatedLeft(o.(red := true, right := o.right.(red := false))))
  }

  lemma {:induction false} TurnOutStepRight(c: Path, t: Tree)
    requires Deficit(c, t) && !t.IsRed() && c.Right? && !c.other.IsRed()
    requires c.other.Branch? && c.other.right.IsRed() && !c.other.left.IsRed()
    ensures var c' := TurnedOutRight(c);
      && Deficit(c', t) && c'.other.Branch? && !c'.other.red && c'.other.left.IsRed()
      && Plug(c', t).InOrder() == Plug(c, t).InOrder()
  {
    var o := c.other;
    assert o.Rb() && o.MaxOk();
    assert o.right.Rb() && o.left.Rb() && o.right.MaxOk();
    assert o.right.(red := false).Rb() && o.right.(red := false).MaxOk();
    var q := o.(red := true, right := o.right.(red := false));
    assert q.InOrder() == o.InOrder();
    RotatedLeftOrder(q);
    RotatedLeftMax(q);
    assert Closed(TurnedOutRight(c), t).InOrder() == Closed(c, t).InOrder();
    SwapInOrder(c.up, Closed(c, t), Closed(TurnedOutRight(c), t));
  }

  // The sibling's far child is red: one rotation makes up for the missing black node.
  function ResolvedRight(c: Path, t: Tree): Tree
    requires c.Right? && c.other.Branch? && c.other.left.Branch?
  {
    var o := c.other;
    var o' := o.(red := c.red, left := o.left.(red := false));
    RotatedRight(Closed(Right(c.up, c.node, false, c.maxHigh, o'), t))
  }

  lemma {:induction false} ResolveStepRight(c: Path, t: Tree)
    requires Deficit(c, t) && !t.IsRed() && c.Right? && !c.other.IsRed() && c.other.Branch? && c.other.left.IsRed()
    ensures Fine(Plug(c.up, ResolvedRight(c, t)))
    ensures Plug(c.up, ResolvedRight(c, t)).InOrder() == Plug(c, t).InOrder()
  {
    var o := c.other;
    var o' := o.(red := c.red, left := o.left.(red := false));
    var q := Closed(Right(c.up, c.node, false, c.maxHigh, o'), t);
    assert o.Rb() && o.MaxOk();
    assert o.right.Rb() && o.left.Rb() && o.left.MaxOk();
    Recoloured(o.left, false);
    Recoloured(o, c.red);
    assert o.left.(red := false).Rb() && o'.MaxOk();
    assert o'.InOrder() == o.InOrder() && q.InOrder() == Closed(c, t).InOrder();
    RotatedRightOrder(q);
    RotatedRightMax(q);
    var r := RotatedRight(q);
    assert t.Rb();
    assert r.right.Rb() && r.Rb();
    SwapInOrder(c.up, Closed(c, t), r);
    PlugRb(c.up, r);
    PlugMax(c.up, r);
  }

  // ---------- taking a node out ----------

  function Spliced(t: Tree): Tree
    requires t.Branch?
  {
    if t.left.Leaf? then t.right else t.left
  }

  lemma {:induction false} SplicedDeficit(c: Path, t: Tree)
    requires t.Branch? && (t.left.Leaf? || t.right.Leaf?)
    requires t.Rb() && c.Rb(t.Bh()) && c.RootBlack() && !(t.IsRed() && c.ParentRed())
    requires t.MaxOk() && c.OthersMaxOk()
    ensures var c', s := Refit(c, Spliced(t).Peak()), Spliced(t);
      if t.red then Fine(Plug(c', s)) else Deficit(c', s)
  {
    var s := Spliced(t);
    var c' := Refit(c, s.Peak());
    RefitFacts(c, s.Peak());
    RefitRb(c, s.Peak(), t.Bh());
    assert t.left.Rb() && t.right.Rb() && Blackened(s).Rb();
    if t.red {
      NoDeficit(c', s);
    }
  }

  lemma SplicedFacts(c: Path, t: Tree)
    requires t.Branch? && (t.left.Leaf? || t.right.Leaf?) && Fine(Plug(c, t))
    ensures var c', s := Refit(c, Spliced(t).Peak()), Spliced(t);
      && (if t.red then Fine(Plug(c', s)) else Deficit(c', s))
      && Plug(c', s).InOrder() == c.Before() + s.InOrder() + c.After()
  {
    PlugRb(c, t);
    PlugMax(c, t);
    MaxOkOthers(c, t.Peak());
    SplicedDeficit(c, t);
    RefitFacts(c, Spliced(t).Peak());
    PlugInOrder(Refit(c, Spliced(t).Peak()), Spliced(t));
  }

  lemma {:induction false} AppendRb(d: Path, b: Path, b': Path, k: nat)
    requires b.ParentRed() == b'.ParentRed() && b.RootBlack() == b'.RootBlack() && b.Top? == b'.Top?
    requires forall j: nat :: b.Rb(j) == b'.Rb(j)
    ensures Append(d, b).Rb(k) == Append(d, b').Rb(k)
    ensures Append(d, b).ParentRed() == Append(d, b').ParentRed()
    ensures Append(d, b).RootBlack() == Append(d, b').RootBlack()
    ensures Append(d, b).Top? == Append(d, b').Top?
    decreases d
  {
    if !d.Top? {
      AppendRb(d.up, b, b', if d.red then k else k + 1);
    }
  }

  lemma {:induction false} AppendOthers(d: Path, b: Path)
    ensures Append(d, b).OthersMaxOk() <==> d.OthersMaxOk() && b.OthersMaxOk()
    decreases d
  {
    if !d.Top? {
      AppendOthers(d.up, b);
    }
  }

  lemma {:induction false} AppendOrder(d: Path, b: Path)
    ensures Append(d, b).Before() == b.Before() + d.Before()
    ensures Append(d, b).After() == d.After() + b.After()
    decreases d
  {
    match d
    case Top =>
    case Left(up, n, _, _, o) =>
      AppendOrder(up, b);
      Appended([n] + o.InOrder(), up.After(), b.After());
    case Right(up, n, _, _, o) =>
      AppendOrder(up, b);
      Appended(b.Before(), up.Before(), o.InOrder());
      Appended(b.Before(), up.Before() + o.InOrder(), [n]);
  }

  lemma Appended(a: seq<Node>, b: seq<Node>, c: seq<Node>)
    ensures (a + b) + c == a + (b + c)
  {
  }

  function PeakThrough(d: Path, peak: SimTime): SimTime {
    if d.Top? then peak else PeakThrough(d.up, Max(d.node.high, Max(peak, d.other.Peak())))
  }

  lemma {:induction false} RefitAppend(d: Path, b: Path, peak: SimTime)
    ensures Refit(Append(d, b), peak) == Append(Refit(d, peak), Refit(b, PeakThrough(d, peak)))
    decreases d
  {
    if !d.Top? {
      RefitAppend(d.up, b, Max(d.node.high, Max(peak, d.other.Peak())));
    }
  }

  // The way down to the first node of a subtree.
  lemma {:induction false} FirstIn(t: Tree, up: Path) returns (d: Path, s: Tree)
    requires t.Branch? && up.Before() == []
    ensures Plug(d, s) == Plug(up, t) && s.Branch? && s.left.Leaf? && d.Before() == []
    ensures s.node == t.InOrder()[0]
    decreases t
  {
    if t.left.Leaf? {
      d, s := up, t;
    } else {
      d, s := FirstIn(t.left, DownLeft(up, t));
    }
  }

  lemma {:induction false} FindPath(t: Tree, z: Node, up: Path) returns (c: Path, s: Tree)
    requires z in t.Nodes()
    ensures Plug(c, s) == Plug(up, t) && s.Branch? && s.node == z
    decreases t
  {
    if t.node == z {
      c, s := up, t;
    } else if z in t.left.Nodes() {
      c, s := FindPath(t.left, z, DownLeft(up, t));
    } else {
      c, s := FindPath(t.right, z, DownRight(up, t));
    }
  }

  // The path to the hole left by the successor s of the top of t, once that node, painted like the
  // top, has taken the top's place and max_high has been repaired.
  function MovedPath(c: Path, t: Tree, d: Path, s: Tree): Path
    requires t.Branch? && s.Branch?
  {
    Refit(Append(d, Right(c, s.node, t.red, -MAX_TIME, t.left)), s.right.Peak())
  }

  lemma {:induction false} MovedDeficit(c: Path, t: Tree, d: Path, s: Tree)
    requires Fine(Plug(c, t)) && t.Branch? && s.Branch? && s.left.Leaf? && Plug(d, s) == t.right
    ensures if s.red then Fine(Plug(MovedPath(c, t, d, s), s.right)) else Deficit(MovedPath(c, t, d, s), s.right)
  {
    var r, r' := DownRight(c, t), Right(c, s.node, t.red, -MAX_TIME, t.left);
    PlugAppend(d, r, s);
    PlugRb(Append(d, r), s);
    PlugMax(Append(d, r), s);
    MaxOkOthers(Append(d, r), s.Peak());
    AppendOthers(d, r);
    AppendOthers(d, r');
    AppendRb(d, r, r', s.Bh());
    SplicedDeficit(Append(d, r'), s);
  }

  lemma RegroupMoved(a: seq<Node>, b: seq<Node>, c: seq<Node>, d: seq<Node>, e: seq<Node>)
    ensures (a + b) + c + (d + e) == a + (b + c + d) + e
  {
  }

  lemma {:induction false} MovedOrder(c: Path, t: Tree, d: Path, s: Tree)
    requires t.Branch? && s.Branch? && s.left.Leaf? && Plug(d, s) == t.right && d.Before() == []
    ensures Plug(MovedPath(c, t, d, s), s.right).InOrder()
         == c.Before() + t.left.InOrder() + t.right.InOrder() + c.After()
  {
    var r := Right(c, s.node, t.red, -MAX_TIME, t.left);
    var m := MovedPath(c, t, d, s);
    PlugInOrder(m, s.right);
    RefitFacts(Append(d, r), s.right.Peak());
    AppendOrder(d, r);
    WithoutFirst(d, s);
    assert m.Before() == c.Before() + t.left.InOrder() + [s.node];
    RegroupMoved(c.Before() + t.left.InOrder(), [s.node], s.right.InOrder(), d.After(), c.After());
  }

  lemma {:induction false} WithoutFirst(d: Path, s: Tree)
    requires s.Branch? && s.left.Leaf? && d.Before() == []
    ensures Plug(d, s).InOrder() == [s.node] + s.right.InOrder() + d.After()
  {
    PlugInOrder(d, s);
  }

  predicate Stores(n: Node) {
    n.interval != null && n.key == n.interval.low && n.high == n.interval.high
  }

  lemma {:induction false} InOrderNodes(t: Tree)
    ensures forall n :: n in t.InOrder() <==> n in t.Nodes()
  {
    if t.Branch? {
      InOrderNodes(t.left);
      InOrderNodes(t.right);
    }
  }

  lemma Halves(a: seq<Node>, m: seq<Node>, b: seq<Node>)
    ensures var s := a + m + b;
      s[..|a|] == a && s[|a| + |m|..] == b && (forall i :: 0 <= i < |m| ==> s[|a| + i] == m[i])
  {
  }

  lemma SortedInsert(a: seq<Node>, z: Node, b: seq<Node>)
    requires Sorted(a + b)
    requires (forall n :: n in a ==> n.key <= z.key) && (forall n :: n in b ==> z.key < n.key)
    ensures Sorted(a + [z] + b)
  {
    var s, r := a + b, a + [z] + b;
    forall i, j | 0 <= i < j < |r| ensures r[i].key <= r[j].key {
      if i != |a| && j != |a| {
        assert r[i] == s[if i < |a| then i else i - 1] && r[j] == s[if j < |a| then j else j - 1];
      }
    }
  }

  lemma SortedRemove(a: seq<Node>, z: Node, b: seq<Node>)
    requires Sorted(a + [z] + b)
    ensures Sorted(a + b)
  {
    var s, r := a + b, a + [z] + b;
    forall i, j | 0 <= i < j < |s| ensures s[i].key <= s[j].key {
      assert s[i] == r[if i < |a| then i else i + 1] && s[j] == r[if j < |a| then j else j + 1];
    }
  }

  function NewLeaf(z: Node, red: bool): Tree {
    Branch(Leaf, z, red, z.high, Leaf)
  }

  lemma InsertedLeaf(c: Path, z: Node)
    requires Fine(Plug(c, Leaf)) && Sorted(Plug(c, Leaf).InOrder()) && Splits(c, z.key)
    ensures RedAt(Refit(c, z.high), NewLeaf(z, true))
    ensures Plug(c, Leaf).InOrder() == c.Before() + c.After()
    ensures Plug(Refit(c, z.high), NewLeaf(z, true)).InOrder() == c.Before() + [z] + c.After()
    ensures Sorted(c.Before() + [z] + c.After())
  {
    InsertedRed(c, z);
    InsertedOrder(c, z);
    SortedInsert(c.Before(), z, c.After());
  }

  lemma InsertedRed(c: Path, z: Node)
    requires Fine(Plug(c, Leaf))
    ensures RedAt(Refit(c, z.high), NewLeaf(z, true))
  {
    PlugRb(c, Leaf);
    PlugMax(c, Leaf);
    MaxOkOthers(c, -MAX_TIME);
    RefitFacts(c, z.high);
    RefitRb(c, z.high, 0);
  }

  lemma InsertedOrder(c: Path, z: Node)
    ensures Plug(c, Leaf).InOrder() == c.Before() + c.After()
    ensures Plug(Refit(c, z.high), NewLeaf(z, true)).InOrder() == c.Before() + [z] + c.After()
  {
    RefitFacts(c, z.high);
    PlugInOrder(c, Leaf);
    PlugInOrder(Refit(c, z.high), NewLeaf(z, true));
    assert c.Before() + [] + c.After() == c.Before() + c.After() && NewLeaf(z, true).InOrder() == [z];
  }

  lemma RegroupRemoved(a: seq<Node>, l: seq<Node>, m: seq<Node>, r: seq<Node>, b: seq<Node>)
    ensures a + (l + m + r) + b == (a + l) + m + (r + b)
    ensures a + l + r + b == (a + l) + (r + b)
  {
  }

  lemma {:induction false} RemovedOrder(c: Path, t: Tree)
    requires t.Branch? && Sorted(Plug(c, t).InOrder())
    ensures var s, a, b := Plug(c, t).InOrder(), c.Before() + t.left.InOrder(), t.right.InOrder() + c.After();
      && s == a + [t.node] + b && Sorted(a + b)
      && c.Before() + t.left.InOrder() + t.right.InOrder() + c.After() == a + b
  {
    PlugInOrder(c, t);
    var a, b := c.Before() + t.left.InOrder(), t.right.InOrder() + c.After();
    RegroupRemoved(c.Before(), t.left.InOrder(), [t.node], t.right.InOrder(), c.After());
    SortedRemove(a, t.node, b);
  }

  // ---------- the height is logarithmic ----------

  lemma {:induction false} BlackHeightBounds(t: Tree)
    requires t.Rb()
    ensures Pow2(t.Bh()) <= |t.InOrder()| + 1
    ensures t.Height() <= 2 * t.Bh() + if t.IsRed() then 1 else 0
  {
    if t.Branch? {
      BlackHeightBounds(t.left);
      BlackHeightBounds(t.right);
    }
  }

  lemma {:induction false} HeightBound(t: Tree)
    requires Fine(t)
    ensures Pow2(t.Height()) <= (|t.InOrder()| + 1) * (|t.InOrder()| + 1)
  {
    BlackHeightBounds(t);
    Pow2Monotone(t.Height(), t.Bh() + t.Bh());
    Pow2Sum(t.Bh(), t.Bh());
    SquareMonotone(Pow2(t.Bh()), |t.InOrder()| + 1);
  }

  lemma SquareMonotone(b: nat, n: nat)
    requires b <= n
    ensures b * b <= n * n
  {
    assert b * b <= n * b <= n * n;
  }

  lemma {:induction false} InOrderSize(t: Tree)
    requires t.Distinct()
    ensures |t.InOrder()| == |t.Nodes()|
  {
    if t.Branch? {
      InOrderSize(t.left);
      InOrderSize(t.right);
      assert |t.left.Nodes() + {t.node}| == |t.left.Nodes()| + 1;
      assert t.Nodes() == t.left.Nodes() + {t.node} + t.right.Nodes();
    }
  }
}

/** The interval tree: a red-black tree of nodes with parent links, changed in place. */
module IntervalTrees {
  import opened IntervalTreeShapes
  import opened Powers
  import opened IntervalTreeQueries

  class IntervalTree {
    const root: Node
    const nil: Node
    ghost var nodes: set<Node>
    ghost var tree: Tree

    var stack: seq<StackEntry>
    var stackTop: nat
    var currentParent: nat

    constructor ()
      ensures Valid() && Contents() == []
      ensures fresh(root) && fresh(nil)
    {
      nil := new Node.Sentinel(-MAX_TIME);
      root := new Node.Sentinel(MAX_TIME);
      nodes, tree := {}, Leaf;
      stack, stackTop, currentParent := [StackEntry(null, 0, false)], 1, 0;
      new;
      root.left, root.right, root.parent := nil, nil, nil;
    }

    // The nodes in key order.
    ghost function Contents(): seq<Node>
      reads this
    {
      tree.InOrder()
    }

    ghost predicate Valid()
      reads this, nodes, root, nil
    {
      && tree.Nodes() == nodes && Focus(Top, tree)
      && Fine(tree) && Sorted(Contents())
      && (forall n :: n in nodes ==> Stores(n))
      && root.interval == null && stackTop == 1 && 1 <= |stack|
    }

    ghost function Ref(t: Tree): Node {
      if t.Leaf? then nil else t.node
    }

    ghost function Above(c: Path): Node {
      if c.Top? then root else c.node
    }

    ghost predicate Holds(t: Tree, parent: Node)
      reads t.Nodes()
    {
      t.Branch? ==>
        && t.node.left == Ref(t.left) && t.node.right == Ref(t.right) && t.node.parent == parent
        && t.node.red == t.red && t.node.maxHigh == t.maxHigh
        && Holds(t.left, t.node) && Holds(t.right, t.node)
    }

    ghost predicate HoldsPath(c: Path, hole: Node)
      reads c.Nodes(), root
    {
      match c
      case Top => root.left == hole
      case Left(up, n, red, m, o) =>
        && n.left == hole && n.right == Ref(o) && n.parent == Above(up) && n.red == red && n.maxHigh == m
        && Holds(o, n) && HoldsPath(up, n)
      case Right(up, n, red, m, o) =>
        && n.right == hole && n.left == Ref(o) && n.parent == Above(up) && n.red == red && n.maxHigh == m
        && Holds(o, n) && HoldsPath(up, n)
    }

    ghost predicate Apart(c: Path, t: Tree)
      reads this
    {
      && nodes == c.Nodes() + t.Nodes()
      && c.Distinct() && t.Distinct() && c.Nodes() !! t.Nodes()
      && nil !in nodes && root !in nodes && root != nil
    }

    ghost predicate Sentinels()
      reads nil, root
    {
      !root.red && !nil.red && nil.maxHigh == -MAX_TIME && root.right == nil && root.parent == nil
    }

    // The heap is exactly the tree t hanging below the path c.
    ghost predicate Focus(c: Path, t: Tree)
      reads this, c.Nodes(), t.Nodes(), root, nil
    {
      Apart(c, t) && Sentinels() && HoldsPath(c, Ref(t)) && Holds(t, Above(c))
    }

    // ---------- moving the focus ----------

    lemma GoLeft(c: Path, t: Tree)
      requires t.Branch?
      ensures Focus(c, t) <==> Focus(DownLeft(c, t), t.left)
    {
      assert Apart(c, t) <==> Apart(DownLeft(c, t), t.left);
    }

    lemma GoRight(c: Path, t: Tree)
      requires t.Branch?
      ensures Focus(c, t) <==> Focus(DownRight(c, t), t.right)
    {
      assert Apart(c, t) <==> Apart(DownRight(c, t), t.right);
    }

    lemma GoUp(c: Path, t: Tree)
      requires !c.Top?
      ensures Focus(c, t) <==> Focus(c.up, Closed(c, t))
    {
      if c.Left? {
        GoLeft(c.up, Closed(c, t));
      } else {
        GoRight(c.up, Closed(c, t));
      }
    }

    lemma {:induction false} Zoom(d: Path, b: Path, t: Tree)
      ensures Focus(Append(d, b), t) <==> Focus(b, Plug(d, t))
      decreases d
    {
      if !d.Top? {
        GoUp(Append(d, b), t);
        Zoom(d.up, b, Closed(d, t));
      }
    }

    lemma {:induction false} AppendTop(d: Path)
      ensures Append(d, Top) == d
    {
      if !d.Top? {
        AppendTop(d.up);
      }
    }

    lemma Refocus(c: Path, t: Tree)
      ensures Focus(c, t) <==> Focus(Top, Plug(c, t))
    {
      AppendTop(c);
      Zoom(c, Top, t);
    }

    // ---------- single steps on the heap ----------

    method SetRed(n: Node, red: bool, ghost c: Path, ghost t: Tree)
      requires Focus(c, t) && t.Branch? && t.node == n
      modifies n`red
      ensures Focus(c, t.(red := red))
    {
      n.red := red;
      assert Holds(t.left, n) == old(Holds(t.left, n));
      assert Holds(t.right, n) == old(Holds(t.right, n));
      assert HoldsPath(c, n) == old(HoldsPath(c, n));
    }

    lemma LeftRotateApart(c: Path, t: Tree)
      requires t.Branch? && t.right.Branch? && Apart(c, t)
      ensures Apart(c, RotatedLeft(t))
    {
      var t' := RotatedLeft(t);
      assert t.right.Distinct();
      assert t.right.Nodes() == t.right.left.Nodes() + {t.right.node} + t.right.right.Nodes();
      assert t'.left.Nodes() == t.left.Nodes() + {t.node} + t.right.left.Nodes();
      assert t'.left.Distinct();
      assert t'.Nodes() == t.Nodes();
    }

    // The nodes a left rotation of t writes to.
    ghost function LeftRotateFootprint(c: Path, t: Tree): set<Node>
      requires t.Branch? && t.right.Branch?
    {
      {t.node, t.right.node, Above(c)} + if t.right.left.Leaf? then {} else {t.right.left.node}
    }

    lemma LeftRotateParts(c: Path, t: Tree)
      requires t.Branch? && t.right.Branch? && Apart(c, t)
      ensures LeftRotateFootprint(c, t) <= nodes + {root}
      ensures LeftRotateFootprint(c, t) !! t.left.Nodes()
      ensures LeftRotateFootprint(c, t) !! t.right.right.Nodes()
      ensures Above(c) !in t.Nodes() && t.node != t.right.node && Above(c) !in {t.node, t.right.node}
      ensures t.right.left.Branch? ==>
        && LeftRotateFootprint(c, t) !! t.right.left.left.Nodes()
        && LeftRotateFootprint(c, t) !! t.right.left.right.Nodes()
        && t.right.left.left.Nodes() <= nodes && t.right.left.right.Nodes() <= nodes
        && t.right.left.node !in {t.node, t.right.node, Above(c), nil}
      ensures !c.Top? ==>
        && LeftRotateFootprint(c, t) !! c.up.Nodes()
        && LeftRotateFootprint(c, t) !! c.other.Nodes()
        && root !in LeftRotateFootprint(c, t)
    {
      assert t.right.Distinct() && t.right.left.Distinct();
    }

    method LeftRotate(x: Node)
      requires x.right != x && x.right != x.parent && x.parent != x && x.left != x && x.left != x.right
      requires x.right.left != nil ==> x.right.left !in {x, x.right, x.parent}
      requires x.right.right != x && x.right.right != x.right
      modifies x, x.right, x.parent, if x.right.left == nil then {} else {x.right.left}
      ensures var y, b, p := old(x.right), old(x.right.left), old(x.parent);
        && x.left == old(x.left) && x.right == b && x.parent == y && x.red == old(x.red)
        && y.left == x && y.right == old(y.right) && y.parent == p && y.red == old(y.red)
        && p.left == (if old(p.left) == x then y else old(p.left))
        && p.right == (if old(p.left) != x then y else old(p.right))
        && p.parent == old(p.parent) && p.red == old(p.red) && p.maxHigh == old(p.maxHigh)
        && (b != nil ==>
              && b.left == old(b.left) && b.right == old(b.right) && b.parent == x
              && b.red == old(b.red) && b.maxHigh == old(b.maxHigh))
        && x.maxHigh == Max(x.high, Max(old(x.left.maxHigh), old(x.right.left.maxHigh)))
        && y.maxHigh == Max(y.high, Max(x.maxHigh, old(y.right.maxHigh)))
    {
      var y := x.right;
      x.right := y.left;
      if y.left != nil {
        y.left.parent := x;
      }
      y.parent := x.parent;
      if x == x.parent.left {
        x.parent.left := y;
      } else {
        x.parent.right := y;
      }
      y.left := x;
      x.parent := y;
      x.maxHigh := Max(x.left.maxHigh, Max(x.right.maxHigh, x.high));
      y.maxHigh := Max(x.maxHigh, Max(y.right.maxHigh, y.high));
    }

    method LeftRotateAt(x: Node, ghost c: Path, ghost t: Tree)
      requires t.Branch? && t.right.Branch? && x == t.node
      requires Focus(c, t)
      modifies root, nodes
      ensures Focus(c, RotatedLeft(t))
    {
      ghost var l, m, y, r := t.left, t.right.left, t.right.node, t.right.right;
      LeftRotateApart(c, t);
      LeftRotateParts(c, t);
      assert Holds(t.right, x) && Holds(m, y);
      LeftRotate(x);
      assert Holds(l, x) == old(Holds(l, x));
      assert Holds(r, y) == old(Holds(r, y));
      if m.Branch? {
        assert Holds(m.left, m.node) == old(Holds(m.left, m.node));
        assert Holds(m.right, m.node) == old(Holds(m.right, m.node));
      }
      if !c.Top? {
        assert HoldsPath(c.up, c.node) == old(HoldsPath(c.up, c.node));
        assert Holds(c.other, c.node) == old(Holds(c.other, c.node));
      }
    }

    lemma RightRotateApart(c: Path, t: Tree)
      requires t.Branch? && t.left.Branch? && Apart(c, t)
      ensures Apart(c, RotatedRight(t))
    {
      var t' := RotatedRight(t);
      assert t.left.Distinct();
      assert t.left.Nodes() == t.left.right.Nodes() + {t.left.node} + t.left.left.Nodes();
      assert t'.right.Nodes() == t.right.Nodes() + {t.node} + t.left.right.Nodes();
      assert t'.right.Distinct();
      assert t'.Nodes() == t.Nodes();
    }

    // The nodes a right rotation of t writes to.
    ghost function RightRotateFootprint(c: Path, t: Tree): set<Node>
      requires t.Branch? && t.left.Branch?
    {
      {t.node, t.left.node, Above(c)} + if t.left.right.Leaf? then {} else {t.left.right.node}
    }

    lemma RightRotateParts(c: Path, t: Tree)
      requires t.Branch? && t.left.Branch? && Apart(c, t)
      ensures RightRotateFootprint(c, t) <= nodes + {root}
      ensures RightRotateFootprint(c, t) !! t.right.Nodes()
      ensures RightRotateFootprint(c, t) !! t.left.left.Nodes()
      ensures Above(c) !in t.Nodes() && t.node != t.left.node && Above(c) !in {t.node, t.left.node}
      ensures t.left.right.Branch? ==>
        && RightRotateFootprint(c, t) !! t.left.right.right.Nodes()
        && RightRotateFootprint(c, t) !! t.left.right.left.Nodes()
        && t.left.right.right.Nodes() <= nodes && t.left.right.left.Nodes() <= nodes
        && t.left.right.node !in {t.node, t.left.node, Above(c), nil}
      ensures !c.Top? ==>
        && RightRotateFootprint(c, t) !! c.up.Nodes()
        && RightRotateFootprint(c, t) !! c.other.Nodes()
        && root !in RightRotateFootprint(c, t)
    {
      assert t.left.Distinct() && t.left.right.Distinct();
    }

    method RightRotate(y: Node)
      requires y.left != y && y.left != y.parent && y.parent != y && y.right != y && y.right != y.left
      requires y.left.right != nil ==> y.left.right !in {y, y.left, y.parent}
      requires y.left.left != y && y.left.left != y.left
      modifies y, y.left, y.parent, if y.left.right == nil then {} else {y.left.right}
      ensures var x, b, p := old(y.left), old(y.left.right), old(y.parent);
        && y.right == old(y.right) && y.left == b && y.parent == x && y.red == old(y.red)
        && x.right == y && x.left == old(x.left) && x.parent == p && x.red == old(x.red)
        && p.left == (if old(p.left) == y then x else old(p.left))
        && p.right == (if old(p.left) != y then x else old(p.right))
        && p.parent == old(p.parent) && p.red == old(p.red) && p.maxHigh == old(p.maxHigh)
        && (b != nil ==>
              && b.left == old(b.left) && b.right == old(b.right) && b.parent == y
              && b.red == old(b.red) && b.maxHigh == old(b.maxHigh))
        && y.maxHigh == Max(y.high, Max(old(y.left.right.maxHigh), old(y.right.maxHigh)))
        && x.maxHigh == Max(x.high, Max(old(x.left.maxHigh), y.maxHigh))
    {
      var x := y.left;
      y.left := x.right;
      if nil != x.right {
        x.right.parent := y;
      }
      x.parent := y.parent;
      if y == y.parent.left {
        y.parent.left := x;
      } else {
        y.parent.right := x;
      }
      x.right := y;
      y.parent := x;
      y.maxHigh := Max(y.left.maxHigh, Max(y.right.maxHigh, y.high));
      x.maxHigh := Max(x.left.maxHigh, Max(y.maxHigh, x.high));
    }

    method RightRotateAt(x: Node, ghost c: Path, ghost t: Tree)
      requires t.Branch? && t.left.Branch? && x == t.node
      requires Focus(c, t)
      modifies root, nodes
      ensures Focus(c, RotatedRight(t))
    {
      ghost var l, m, y, r := t.right, t.left.right, t.left.node, t.left.left;
      RightRotateApart(c, t);
      RightRotateParts(c, t);
      assert Holds(t.left, x) && Holds(m, y);
      RightRotate(x);
      assert Holds(l, x) == old(Holds(l, x));
      assert Holds(r, y) == old(Holds(r, y));
      if m.Branch? {
        assert Holds(m.right, m.node) == old(Holds(m.right, m.node));
        assert Holds(m.left, m.node) == old(Holds(m.left, m.node));
      }
      if !c.Top? {
        assert HoldsPath(c.up, c.node) == old(HoldsPath(c.up, c.node));
        assert Holds(c.other, c.node) == old(Holds(c.other, c.node));
      }
    }

    method SetMaxHigh(n: Node, v: SimTime, ghost c: Path, ghost t: Tree)
      requires Focus(c, t) && t.Branch? && t.node == n
      modifies n`maxHigh
      ensures Focus(c, t.(maxHigh := v))
    {
      n.maxHigh := v;
      assert Holds(t.left, n) == old(Holds(t.left, n));
      assert Holds(t.right, n) == old(Holds(t.right, n));
      assert HoldsPath(c, n) == old(HoldsPath(c, n));
    }

    method FixupMaxHigh(from: Node, ghost c: Path, ghost t: Tree)
      requires Focus(c, t) && from == Above(c)
      modifies nodes`maxHigh
      ensures Focus(Refit(c, t.Peak()), t)
    {
      var x := from;
      ghost var cc, tt := c, t;
      while x != root
        invariant Focus(cc, tt) && x == Above(cc)
        invariant Plug(Refit(cc, tt.Peak()), tt) == Plug(Refit(c, t.Peak()), t)
        decreases cc
      {
        GoUp(cc, tt);
        cc, tt := cc.up, Closed(cc, tt);
        SetMaxHigh(x, Max(x.high, Max(x.left.maxHigh, x.right.maxHigh)), cc, tt);
        tt := tt.(maxHigh := MaxOf(tt.node, tt.left, tt.right));
        x := x.parent;
      }
      Refocus(Refit(c, t.Peak()), t);
    }

    // ---------- insertion ----------

    method LinkLeaf(z: Node, y: Node, ghost c: Path)
      requires Focus(c, Leaf) && y == Above(c)
      requires z !in nodes && z != root && z != nil && z.left == nil && z.right == nil
      requires Splits(c, z.key)
      modifies `nodes, z`parent, y`left, y`right
      ensures nodes == old(nodes) + {z}
      ensures Focus(c, Branch(Leaf, z, z.red, z.maxHigh, Leaf))
    {
      z.parent := y;
      if y == root || y.key > z.key {
        y.left := z;
      } else {
        y.right := z;
      }
      nodes := nodes + {z};
      if !c.Top? {
        assert HoldsPath(c.up, c.node) == old(HoldsPath(c.up, c.node));
        assert Holds(c.other, c.node) == old(Holds(c.other, c.node));
      }
    }

    method RecursiveInsert(z: Node, ghost tree: Tree) returns (ghost c: Path)
      requires Focus(Top, tree) && Sorted(tree.InOrder())
      requires z !in nodes && z != root && z != nil
      modifies `nodes, z, nodes, root
      ensures nodes == old(nodes) + {z} && z.red == old(z.red) && z.maxHigh == old(z.maxHigh)
      ensures Focus(c, Branch(Leaf, z, z.red, z.maxHigh, Leaf))
      ensures Plug(c, Leaf) == tree
      ensures Splits(c, z.key)
    {
      z.left, z.right := nil, nil;
      assert Holds(tree, root) == old(Holds(tree, root));
      var y := root;
      var x := root.left;
      ghost var t := tree;
      c := Top;
      while x != nil
        invariant nodes == old(nodes)
        invariant z.left == nil && z.right == nil && z.red == old(z.red) && z.maxHigh == old(z.maxHigh)
        invariant Focus(c, t) && x == Ref(t) && y == Above(c) && Plug(c, t) == tree
        invariant Sorted(t.InOrder()) && Splits(c, z.key)
        decreases t
      {
        y := x;
        SplitsBelow(c, t, z.key);
        GoLeft(c, t);
        GoRight(c, t);
        if x.key > z.key {
          x := x.left;
          c, t := DownLeft(c, t), t.left;
        } else {
          x := x.right;
          c, t := DownRight(c, t), t.right;
        }
      }
      LinkLeaf(z, y, c);
    }

    lemma ParentIsInner(c: Path, t: Tree)
      requires Focus(c, t) && RedAt(c, t) && t.node.parent.red
      ensures c.ParentRed() && !c.up.Top? && t.node.parent == c.node
      ensures c.node == c.node.parent.left <==> c.up.Left?
      ensures Ref(t) == c.node.left <==> c.Left?
    {
      GoUp(c, t);
    }

    // One round of the fix-up when the parent of x is a left child.
    method InsertFixupLeft(x: Node, ghost c: Path, ghost t: Tree)
      returns (x': Node, ghost c': Path, ghost t': Tree)
      requires Focus(c, t) && Ref(t) == x && RedAt(c, t) && c.ParentRed() && c.up.Left?
      modifies root, nodes
      ensures Focus(c', t') && Ref(t') == x' && RedAt(c', t')
      ensures Plug(c', t').InOrder() == Plug(c, t).InOrder()
      ensures c'.ParentRed() ==> c'.Depth() < c.Depth()
    {
      GoUp(c, t);
      GoUp(c.up, Closed(c, t));
      x' := x;
      var y := x.parent.parent.right;
      if y.red {
        RecolorStep(c, t);
        c', t' := RecolorAtLeft(x, c.up, Closed(c, t));
        x' := x.parent.parent;
      } else {
        ghost var pt := Closed(c, t);
        if x' == x'.parent.right {
          ReadyBentRight(c, t);
          x' := x'.parent;
          LeftRotateAt(x', c.up, pt);
          pt := RotatedLeft(pt);
        } else {
          ReadyStraightRight(c, t);
        }
        c', t' := InsertRotateRight(x', c.up, pt);
      }
    }

    // Parent and uncle turn black, the grandparent red.
    method RecolorAtLeft(x: Node, ghost c: Path, ghost pt: Tree) returns (ghost c': Path, ghost t': Tree)
      requires c.Left? && pt.Branch? && c.other.Branch?
      requires Focus(c, pt) && x.parent == pt.node
      modifies nodes`red
      ensures c' == c.up && t' == Recolored(Closed(c, pt)) && Focus(c', t')
    {
      ghost var up := c.up;
      var y := x.parent.parent.right;
      SetRed(x.parent, false, c, pt);
      ghost var gt := Closed(c, pt.(red := false));
      GoUp(c, gt.left);
      GoRight(up, gt);
      SetRed(y, false, DownRight(up, gt), gt.right);
      gt := gt.(right := gt.right.(red := false));
      GoRight(up, gt);
      SetRed(x.parent.parent, true, up, gt);
      c', t' := up, gt.(red := true);
    }

    // The last round: the parent of x turns black and takes the grandparent's place.
    method InsertRotateRight(x: Node, ghost c: Path, ghost pt: Tree) returns (ghost c': Path, ghost t': Tree)
      requires Focus(c, pt) && ReadyRight(c, pt) && Ref(pt.left) == x
      modifies root, nodes
      ensures Focus(c', t') && Ref(t') == x && RedAt(c', t') && !c'.ParentRed()
      ensures Plug(c', t').InOrder() == Plug(c, pt).InOrder()
    {
      ghost var up := c.up;
      assert Holds(pt.left, pt.node);
      SetRed(x.parent, false, c, pt);
      ghost var gt := Closed(c, pt.(red := false));
      GoUp(c, gt.left);
      SetRed(x.parent.parent, true, up, gt);
      RightRotateAt(x.parent.parent, up, gt.(red := true));
      RotateStepRight(c, pt);
      ghost var ft := RotatedOverRight(c, pt);
      GoLeft(up, ft);
      c', t' := DownLeft(up, ft), ft.left;
    }

    // One round of the fix-up when the parent of x is a right child.
    method InsertFixupRight(x: Node, ghost c: Path, ghost t: Tree)
      returns (x': Node, ghost c': Path, ghost t': Tree)
      requires Focus(c, t) && Ref(t) == x && RedAt(c, t) && c.ParentRed() && c.up.Right?
      modifies root, nodes
      ensures Focus(c', t') && Ref(t') == x' && RedAt(c', t')
      ensures Plug(c', t').InOrder() == Plug(c, t).InOrder()
      ensures c'.ParentRed() ==> c'.Depth() < c.Depth()
    {
      GoUp(c, t);
      GoUp(c.up, Closed(c, t));
      x' := x;
      var y := x.parent.parent.left;
      if y.red {
        RecolorStep(c, t);
        c', t' := RecolorAtRight(x, c.up, Closed(c, t));
        x' := x.parent.parent;
      } else {
        ghost var pt := Closed(c, t);
        if x' == x'.parent.left {
          ReadyBentLeft(c, t);
          x' := x'.parent;
          RightRotateAt(x', c.up, pt);
          pt := RotatedRight(pt);
        } else {
          ReadyStraightLeft(c, t);
        }
        c', t' := InsertRotateLeft(x', c.up, pt);
      }
    }

    // Parent and uncle turn black, the grandparent red.
    method RecolorAtRight(x: Node, ghost c: Path, ghost pt: Tree) returns (ghost c': Path, ghost t': Tree)
      requires c.Right? && pt.Branch? && c.other.Branch?
      requires Focus(c, pt) && x.parent == pt.node
      modifies nodes`red
      ensures c' == c.up && t' == Recolored(Closed(c, pt)) && Focus(c', t')
    {
      ghost var up := c.up;
      var y := x.parent.parent.left;
      SetRed(x.parent, false, c, pt);
      ghost var gt := Closed(c, pt.(red := false));
      GoUp(c, gt.right);
      GoLeft(up, gt);
      SetRed(y, false, DownLeft(up, gt), gt.left);
      gt := gt.(left := gt.left.(red := false));
      GoLeft(up, gt);
      SetRed(x.parent.parent, true, up, gt);
      c', t' := up, gt.(red := true);
    }

    // The last round: the parent of x turns black and takes the grandparent's place.
    method InsertRotateLeft(x: Node, ghost c: Path, ghost pt: Tree) returns (ghost c': Path, ghost t': Tree)
      requires Focus(c, pt) && ReadyLeft(c, pt) && Ref(pt.right) == x
      modifies root, nodes
      ensures Focus(c', t') && Ref(t') == x && RedAt(c', t') && !c'.ParentRed()
      ensures Plug(c', t').InOrder() == Plug(c, pt).InOrder()
    {
      ghost var up := c.up;
      assert Holds(pt.right, pt.node);
      SetRed(x.parent, false, c, pt);
      ghost var gt := Closed(c, pt.(red := false));
      GoUp(c, gt.right);
      SetRed(x.parent.parent, true, up, gt);
      LeftRotateAt(x.parent.parent, up, gt.(red := true));
      RotateStepLeft(c, pt);
      ghost var ft := RotatedOverLeft(c, pt);
      GoRight(up, ft);
      c', t' := DownRight(up, ft), ft.right;
    }

    method BlackenRoot(ghost c: Path, ghost t: Tree) returns (ghost tree: Tree)
      requires Focus(c, t) && RedAt(c, t) && !c.ParentRed()
      modifies nodes`red
      ensures Focus(Top, tree) && Fine(tree) && tree.InOrder() == Plug(c, t).InOrder()
    {
      Refocus(c, t);
      PlugRb(c, t);
      PlugMax(c, t);
      tree := Plug(c, t);
      SetRed(root.left, false, Top, tree);
      tree := tree.(red := false);
    }

    method InsertFixup(z: Node, ghost c: Path, ghost t: Tree) returns (ghost tree: Tree)
      requires Focus(c, t) && Ref(t) == z && RedAt(c, t)
      modifies root, nodes
      ensures Focus(Top, tree) && Fine(tree) && tree.InOrder() == Plug(c, t).InOrder()
    {
      var x := z;
      ghost var cc, tt := c, t;
      while x.parent.red
        invariant nodes == old(nodes) && Focus(cc, tt) && Ref(tt) == x && RedAt(cc, tt)
        invariant Plug(cc, tt).InOrder() == Plug(c, t).InOrder()
        decreases cc.ParentRed(), cc.Depth()
      {
        ParentIsInner(cc, tt);
        if x.parent == x.parent.parent.left {
          x, cc, tt := InsertFixupLeft(x, cc, tt);
        } else {
          x, cc, tt := InsertFixupRight(x, cc, tt);
        }
      }
      tree := BlackenRoot(cc, tt);
    }

    // ---------- deletion ----------

    // x is nil or a node; its parent pointer leads to the node above the hole even if x is nil.
    ghost predicate Hangs(x: Node, c: Path, t: Tree)
      reads this, c.Nodes(), t.Nodes(), root, nil
    {
      Focus(c, t) && Ref(t) == x && x.parent == Above(c)
    }

    // The cached root pointer is still the node on top, or a node that a rotation moved just above x.
    ghost predicate Anchored(rootLeft: Node, x: Node, c: Path, t: Tree) {
      t.IsRed() || rootLeft == (if c.Top? then x else Outer(c))
    }

    lemma SiblingViewLeft(x: Node, c: Path, t: Tree)
      requires Hangs(x, c, t) && c.Left? && c.other.Branch?
      ensures x.parent == c.node && c.node.right == c.other.node && c.node.left == x
      ensures c.other.node.red == c.other.red
      ensures c.other.node.left.red == c.other.left.IsRed() && c.other.node.right.red == c.other.right.IsRed()
      ensures c.other.node.left == Ref(c.other.left) && c.other.node.right == Ref(c.other.right)
    {
      assert Holds(c.other, c.node);
      assert Holds(c.other.left, c.other.node) && Holds(c.other.right, c.other.node);
    }

    method RotateRedSiblingLeft(x: Node, w: Node, ghost c: Path, ghost t: Tree) returns (ghost c': Path)
      requires Hangs(x, c, t) && c.Left? && Ref(c.other) == w
      requires Deficit(c, t) && !t.IsRed() && c.other.IsRed()
      modifies root, nodes
      ensures Hangs(x, c', t) && Deficit(c', t) && c'.Left? && c'.ParentRed() && !c'.other.IsRed()
      ensures c'.node == c.node && (!c.up.Top? ==> Outer(c') == Outer(c))
      ensures Plug(c', t).InOrder() == Plug(c, t).InOrder()
    {
      ghost var up, q := c.up, Closed(c, t);
      SiblingLeft(c, t);
      GoUp(c, t);
      GoRight(up, q);
      SetRed(w, false, DownRight(up, q), q.right);
      q := q.(right := q.right.(red := false));
      GoRight(up, q);
      SetRed(x.parent, true, up, q);
      q := q.(red := true);
      LeftRotateAt(x.parent, up, q);
      RedSiblingStepLeft(c, t);
      ghost var r := RedSiblingLeft(c, t);
      GoLeft(up, r);
      GoLeft(DownLeft(up, r), r.left);
      c' := DownLeft(DownLeft(up, r), r.left);
    }

    method PaintSiblingLeft(x: Node, w: Node, ghost c: Path, ghost t: Tree)
      requires Hangs(x, c, t) && c.Left? && c.other.Branch? && c.other.node == w
      modifies nodes`red
      ensures Focus(c.up, BlackSiblingLeft(c, t))
    {
      ghost var up, q := c.up, Closed(c, t);
      GoUp(c, t);
      GoRight(up, q);
      SetRed(w, true, DownRight(up, q), q.right);
      GoRight(up, q.(right := q.right.(red := true)));
    }

    method TurnSiblingOutLeft(x: Node, w: Node, ghost c: Path, ghost t: Tree)
      requires Hangs(x, c, t) && c.Left? && c.other.Branch? && c.other.node == w && c.other.left.Branch?
      modifies root, nodes
      ensures Hangs(x, TurnedOutLeft(c), t)
    {
      ghost var up, q := c.up, Closed(c, t);
      ghost var side := DownRight(up, q);
      GoUp(c, t);
      GoRight(up, q);
      SiblingViewLeft(x, c, t);
      GoLeft(side, c.other);
      SetRed(w.left, false, DownLeft(side, c.other), c.other.left);
      ghost var o := c.other.(left := c.other.left.(red := false));
      GoLeft(side, o);
      SetRed(w, true, side, o);
      o := o.(red := true);
      RightRotateAt(w, side, o);
      GoRight(up, q.(right := RotatedRight(o)));
      GoUp(TurnedOutLeft(c), t);
    }

    method ResolveLeft(x: Node, w: Node, ghost c: Path, ghost t: Tree)
      requires Hangs(x, c, t) && c.Left? && c.other.Branch? && c.other.node == w && c.other.right.Branch?
      modifies root, nodes
      ensures Focus(c.up, ResolvedLeft(c, t))
    {
      ghost var up, q := c.up, Closed(c, t);
      ghost var side := DownRight(up, q);
      GoUp(c, t);
      GoRight(up, q);
      SiblingViewLeft(x, c, t);
      SetRed(w, x.parent.red, side, c.other);
      ghost var o := c.other.(red := c.red);
      q := q.(right := o);
      GoRight(up, q);
      SetRed(x.parent, false, up, q);
      q := q.(red := false);
      GoRight(up, q);
      side := DownRight(up, q);
      GoRight(side, o);
      SetRed(w.right, false, DownRight(side, o), o.right);
      o := o.(right := o.right.(red := false));
      GoRight(side, o);
      q := q.(right := o);
      GoRight(up, q);
      LeftRotateAt(x.parent, up, q);
    }

    lemma SiblingViewRight(x: Node, c: Path, t: Tree)
      requires Hangs(x, c, t) && c.Right? && c.other.Branch?
      ensures x.parent == c.node && c.node.left == c.other.node && c.node.right == x
      ensures c.other.node.red == c.other.red
      ensures c.other.node.right.red == c.other.right.IsRed() && c.other.node.left.red == c.other.left.IsRed()
      ensures c.other.node.right == Ref(c.other.right) && c.other.node.left == Ref(c.other.left)
    {
      assert Holds(c.other, c.node);
      assert Holds(c.other.right, c.other.node) && Holds(c.other.left, c.other.node);
    }

    method RotateRedSiblingRight(x: Node, w: Node, ghost c: Path, ghost t: Tree) returns (ghost c': Path)
      requires Hangs(x, c, t) && c.Right? && Ref(c.other) == w
      requires Deficit(c, t) && !t.IsRed() && c.other.IsRed()
      modifies root, nodes
      ensures Hangs(x, c', t) && Deficit(c', t) && c'.Right? && c'.ParentRed() && !c'.other.IsRed()
      ensures c'.node == c.node && (!c.up.Top? ==> Outer(c') == Outer(c))
      ensures Plug(c', t).InOrder() == Plug(c, t).InOrder()
    {
      ghost var up, q := c.up, Closed(c, t);
      SiblingRight(c, t);
      GoUp(c, t);
      GoLeft(up, q);
      SetRed(w, false, DownLeft(up, q), q.left);
      q := q.(left := q.left.(red := false));
      GoLeft(up, q);
      SetRed(x.parent, true, up, q);
      q := q.(red := true);
      RightRotateAt(x.parent, up, q);
      RedSiblingStepRight(c, t);
      ghost var r := RedSiblingRight(c, t);
      GoRight(up, r);
      GoRight(DownRight(up, r), r.right);
      c' := DownRight(DownRight(up, r), r.right);
    }

    method PaintSiblingRight(x: Node, w: Node, ghost c: Path, ghost t: Tree)
      requires Hangs(x, c, t) && c.Right? && c.other.Branch? && c.other.node == w
      modifies nodes`red
      ensures Focus(c.up, BlackSiblingRight(c, t))
    {
      ghost var up, q := c.up, Closed(c, t);
      GoUp(c, t);
      GoLeft(up, q);
      SetRed(w, true, DownLeft(up, q), q.left);
      GoLeft(up, q.(left := q.left.(red := true)));
    }

    method TurnSiblingOutRight(x: Node, w: Node, ghost c: Path, ghost t: Tree)
      requires Hangs(x, c, t) && c.Right? && c.other.Branch? && c.other.node == w && c.other.right.Branch?
      modifies root, nodes
      ensures Hangs(x, TurnedOutRight(c), t)
    {
      ghost var up, q := c.up, Closed(c, t);
      ghost var side := DownLeft(up, q);
      GoUp(c, t);
      GoLeft(up, q);
      SiblingViewRight(x, c, t);
      GoRight(side, c.other);
      SetRed(w.right, false, DownRight(side, c.other), c.other.right);
      ghost var o := c.other.(right := c.other.right.(red := false));
      GoRight(side, o);
      SetRed(w, true, side, o);
      o := o.(red := true);
      LeftRotateAt(w, side, o);
      GoLeft(up, q.(left := RotatedLeft(o)));
      GoUp(TurnedOutRight(c), t);
    }

    method ResolveRight(x: Node, w: Node, ghost c: Path, ghost t: Tree)
      requires Hangs(x, c, t) && c.Right? && c.other.Branch? && c.other.node == w && c.other.left.Branch?
      modifies root, nodes
      ensures Focus(c.up, ResolvedRight(c, t))
    {
      ghost var up, q := c.up, Closed(c, t);
      ghost var side := DownLeft(up, q);
      GoUp(c, t);
      GoLeft(up, q);
      SiblingViewRight(x, c, t);
      SetRed(w, x.parent.red, side, c.other);
      ghost var o := c.other.(red := c.red);
      q := q.(left := o);
      GoLeft(up, q);
      SetRed(x.parent, false, up, q);
      q := q.(red := false);
      GoLeft(up, q);
      side := DownLeft(up, q);
      GoLeft(side, o);
      SetRed(w.left, false, DownLeft(side, o), o.left);
      o := o.(left := o.left.(red := false));
      GoLeft(side, o);
      q := q.(left := o);
      GoLeft(up, q);
      RightRotateAt(x.parent, up, q);
    }

    // Sibling and both its children black: paint the sibling red and go one level up.
    method DeficitUpLeft(x: Node, w: Node, rootLeft: Node, ghost c: Path, ghost t: Tree) returns (x': Node)
      requires Hangs(x, c, t) && c.Left? && Ref(c.other) == w && c.other.Branch? && Deficit(c, t) && !t.IsRed()
      requires !c.other.IsRed() && !c.other.left.IsRed() && !c.other.right.IsRed()
      requires rootLeft == Outer(c) || c.ParentRed()
      modifies root, nodes
      ensures Hangs(x', c.up, BlackSiblingLeft(c, t)) && Deficit(c.up, BlackSiblingLeft(c, t))
      ensures Anchored(rootLeft, x', c.up, BlackSiblingLeft(c, t))
      ensures Plug(c.up, BlackSiblingLeft(c, t)).InOrder() == Plug(c, t).InOrder()
    {
      BlackSiblingStepLeft(c, t);
      PaintSiblingLeft(x, w, c, t);
      x' := x.parent;
    }

    // Some child of the sibling is red: at most two rotations finish.
    method LastRoundLeft(x: Node, sibling: Node, rootLeft: Node, ghost c: Path, ghost t: Tree)
      returns (ghost tree: Tree)
      requires Hangs(x, c, t) && c.Left? && Ref(c.other) == sibling && c.other.Branch? && Deficit(c, t) && !t.IsRed()
      requires !c.other.IsRed() && (c.other.left.IsRed() || c.other.right.IsRed())
      requires rootLeft == Outer(c) || rootLeft == c.node
      modifies root, nodes
      ensures Focus(Top, tree) && Fine(tree) && !rootLeft.red
      ensures tree.InOrder() == Plug(c, t).InOrder()
    {
      var w := sibling;
      ghost var cc := c;
      SiblingViewLeft(x, c, t);
      if !w.right.red {
        TurnOutStepLeft(c, t);
        TurnSiblingOutLeft(x, w, c, t);
        cc := TurnedOutLeft(c);
        SiblingViewLeft(x, cc, t);
        w := x.parent.right;
      }
      ResolveStepLeft(cc, t);
      ResolveLeft(x, w, cc, t);
      tree := Plug(cc.up, ResolvedLeft(cc, t));
      Refocus(cc.up, ResolvedLeft(cc, t));
      assert Holds(ResolvedLeft(cc, t).left, ResolvedLeft(cc, t).node);
      if !cc.up.Top? {
        OuterIsRoot(cc.up, ResolvedLeft(cc, t));
      }
    }

    // One round of the fix-up when x is a left child.
    method DeleteFixupLeft(x: Node, rootLeft: Node, ghost c: Path, ghost t: Tree)
      returns (x': Node, ghost c': Path, ghost t': Tree, ghost done: bool)
      requires Hangs(x, c, t) && Deficit(c, t) && !t.IsRed() && c.Left? && rootLeft == Outer(c)
      modifies root, nodes
      ensures Plug(c', t').InOrder() == Plug(c, t).InOrder()
      ensures done ==> c' == Top && Focus(Top, t') && Fine(t') && x' == rootLeft && !x'.red
      ensures !done ==> Hangs(x', c', t') && Deficit(c', t') && Anchored(rootLeft, x', c', t')
      ensures !done ==> t'.IsRed() || c'.Depth() < c.Depth()
    {
      c', t' := c, t;
      SiblingLeft(c, t);
      SiblingViewLeft(x, c, t);
      var w := x.parent.right;
      if w.red {
        c' := RotateRedSiblingLeft(x, w, c, t);
        SiblingLeft(c', t);
        SiblingViewLeft(x, c', t);
        w := x.parent.right;
      }
      if !w.right.red && !w.left.red {
        x' := DeficitUpLeft(x, w, rootLeft, c', t);
        t' := BlackSiblingLeft(c', t);
        c' := c'.up;
        done := false;
      } else {
        t' := LastRoundLeft(x, w, rootLeft, c', t);
        c', done := Top, true;
        x' := rootLeft;
      }
    }

    // Sibling and both its children black: paint the sibling red and go one level up.
    method DeficitUpRight(x: Node, w: Node, rootLeft: Node, ghost c: Path, ghost t: Tree) returns (x': Node)
      requires Hangs(x, c, t) && c.Right? && Ref(c.other) == w && c.other.Branch? && Deficit(c, t) && !t.IsRed()
      requires !c.other.IsRed() && !c.other.right.IsRed() && !c.other.left.IsRed()
      requires rootLeft == Outer(c) || c.ParentRed()
      modifies root, nodes
      ensures Hangs(x', c.up, BlackSiblingRight(c, t)) && Deficit(c.up, BlackSiblingRight(c, t))
      ensures Anchored(rootLeft, x', c.up, BlackSiblingRight(c, t))
      ensures Plug(c.up, BlackSiblingRight(c, t)).InOrder() == Plug(c, t).InOrder()
    {
      BlackSiblingStepRight(c, t);
      PaintSiblingRight(x, w, c, t);
      x' := x.parent;
    }

    // Some child of the sibling is red: at most two rotations finish.
    method LastRoundRight(x: Node, sibling: Node, rootLeft: Node, ghost c: Path, ghost t: Tree)
      returns (ghost tree: Tree)
      requires Hangs(x, c, t) && c.Right? && Ref(c.other) == sibling && c.other.Branch? && Deficit(c, t) && !t.IsRed()
      requires !c.other.IsRed() && (c.other.right.IsRed() || c.other.left.IsRed())
      requires rootLeft == Outer(c) || rootLeft == c.node
      modifies root, nodes
      ensures Focus(Top, tree) && Fine(tree) && !rootLeft.red
      ensures tree.InOrder() == Plug(c, t).InOrder()
    {
      var w := sibling;
      ghost var cc := c;
      SiblingViewRight(x, c, t);
      if !w.left.red {
        TurnOutStepRight(c, t);
        TurnSiblingOutRight(x, w, c, t);
        cc := TurnedOutRight(c);
        SiblingViewRight(x, cc, t);
        w := x.parent.left;
      }
      ResolveStepRight(cc, t);
      ResolveRight(x, w, cc, t);
      tree := Plug(cc.up, ResolvedRight(cc, t));
      Refocus(cc.up, ResolvedRight(cc, t));
      assert Holds(ResolvedRight(cc, t).right, ResolvedRight(cc, t).node);
      if !cc.up.Top? {
        OuterIsRoot(cc.up, ResolvedRight(cc, t));
      }
    }

    // One round of the fix-up when x is a right child.
    method DeleteFixupRight(x: Node, rootLeft: Node, ghost c: Path, ghost t: Tree)
      returns (x': Node, ghost c': Path, ghost t': Tree, ghost done: bool)
      requires Hangs(x, c, t) && Deficit(c, t) && !t.IsRed() && c.Right? && rootLeft == Outer(c)
      modifies root, nodes
      ensures Plug(c', t').InOrder() == Plug(c, t).InOrder()
      ensures done ==> c' == Top && Focus(Top, t') && Fine(t') && x' == rootLeft && !x'.red
      ensures !done ==> Hangs(x', c', t') && Deficit(c', t') && Anchored(rootLeft, x', c', t')
      ensures !done ==> t'.IsRed() || c'.Depth() < c.Depth()
    {
      c', t' := c, t;
      SiblingRight(c, t);
      SiblingViewRight(x, c, t);
      var w := x.parent.left;
      if w.red {
        c' := RotateRedSiblingRight(x, w, c, t);
        SiblingRight(c', t);
        SiblingViewRight(x, c', t);
        w := x.parent.left;
      }
      if !w.left.red && !w.right.red {
        x' := DeficitUpRight(x, w, rootLeft, c', t);
        t' := BlackSiblingRight(c', t);
        c' := c'.up;
        done := false;
      } else {
        t' := LastRoundRight(x, w, rootLeft, c', t);
        c', done := Top, true;
        x' := rootLeft;
      }
    }

    lemma RootLeftIsOuter(c: Path, t: Tree)
      requires Focus(c, t)
      ensures root.left == (if c.Top? then Ref(t) else Outer(c)) && root.left in nodes + {nil}
    {
      Refocus(c, t);
      if !c.Top? {
        OuterIsRoot(c, t);
      }
    }

    lemma SidesOfHole(x: Node, c: Path, t: Tree)
      requires Hangs(x, c, t) && Deficit(c, t) && !c.Top?
      ensures x == x.parent.left <==> c.Left?
    {
      if c.Right? {
        SiblingRight(c, t);
      }
    }

    lemma {:induction false} OuterInside(c: Path)
      requires !c.Top?
      ensures Outer(c) in c.Nodes()
    {
      if !c.up.Top? {
        OuterInside(c.up);
      }
    }

    method PaintBlack(x: Node, ghost c: Path, ghost t: Tree)
      requires Focus(c, t) && (x.red ==> Ref(t) == x)
      modifies x`red
      ensures Focus(c, if old(x.red) then Blackened(t) else t)
    {
      if x.red {
        SetRed(x, false, c, t);
      } else {
        x.red := false;
        assert HoldsPath(c, Ref(t)) == old(HoldsPath(c, Ref(t)));
        assert Holds(t, Above(c)) == old(Holds(t, Above(c)));
      }
    }

    method FinishDeleteFixup(x: Node, rootLeft: Node, ghost c: Path, ghost t: Tree, ghost done: bool)
      returns (ghost tree: Tree)
      requires rootLeft in nodes + {nil} && (x.red || rootLeft == x)
      requires done ==> c == Top && Focus(Top, t) && Fine(t) && x == rootLeft && !x.red
      requires !done ==> Hangs(x, c, t) && Deficit(c, t) && Anchored(rootLeft, x, c, t)
      modifies nodes`red, nil`red
      ensures Focus(Top, tree) && Fine(tree) && tree.InOrder() == Plug(c, t).InOrder()
    {
      if !done {
        if !c.Top? {
          OuterInside(c);
        }
        DeficitResolved(c, t);
      }
      PaintBlack(x, c, t);
      Refocus(c, if done then t else Blackened(t));
      tree := Plug(c, if done then t else Blackened(t));
    }

    method DeleteFixup(from: Node, ghost c: Path, ghost t: Tree) returns (ghost tree: Tree)
      requires Hangs(from, c, t) && Deficit(c, t)
      modifies root, nodes, nil`red
      ensures Focus(Top, tree) && Fine(tree) && tree.InOrder() == Plug(c, t).InOrder()
    {
      var x := from;
      var rootLeft := root.left;
      ghost var cc, tt, done := c, t, false;
      RootLeftIsOuter(c, t);
      while !x.red && rootLeft != x
        invariant nodes == old(nodes) && rootLeft in nodes + {nil}
        invariant Plug(cc, tt).InOrder() == Plug(c, t).InOrder()
        invariant done ==> cc == Top && Focus(Top, tt) && Fine(tt) && x == rootLeft && !x.red
        invariant !done ==> Hangs(x, cc, tt) && Deficit(cc, tt) && Anchored(rootLeft, x, cc, tt)
        decreases !done, !tt.IsRed(), cc.Depth()
      {
        SidesOfHole(x, cc, tt);
        if x == x.parent.left {
          x, cc, tt, done := DeleteFixupLeft(x, rootLeft, cc, tt);
        } else {
          x, cc, tt, done := DeleteFixupRight(x, rootLeft, cc, tt);
        }
      }
      tree := FinishDeleteFixup(x, rootLeft, cc, tt, done);
    }

    // ---------- neighbours ----------

    method GetMinimum(node: Node, ghost c: Path, ghost t: Tree) returns (x: Node)
      requires Focus(c, t) && t.Branch? && t.node == node
      ensures x == t.InOrder()[0]
    {
      x := node;
      ghost var cc, s := c, t;
      while x.left != nil
        invariant Focus(cc, s) && s.Branch? && s.node == x && s.InOrder()[0] == t.InOrder()[0]
        decreases s
      {
        GoLeft(cc, s);
        x := x.left;
        cc, s := DownLeft(cc, s), s.left;
      }
    }

    method GetMaximum(node: Node, ghost c: Path, ghost t: Tree) returns (x: Node)
      requires Focus(c, t) && t.Branch? && t.node == node
      ensures x == t.InOrder()[|t.InOrder()| - 1]
    {
      x := node;
      ghost var cc, s := c, t;
      while x.right != nil
        invariant Focus(cc, s) && s.Branch? && s.node == x
        invariant s.InOrder()[|s.InOrder()| - 1] == t.InOrder()[|t.InOrder()| - 1]
        decreases s
      {
        GoRight(cc, s);
        x := x.right;
        cc, s := DownRight(cc, s), s.right;
      }
    }

    // The next node in order; the root sentinel if there is none.
    method GetSuccessor(node: Node, ghost c: Path, ghost t: Tree) returns (y: Node)
      requires Focus(c, t) && t.Branch? && t.node == node
      ensures var next := t.right.InOrder() + c.After();
              y == if next == [] then root else next[0]
    {
      if nil != node.right {
        GoRight(c, t);
        y := GetMinimum(node.right, DownRight(c, t), t.right);
      } else {
        var x := node;
        y := x.parent;
        ghost var cc, s := c, t;
        while y != nil && x == y.right
          invariant Focus(cc, s) && s.Branch? && s.node == x && y == Above(cc) && cc.After() == c.After()
          decreases cc
        {
          GoUp(cc, s);
          x := y;
          y := y.parent;
          cc, s := cc.up, Closed(cc, s);
        }
      }
    }

    // The previous node in order; nil if there is none.
    method GetPredecessor(node: Node, ghost c: Path, ghost t: Tree) returns (y: Node)
      requires Focus(c, t) && t.Branch? && t.node == node
      ensures var previous := c.Before() + t.left.InOrder();
              y == if previous == [] then nil else previous[|previous| - 1]
    {
      if nil != node.left {
        GoLeft(c, t);
        y := GetMaximum(node.left, DownLeft(c, t), t.left);
      } else {
        var x := node;
        y := x.parent;
        ghost var cc, s, atRoot := c, t, false;
        while y != nil && x == y.left
          invariant !atRoot ==> Focus(cc, s) && s.Branch? && s.node == x && y == Above(cc) && cc.Before() == c.Before()
          invariant atRoot ==> y == nil && c.Before() == []
          decreases !atRoot, cc
        {
          if cc.Top? {
            atRoot := true;
          } else {
            GoUp(cc, s);
            cc, s := cc.up, Closed(cc, s);
          }
          x := y;
          y := y.parent;
        }
      }
    }

    // ---------- taking a node out ----------

    function OnlyChild(y: Node): Node
      reads y
    {
      if y.left == nil then y.right else y.left
    }

    // Links the parent of y, which has at most one child, to that child.
    method Bypass(y: Node) returns (x: Node)
      requires y.parent != y && y.parent != OnlyChild(y) && OnlyChild(y) != y
      modifies `nodes, OnlyChild(y)`parent, y.parent`left, y.parent`right
      ensures nodes == old(nodes) - {y}
      ensures x == old(OnlyChild(y)) && x.parent == old(y.parent)
      ensures var p := y.parent;
              if root == p || y == old(p.left) then p.left == x && p.right == old(p.right)
              else p.right == x && p.left == old(p.left)
    {
      x := OnlyChild(y);
      x.parent := y.parent;
      if root == x.parent {
        root.left := x;
      } else if y == y.parent.left {
        y.parent.left := x;
      } else {
        y.parent.right := x;
      }
      nodes := nodes - {y};
    }

    method SpliceOut(y: Node, ghost c: Path, ghost t: Tree) returns (x: Node)
      requires Focus(c, t) && t.Branch? && t.node == y && (t.left.Leaf? || t.right.Leaf?)
      modifies `nodes, root`left, root`right, nodes`left, nodes`right, nodes`parent, nil`parent
      ensures nodes == old(nodes) - {y}
      ensures Hangs(x, c, Spliced(t)) && unchanged(y)
    {
      ghost var s := Spliced(t);
      assert s.Distinct() && s.Nodes() <= nodes && Holds(s, y);
      assert s.Branch? ==> s.node != y && s.node !in c.Nodes() && s.left.Nodes() + s.right.Nodes() <= nodes;
      x := Bypass(y);
      if s.Branch? {
        assert Holds(s.left, s.node) == old(Holds(s.left, s.node));
        assert Holds(s.right, s.node) == old(Holds(s.right, s.node));
      }
      if !c.Top? {
        assert HoldsPath(c.up, c.node) == old(HoldsPath(c.up, c.node));
        assert Holds(c.other, c.node) == old(Holds(c.other, c.node));
      }
    }

    // y takes over the links of z; its max_high is reset.
    method TakePlace(y: Node, z: Node)
      requires y !in {z, z.left, z.right, z.parent, nil} && z !in {z.left, z.right, z.parent}
      requires z.left != z.right && z.parent !in {z.left, z.right} && z.left != nil
      modifies `nodes, y, z.left`parent, z.right`parent, z.parent`left, z.parent`right
      ensures nodes == old(nodes) - {z} + {y}
      ensures y.left == z.left && y.right == z.right && y.parent == z.parent
      ensures y.maxHigh == -MAX_TIME && y.red == old(y.red)
      ensures z.left.parent == y && z.right.parent == y && unchanged(z)
      ensures var p := z.parent;
              && p.left == (if z == old(p.left) then y else old(p.left))
              && p.right == (if z != old(p.left) then y else old(p.right))
    {
      y.maxHigh := -MAX_TIME;
      y.left := z.left;
      y.right := z.right;
      y.parent := z.parent;
      z.right.parent := y;
      z.left.parent := z.right.parent;
      if z == z.parent.left {
        z.parent.left := y;
      } else {
        z.parent.right := y;
      }
      nodes := nodes - {z} + {y};
    }

    function Replaced(t: Tree, y: Node, red: bool): Tree
      requires t.Branch?
    {
      Branch(t.left, y, red, -MAX_TIME, t.right)
    }

    // The nodes other than y that are written when y takes the place of the top of t.
    ghost function ReplaceFootprint(c: Path, t: Tree, y: Node): set<Node>
      requires t.Branch? && t.left.Branch?
    {
      {y, t.left.node, Above(c)} + if t.right.Leaf? then {} else {t.right.node}
    }

    lemma ReplacedNodes(c: Path, t: Tree, y: Node, red: bool)
      requires Apart(c, t) && t.Branch? && y !in nodes
      ensures Replaced(t, y, red).Distinct() && c.Nodes() !! Replaced(t, y, red).Nodes()
      ensures c.Nodes() + Replaced(t, y, red).Nodes() == nodes - {t.node} + {y}
    {
    }

    lemma ReplaceParts(c: Path, t: Tree, y: Node)
      requires Apart(c, t) && t.Branch? && t.left.Branch? && y !in nodes && y != root
      ensures ReplaceFootprint(c, t, y) !! t.left.left.Nodes()
      ensures ReplaceFootprint(c, t, y) !! t.left.right.Nodes()
      ensures t.left.left.Nodes() <= nodes && t.left.right.Nodes() <= nodes
      ensures Above(c) !in t.Nodes() && t.node !in t.left.Nodes() && t.node !in t.right.Nodes()
      ensures t.right.Branch? ==>
        && ReplaceFootprint(c, t, y) !! t.right.left.Nodes()
        && ReplaceFootprint(c, t, y) !! t.right.right.Nodes()
        && t.right.left.Nodes() <= nodes && t.right.right.Nodes() <= nodes
        && t.left.node != t.right.node
      ensures !c.Top? ==>
        && ReplaceFootprint(c, t, y) !! c.up.Nodes()
        && ReplaceFootprint(c, t, y) !! c.other.Nodes()
        && root !in ReplaceFootprint(c, t, y)
    {
      assert t.left.Distinct() && t.right.Distinct();
    }

    method ReplaceNode(y: Node, z: Node, ghost c: Path, ghost t: Tree)
      requires Focus(c, t) && t.Branch? && t.left.Branch? && t.node == z
      requires y !in nodes && y != root && y != nil
      modifies `nodes, root, nodes, y, nil`parent
      ensures nodes == old(nodes) - {z} + {y} && y.red == old(y.red) && z.red == old(z.red)
      ensures Focus(c, Replaced(t, y, y.red))
      ensures nil.parent == if t.right.Leaf? then y else old(nil.parent)
    {
      ghost var l, r := t.left, t.right;
      ReplaceParts(c, t, y);
      ReplacedNodes(c, t, y, y.red);
      assert Holds(l, z) && Holds(r, z);
      TakePlace(y, z);
      assert Holds(l.left, l.node) == old(Holds(l.left, l.node));
      assert Holds(l.right, l.node) == old(Holds(l.right, l.node));
      if r.Branch? {
        assert Holds(r.left, r.node) == old(Holds(r.left, r.node));
        assert Holds(r.right, r.node) == old(Holds(r.right, r.node));
      }
      if !c.Top? {
        assert HoldsPath(c.up, c.node) == old(HoldsPath(c.up, c.node));
        assert Holds(c.other, c.node) == old(Holds(c.other, c.node));
      }
    }

    // z has at most one child: its only child takes its place.
    method DeleteShallow(z: Node, ghost c: Path, ghost t: Tree) returns (ghost tree: Tree)
      requires Focus(c, t) && t.Branch? && t.node == z && (t.left.Leaf? || t.right.Leaf?)
      requires Fine(Plug(c, t))
      modifies `nodes, root, nodes, nil`parent, nil`red
      ensures nodes == old(nodes) - {z} && Focus(Top, tree) && Fine(tree)
      ensures tree.InOrder() == c.Before() + Spliced(t).InOrder() + c.After()
    {
      ghost var s := Spliced(t);
      ghost var c' := Refit(c, s.Peak());
      SplicedFacts(c, t);
      var x := SpliceOut(z, c, t);
      FixupMaxHigh(x.parent, c, s);
      if !z.red {
        tree := DeleteFixup(x, c', s);
      } else {
        Refocus(c', s);
        tree := Plug(c', s);
      }
    }

    // The successor y of z leaves its place; its right child x moves up.
    method TakeOutSuccessor(y: Node, ghost c: Path, ghost t: Tree, ghost d: Path, ghost s: Tree)
      returns (x: Node)
      requires Focus(c, t) && t.Branch? && Plug(d, s) == t.right && s.Branch? && s.left.Leaf? && s.node == y
      modifies `nodes, root, nodes, nil`parent
      ensures nodes == old(nodes) - {y} && y !in {root, nil} && y in old(nodes) && y.red == s.red
      ensures Focus(c, t.(right := Plug(d, s.right))) && Ref(s.right) == x
      ensures x.parent == if d.Top? then t.node else d.node
    {
      ghost var r := DownRight(c, t);
      GoRight(c, t);
      Zoom(d, r, s);
      assert Holds(s, Above(Append(d, r)));
      x := SpliceOut(y, Append(d, r), s);
      Zoom(d, r, s.right);
      GoRight(c, t.(right := Plug(d, s.right)));
    }

    lemma TopOf(c: Path, t: Tree)
      requires Focus(c, t) && t.Branch?
      ensures t.node in nodes && t.node.red == t.red
    {
    }

    lemma Lowered(y: Node, c: Path, t: Tree, d: Path, s: Tree)
      requires t.Branch? && s.Branch? && t.right == Plug(d, s.right) && Focus(c, Replaced(t, y, s.red))
      requires s.right.Leaf? ==> nil.parent == if d.Top? then y else d.node
      ensures Hangs(Ref(s.right), Append(d, Right(c, y, s.red, -MAX_TIME, t.left)), s.right)
    {
      GoRight(c, Replaced(t, y, s.red));
      Zoom(d, Right(c, y, s.red, -MAX_TIME, t.left), s.right);
    }

    // y, which is out of the tree, takes over the place of z.
    method SeatSuccessor(y: Node, z: Node, ghost c: Path, ghost t: Tree, ghost d: Path, ghost s: Tree)
      requires Focus(c, t) && t.Branch? && t.node == z && t.left.Branch?
      requires s.Branch? && t.right == Plug(d, s.right) && y !in nodes && y !in {root, nil}
      requires s.right.Leaf? ==> nil.parent == if d.Top? then z else d.node
      modifies `nodes, root, nodes, y, nil`parent
      requires y.red == s.red
      ensures nodes == old(nodes) - {z} + {y} && y.red == s.red && z.red == t.red
      ensures Hangs(Ref(s.right), Append(d, Right(c, y, s.red, -MAX_TIME, t.left)), s.right)
    {
      if !d.Top? {
        OuterIsRoot(d, s.right);
      }
      TopOf(c, t);
      ReplaceNode(y, z, c, t);
      Lowered(y, c, t, d, s);
    }

    // The successor y leaves its place and takes over that of z.
    method MoveSuccessor(y: Node, z: Node, ghost c: Path, ghost t: Tree, ghost d: Path, ghost s: Tree)
      returns (x: Node)
      requires Focus(c, t) && t.Branch? && t.node == z && t.left.Branch?
      requires Plug(d, s) == t.right && s.Branch? && s.left.Leaf? && s.node == y
      modifies `nodes, root, nodes, nil`parent
      ensures nodes == old(nodes) - {z} && y in nodes && y.red == s.red && z.red == t.red
      ensures Hangs(x, Append(d, Right(c, y, s.red, -MAX_TIME, t.left)), s.right)
    {
      x := TakeOutSuccessor(y, c, t, d, s);
      ghost var t' := t.(right := Plug(d, s.right));
      SeatSuccessor(y, z, c, t', d, s);
    }

    method Repaint(y: Node, red: bool, ghost d: Path, ghost b: Path, ghost t: Tree)
      requires Focus(Refit(Append(d, b), t.Peak()), t) && b.Right? && b.node == y
      modifies y`red
      ensures Focus(Refit(Append(d, Right(b.up, y, red, b.maxHigh, b.other)), t.Peak()), t)
    {
      ghost var p := t.Peak();
      ghost var q := PeakThrough(d, p);
      ghost var r, r' := Refit(b, q), Refit(Right(b.up, y, red, b.maxHigh, b.other), q);
      ghost var whole := Closed(r, Plug(Refit(d, p), t));
      RefitAppend(d, b, p);
      Zoom(Refit(d, p), r, t);
      GoUp(r, Plug(Refit(d, p), t));
      SetRed(y, red, r.up, whole);
      GoUp(r', Plug(Refit(d, p), t));
      Zoom(Refit(d, p), r', t);
      RefitAppend(d, Right(b.up, y, red, b.maxHigh, b.other), p);
    }

    // y gets the colour of z, and if a black node went missing below, that is repaired.
    method SettleSuccessor(x: Node, y: Node, z: Node, ghost c: Path, ghost t: Tree, ghost d: Path, ghost s: Tree)
      returns (ghost tree: Tree)
      requires t.Branch? && s.Branch? && s.left.Leaf? && Plug(d, s) == t.right && Fine(Plug(c, t))
      requires s.node == y && y in nodes && y.red == s.red && z.red == t.red
      requires Hangs(x, Refit(Append(d, Right(c, y, s.red, -MAX_TIME, t.left)), s.right.Peak()), s.right)
      modifies root, nodes, nil`red
      ensures Focus(Top, tree) && Fine(tree)
      ensures tree.InOrder() == Plug(MovedPath(c, t, d, s), s.right).InOrder()
    {
      ghost var b := Right(c, y, s.red, -MAX_TIME, t.left);
      ghost var m := MovedPath(c, t, d, s);
      MovedDeficit(c, t, d, s);
      if !y.red {
        Repaint(y, z.red, d, b, s.right);
        tree := DeleteFixup(x, m, s.right);
      } else {
        Repaint(y, z.red, d, b, s.right);
        Refocus(m, s.right);
        tree := Plug(m, s.right);
      }
    }

    // z has two children: its successor y leaves its own place and takes over that of z.
    method DeleteDeep(y: Node, z: Node, ghost c: Path, ghost t: Tree, ghost d: Path, ghost s: Tree)
      returns (ghost tree: Tree)
      requires Focus(c, t) && t.Branch? && t.node == z && t.left.Branch? && Fine(Plug(c, t))
      requires Plug(d, s) == t.right && s.Branch? && s.left.Leaf? && s.node == y && d.Before() == []
      modifies `nodes, root, nodes, nil`parent, nil`red
      ensures nodes == old(nodes) - {z} && Focus(Top, tree) && Fine(tree)
      ensures tree.InOrder() == c.Before() + t.left.InOrder() + t.right.InOrder() + c.After()
    {
      var x := MoveSuccessor(y, z, c, t, d, s);
      FixupMaxHigh(x.parent, Append(d, Right(c, y, s.red, -MAX_TIME, t.left)), s.right);
      MovedOrder(c, t, d, s);
      tree := SettleSuccessor(x, y, z, c, t, d, s);
    }

    // z has two children.
    method RemoveInner(z: Node, ghost c: Path, ghost t: Tree) returns (ghost tree: Tree)
      requires Focus(c, t) && t.Branch? && t.node == z && t.left.Branch? && t.right.Branch? && Fine(Plug(c, t))
      modifies `nodes, root, nodes, nil`parent, nil`red
      ensures nodes == old(nodes) - {z} && Focus(Top, tree) && Fine(tree)
      ensures tree.InOrder() == c.Before() + t.left.InOrder() + t.right.InOrder() + c.After()
    {
      var y := GetSuccessor(z, c, t);
      ghost var d, s := FirstIn(t.right, Top);
      tree := DeleteDeep(y, z, c, t, d, s);
    }

    method Remove(z: Node, ghost c: Path, ghost t: Tree) returns (ghost tree: Tree)
      requires Focus(c, t) && t.Branch? && t.node == z && Fine(Plug(c, t))
      modifies `nodes, root, nodes, nil`parent, nil`red
      ensures nodes == old(nodes) - {z} && Focus(Top, tree) && Fine(tree)
      ensures tree.InOrder() == c.Before() + t.left.InOrder() + t.right.InOrder() + c.After()
    {
      if z.left == nil || z.right == nil {
        tree := DeleteShallow(z, c, t);
      } else {
        tree := RemoveInner(z, c, t);
      }
    }

    // ---------- the public operations ----------

    method Rebalance(node: Node, ghost c: Path)
      requires Focus(c, NewLeaf(node, false)) && RedAt(Refit(c, node.high), NewLeaf(node, true))
      modifies `tree, root, nodes
      ensures Focus(Top, tree) && Fine(tree)
      ensures tree.InOrder() == Plug(Refit(c, node.high), NewLeaf(node, true)).InOrder()
    {
      FixupMaxHigh(node.parent, c, NewLeaf(node, false));
      ghost var c' := Refit(c, node.high);
      SetRed(node, true, c', NewLeaf(node, false));
      tree := InsertFixup(node, c', NewLeaf(node, true));
    }

    method PlantLeaf(node: Node) returns (ghost c: Path)
      requires Valid() && node !in nodes && node != root && node != nil
      requires Stores(node) && !node.red && node.maxHigh == node.high
      modifies `nodes, root, nodes, node
      ensures nodes == old(nodes) + {node} && Splits(c, node.key) && Focus(c, NewLeaf(node, false))
      ensures RedAt(Refit(c, node.high), NewLeaf(node, true))
      ensures tree.InOrder() == c.Before() + c.After() && Sorted(c.Before() + [node] + c.After())
      ensures Plug(Refit(c, node.high), NewLeaf(node, true)).InOrder() == c.Before() + [node] + c.After()
    {
      c := RecursiveInsert(node, tree);
      InsertedLeaf(c, node);
    }

    method InsertAt(node: Node) returns (ghost c: Path)
      requires Valid() && node !in nodes && node != root && node != nil
      requires Stores(node) && !node.red && node.maxHigh == node.high
      modifies `nodes, `tree, root, nodes, node
      ensures nodes == old(nodes) + {node} && Splits(c, node.key)
      ensures Focus(Top, tree) && Fine(tree) && Sorted(tree.InOrder())
      ensures old(Contents()) == c.Before() + c.After() && Contents() == c.Before() + [node] + c.After()
    {
      c := PlantLeaf(node);
      Rebalance(node, c);
    }

    // Adds one node. It goes behind all nodes with the same low end.
    method Insert(ivl: Interval) returns (node: Node, ghost k: nat)
      requires Valid()
      modifies this, root, nil, nodes
      ensures Valid() && fresh(node) && node.interval == ivl && nodes == old(nodes) + {node}
      ensures k <= |old(Contents())|
      ensures Contents() == old(Contents())[..k] + [node] + old(Contents())[k..]
      ensures forall n :: n in old(Contents())[..k] ==> n.key <= ivl.low
      ensures forall n :: n in old(Contents())[k..] ==> ivl.low < n.key
    {
      node := new Node(ivl);
      ghost var c := InsertAt(node);
      k := |c.Before()|;
      Halves(c.Before(), [], c.After());
      assert c.Before() + [] == c.Before();
    }

    method DeleteAt(z: Node, ghost c: Path, ghost t: Tree)
      requires Valid() && t.Branch? && t.node == z && Plug(c, t) == tree
      modifies `nodes, `tree, root, nil, nodes
      ensures nodes == old(nodes) - {z}
      ensures Focus(Top, tree) && Fine(tree) && Sorted(tree.InOrder())
      ensures var a, b := c.Before() + t.left.InOrder(), t.right.InOrder() + c.After();
              old(Contents()) == a + [z] + b && Contents() == a + b
    {
      BeforeRemoval(c, t);
      tree := Remove(z, c, t);
    }

    lemma BeforeRemoval(c: Path, t: Tree)
      requires Valid() && t.Branch? && Plug(c, t) == tree
      ensures Focus(c, t) && Fine(Plug(c, t))
      ensures var a, b := c.Before() + t.left.InOrder(), t.right.InOrder() + c.After();
              && Contents() == a + [t.node] + b && Sorted(a + b)
              && c.Before() + t.left.InOrder() + t.right.InOrder() + c.After() == a + b
    {
      Refocus(c, t);
      RemovedOrder(c, t);
    }

    // Takes the node z out; every other node keeps its identity.
    method DeleteNode(z: Node) returns (deleted: Interval, ghost k: nat)
      requires Valid() && z in nodes
      modifies this, root, nil, nodes
      ensures Valid() && nodes == old(nodes) - {z} && z.interval == deleted
      ensures k < |old(Contents())| && old(Contents())[k] == z
      ensures Contents() == old(Contents())[..k] + old(Contents())[k + 1..]
    {
      deleted := z.interval;
      ghost var c, t := FindPath(tree, z, Top);
      Halves(c.Before() + t.left.InOrder(), [z], t.right.InOrder() + c.After());
      k := |c.Before() + t.left.InOrder()|;
      DeleteAt(z, c, t);
    }

    // The first node, in pre-order, that stores this very interval; nil if there is none.
    method RecursiveSearch(node: Node, ivl: Interval, ghost t: Tree, ghost p: Node) returns (found: Node)
      requires Holds(t, p) && node == Ref(t) && nil !in t.Nodes() && t.Nodes() <= nodes
      ensures if found == nil then forall n :: n in t.Nodes() ==> n.interval != ivl
              else found in t.Nodes() && found.interval == ivl
      decreases t
    {
      if node != nil {
        if node.interval == ivl {
          return node;
        }
        var left := RecursiveSearch(node.left, ivl, t.left, node);
        if left != nil {
          return left;
        }
        assert Holds(t.right, node) == old(Holds(t.right, node));
        var right := RecursiveSearch(node.right, ivl, t.right, node);
        if right != nil {
          return right;
        }
      }
      return nil;
    }

    // The search starts at the sentinel above the tree, which stores no interval and has no right child.
    method Search(ivl: Interval) returns (found: Node)
      requires Valid()
      ensures if found == nil then forall n :: n in nodes ==> n.interval != ivl
              else found in nodes && found.interval == ivl
    {
      if root.interval == ivl {
        return root;
      }
      found := RecursiveSearch(root.left, ivl, tree, root);
      if found == nil {
        found := RecursiveSearch(root.right, ivl, Leaf, root);
      }
    }

    method DeleteInterval(ivl: Interval) returns (ghost k: nat)
      requires Valid()
      modifies this, root, nil, nodes
      ensures Valid()
      ensures if k == |old(Contents())| then
                Contents() == old(Contents()) && nodes == old(nodes) && forall n :: n in nodes ==> n.interval != ivl
              else
                k < |old(Contents())| && old(Contents())[k].interval == ivl
                && Contents() == old(Contents())[..k] + old(Contents())[k + 1..]
    {
      var node := Search(ivl);
      k := |Contents()|;
      if node != nil {
        var deleted;
        deleted, k := DeleteNode(node);
      }
    }

    // ---------- the overlap query ----------

    ghost predicate Here(t: Tree)
      reads `nodes, nodes
    {
      t.Nodes() <= nodes && nil !in t.Nodes() && (t.Branch? ==> Holds(t, t.node.parent))
    }

    lemma HereParts(t: Tree)
      requires Here(t) && t.Branch?
      ensures Here(t.left) && Here(t.right)
      ensures t.node.left == Ref(t.left) && t.node.right == Ref(t.right)
      ensures t.left.Branch? ==> t.node.left.maxHigh == t.left.maxHigh
    {
      if t.left.Branch? {
        assert Holds(t.left, t.node);
        assert t.left.node.parent == t.node;
      }
      if t.right.Branch? {
        assert Holds(t.right, t.node);
        assert t.right.node.parent == t.node;
      }
    }

    // The stacked nodes are the ones left of which the search is going on.
    ghost predicate Stacked(trees: seq<Tree>)
      reads this
    {
      && 1 <= stackTop <= |stack| && |trees| == stackTop
      && forall i :: 1 <= i < stackTop ==>
           trees[i].Branch? && stack[i].startNode == trees[i].node && stack[i].parentIndex == i - 1
    }

    ghost function Rest(trees: seq<Tree>, any: bool, low: SimTime, high: SimTime): seq<Node>
      requires Stacked(trees)
      reads this
    {
      Pending(stack[..stackTop], trees, any, low, high)
    }

    // What is still to be reported when the search is about to enter t.
    ghost function Remaining(t: Tree, trees: seq<Tree>, low: SimTime, high: SimTime): seq<Node>
      requires Stacked(trees)
      reads this
    {
      Found(t, low, high) + Rest(trees, Found(t, low, high) != [], low, high)
    }

    ghost predicate AllHere(trees: seq<Tree>)
      reads `nodes, nodes
    {
      forall i :: 1 <= i < |trees| ==> Here(trees[i])
    }

    method Mark(ghost trees: seq<Tree>, ghost low: SimTime, ghost high: SimTime)
      requires Stacked(trees) && currentParent == stackTop - 1
      modifies `stack
      ensures Stacked(trees)
      ensures Rest(trees, false, low, high) == Rest(trees, true, low, high) == old(Rest(trees, true, low, high))
    {
      stack := stack[currentParent := stack[currentParent].(tryRightBranch := true)];
      assert stack[..stackTop] == Marked(old(stack[..stackTop]));
      PendingMarked(old(stack[..stackTop]), trees, false, low, high);
      PendingMarked(old(stack[..stackTop]), trees, true, low, high);
    }

    method Push(x: Node, ghost t: Tree, ghost trees: seq<Tree>, ghost any: bool,
                ghost low: SimTime, ghost high: SimTime)
      requires Stacked(trees) && currentParent == stackTop - 1 && t.Branch? && t.node == x
      modifies `stack, `stackTop, `currentParent
      ensures stackTop == old(stackTop) + 1 && currentParent == stackTop - 1 && Stacked(trees + [t])
      ensures Rest(trees + [t], any, low, high)
           == if any then Found(t.right, low, high) + old(Rest(trees, true, low, high))
              else old(Rest(trees, false, low, high))
    {
      var entry := StackEntry(x, currentParent, false);
      if stackTop == |stack| {
        stack := stack + [entry];
      } else {
        stack := stack[stackTop := entry];
      }
      currentParent := stackTop;
      stackTop := stackTop + 1;
      assert stack[..stackTop] == old(stack[..stackTop]) + [entry];
      PendingPushed(old(stack[..stackTop]), trees, entry, t, any, low, high);
    }

    // Nothing is left below: pop entries until one asks for its right subtree.
    method Backtrack(ghost trees: seq<Tree>, low: SimTime, high: SimTime)
      returns (x: Node, ghost cur: Tree, ghost trees': seq<Tree>)
      requires Stacked(trees) && AllHere(trees)
      modifies `stack, `stackTop, `currentParent
      ensures Stacked(trees') && AllHere(trees')
      ensures x == Ref(cur) && Here(cur) && if x == nil then stackTop == 1 else currentParent == stackTop - 1
      ensures Remaining(cur, trees', low, high)
           == old(Remaining(Leaf, trees, low, high))
      ensures Work(trees') + 2 * Size(cur) <= Work(trees)
    {
      x, cur, trees' := nil, Leaf, trees;
      var run := false;
      while !run && stackTop > 1
        invariant |trees'| <= |trees| && trees' == trees[..|trees'|] && Stacked(trees') && AllHere(trees')
        invariant x == Ref(cur) && Here(cur) && run == (x != nil) && (run ==> currentParent == stackTop - 1)
        invariant Remaining(cur, trees', low, high)
               == old(Remaining(Leaf, trees, low, high))
        invariant Work(trees') + 2 * Size(cur) <= Work(trees)
        decreases !run, stackTop
      {
        x, cur, trees' := PopEntryHere(trees', low, high);
        run := x != nil;
      }
    }

    // Takes the top entry off the stack.
    method Pop(ghost trees: seq<Tree>, ghost low: SimTime, ghost high: SimTime) returns (ghost trees': seq<Tree>)
      requires Stacked(trees) && stackTop > 1
      modifies `stackTop
      ensures stackTop == old(stackTop) - 1 && trees' == trees[..stackTop] && Stacked(trees')
      ensures stackTop < |stack| && stack[stackTop].startNode == trees[stackTop].node
      ensures stack[stackTop].parentIndex == stackTop - 1
      ensures old(Rest(trees, false, low, high))
           == if stack[stackTop].tryRightBranch
              then Found(trees[stackTop].right, low, high) + Rest(trees', true, low, high)
              else Rest(trees', false, low, high)
      ensures Work(trees) == Work(trees') + 1 + 2 * Size(trees[stackTop].right)
    {
      PendingPopped(stack[..stackTop], trees, low, high);
      stackTop := stackTop - 1;
      trees' := trees[..stackTop];
      assert stack[..stackTop] == old(stack[..stackTop])[..stackTop];
    }

    lemma NothingBelow(trees: seq<Tree>, low: SimTime, high: SimTime)
      requires Stacked(trees)
      ensures Remaining(Leaf, trees, low, high) == Rest(trees, false, low, high)
    {
      assert [] + Rest(trees, false, low, high) == Rest(trees, false, low, high);
    }

    method PopEntry(ghost trees: seq<Tree>, low: SimTime, high: SimTime)
      returns (x: Node, ghost cur: Tree, ghost trees': seq<Tree>)
      requires Stacked(trees) && stackTop > 1 && Here(trees[stackTop - 1])
      modifies `stack, `stackTop, `currentParent
      ensures stackTop == old(stackTop) - 1 && trees' == trees[..stackTop] && Stacked(trees')
      ensures x == Ref(cur) && Here(cur) && (x != nil ==> currentParent == stackTop - 1)
      ensures Remaining(cur, trees', low, high)
           == old(Remaining(Leaf, trees, low, high))
      ensures Work(trees') + 2 * Size(cur) <= Work(trees)
    {
      x, cur := nil, Leaf;
      HereParts(trees[stackTop - 1]);
      NothingBelow(trees, low, high);
      trees' := Pop(trees, low, high);
      NothingBelow(trees', low, high);
      if stack[stackTop].tryRightBranch {
        cur := trees[stackTop].right;
        x := stack[stackTop].startNode.right;
        TurnRight(cur, trees', low, high);
        assert Here(cur) == old(Here(cur));
      }
    }

    method PopEntryHere(ghost trees: seq<Tree>, low: SimTime, high: SimTime)
      returns (x: Node, ghost cur: Tree, ghost trees': seq<Tree>)
      requires Stacked(trees) && stackTop > 1 && AllHere(trees)
      modifies `stack, `stackTop, `currentParent
      ensures stackTop == old(stackTop) - 1 && trees' == trees[..stackTop] && Stacked(trees') && AllHere(trees')
      ensures x == Ref(cur) && Here(cur) && (x != nil ==> currentParent == stackTop - 1)
      ensures Remaining(cur, trees', low, high) == old(Remaining(Leaf, trees, low, high))
      ensures Work(trees') + 2 * Size(cur) <= Work(trees)
    {
      x, cur, trees' := PopEntry(trees, low, high);
      assert AllHere(trees) == old(AllHere(trees));
    }

    // The right subtree of the entry above the top is looked at next.
    method TurnRight(ghost cur: Tree, ghost trees: seq<Tree>, ghost low: SimTime, ghost high: SimTime)
      requires Stacked(trees) && stackTop < |stack| && stack[stackTop].parentIndex == stackTop - 1
      modifies `stack, `currentParent
      ensures Stacked(trees) && currentParent == stackTop - 1
      ensures Remaining(cur, trees, low, high) == Found(cur, low, high) + old(Rest(trees, true, low, high))
    {
      currentParent := stack[stackTop].parentIndex;
      Mark(trees, low, high);
    }

    lemma Regrouped(a: seq<Node>, b: seq<Node>, c: seq<Node>, d: seq<Node>)
      ensures a + b + c + d == a + (b + (c + d))
      ensures a + b + [] + d == a + (b + d)
      ensures a + b + d == a + (b + d)
    {
    }

    // If x overlaps, its right subtree and that of the entry on top will be looked at.
    method Inspect(x: Node, ghost trees: seq<Tree>, low: SimTime, high: SimTime) returns (hit: bool)
      requires Stacked(trees) && currentParent == stackTop - 1
      modifies `stack
      ensures hit == Hit(x, low, high) && Stacked(trees)
      ensures Rest(trees, true, low, high) == old(Rest(trees, true, low, high))
      ensures Rest(trees, false, low, high) == old(Rest(trees, hit, low, high))
    {
      hit := Overlap(low, high, x.key, x.high);
      if hit {
        Mark(trees, low, high);
      }
    }

    // One step down: reports the node x if it overlaps, then turns left or right.
    method Visit(at: Node, ghost t: Tree, ghost trees: seq<Tree>, low: SimTime, high: SimTime)
      returns (hit: bool, x: Node, ghost cur: Tree, ghost trees': seq<Tree>)
      requires Stacked(trees) && currentParent == stackTop - 1 && at == Ref(t) && t.Branch? && Here(t)
      requires nil.maxHigh == -MAX_TIME
      modifies `stack, `stackTop, `currentParent
      ensures hit == Hit(at, low, high)
      ensures Stacked(trees') && currentParent == stackTop - 1 && x == Ref(cur) && Here(cur)
      ensures trees' == trees || trees' == trees + [t]
      ensures (if hit then [at] else []) + Remaining(cur, trees', low, high)
           == old(Remaining(t, trees, low, high))
      ensures Work(trees') + 2 * Size(cur) < Work(trees) + 2 * Size(t)
    {
      x, cur, trees' := at, t, trees;
      HereParts(t);
      hit := Inspect(x, trees, low, high);
      if x.left.maxHigh >= low {
        cur, trees' := t.left, trees + [t];
        Push(x, t, trees, Found(cur, low, high) != [], low, high);
        x := x.left;
        assert Here(cur) == old(Here(cur));
        Regrouped(if hit then [at] else [], Found(cur, low, high), Found(t.right, low, high),
                  old(Rest(trees, Found(t, low, high) != [], low, high)));
      } else {
        cur := t.right;
        x := x.right;
        assert Here(cur) == old(Here(cur));
        Regrouped(if hit then [at] else [], Found(cur, low, high), [],
                  old(Rest(trees, Found(t, low, high) != [], low, high)));
      }
    }

    // One round: a step down, or back up if nothing is left there.
    method Round(at: Node, before: seq<Interval?>, ghost t: Tree, ghost trees: seq<Tree>, ghost found: seq<Node>,
                 low: SimTime, high: SimTime)
      returns (x: Node, result: seq<Interval?>, ghost cur: Tree, ghost trees': seq<Tree>, ghost out: seq<Node>)
      requires Stacked(trees) && currentParent == stackTop - 1 && at == Ref(t) && t.Branch? && nil.maxHigh == -MAX_TIME
      requires Here(t) && AllHere(trees) && before == Intervals(found)
      modifies `stack, `stackTop, `currentParent
      ensures Stacked(trees') && x == Ref(cur) && if x == nil then stackTop == 1 else currentParent == stackTop - 1
      ensures Here(cur) && AllHere(trees')
      ensures out + Remaining(cur, trees', low, high) == found + old(Remaining(t, trees, low, high))
      ensures result == Intervals(out)
      ensures Work(trees') + 2 * Size(cur) < Work(trees) + 2 * Size(t)
    {
      x, result, cur, trees', out := Step(at, before, t, trees, found, low, high);
      if x == nil {
        x, cur, trees' := Backtrack(trees', low, high);
      }
    }

    // All intervals that overlap [low, high], as found by the pruned search; the stack is empty again.
    method Query(low: SimTime, high: SimTime) returns (result: seq<Interval?>)
      requires Valid()
      modifies `stack, `stackTop, `currentParent
      ensures Valid() && result == Intervals(Found(tree, low, high))
    {
      result := Walk(low, high);
      assert Focus(Top, tree) == old(Focus(Top, tree));
    }

    method Walk(low: SimTime, high: SimTime) returns (result: seq<Interval?>)
      requires Valid()
      modifies `stack, `stackTop, `currentParent
      ensures stackTop == 1 && 1 <= |stack| && result == Intervals(Found(tree, low, high))
    {
      result := [];
      var x := root.left;
      var run := x != nil;
      currentParent := 0;
      ghost var cur, trees, out := tree, [Leaf], [];
      ghost var all := Found(tree, low, high);
      WholeIsHere();
      while run
        invariant nodes == old(nodes) && Stacked(trees) && run == (x != nil) && x == Ref(cur)
        invariant if run then currentParent == stackTop - 1 else stackTop == 1
        invariant Here(cur) && AllHere(trees)
        invariant all == out + Remaining(cur, trees, low, high)
        invariant result == Intervals(out)
        decreases run, Work(trees) + 2 * Size(cur)
      {
        x, result, cur, trees, out := Round(x, result, cur, trees, out, low, high);
        run := x != nil;
      }
    }

    lemma WholeIsHere()
      requires Valid()
      ensures Here(tree)
    {
      assert Holds(tree, root);
    }

    // Visits a node and reports it if it overlaps.
    method Step(at: Node, before: seq<Interval?>, ghost t: Tree, ghost trees: seq<Tree>, ghost found: seq<Node>,
                low: SimTime, high: SimTime)
      returns (x: Node, result: seq<Interval?>, ghost cur: Tree, ghost trees': seq<Tree>, ghost out: seq<Node>)
      requires Stacked(trees) && currentParent == stackTop - 1 && at == Ref(t) && t.Branch? && nil.maxHigh == -MAX_TIME
      requires Here(t) && AllHere(trees) && before == Intervals(found)
      modifies `stack, `stackTop, `currentParent
      ensures Stacked(trees') && currentParent == stackTop - 1 && x == Ref(cur)
      ensures Here(cur) && AllHere(trees')
      ensures out + Remaining(cur, trees', low, high) == found + old(Remaining(t, trees, low, high))
      ensures result == Intervals(out)
      ensures Work(trees') + 2 * Size(cur) < Work(trees) + 2 * Size(t)
    {
      var hit;
      hit, x, cur, trees' := Visit(at, t, trees, low, high);
      assert Here(t) == old(Here(t)) && AllHere(trees) == old(AllHere(trees));
      Reported(found, at, Remaining(cur, trees', low, high));
      result := if hit then before + [at.interval] else before;
      out := if hit then found + [at] else found;
    }

    lemma Reported(found: seq<Node>, at: Node, rest: seq<Node>)
      ensures (found + [at]) + rest == found + ([at] + rest) && [] + rest == rest
      ensures Intervals(found + [at]) == Intervals(found) + [at.interval]
    {
    }

    // With every stored interval running forwards and low above the smallest time, a query reports
    // each stored node that overlaps exactly once and nothing else: each whose interval has a time
    // in common with the query, if that runs forwards too.
    lemma QueryAnswer(low: SimTime, high: SimTime)
      requires Valid() && WellFormed(tree) && low > -MAX_TIME
      ensures Found(tree, low, high) == Overlapping(PreOrder(tree), low, high)
      ensures forall n: Node ::
        multiset(Found(tree, low, high))[n] == if n in nodes && Hit(n, low, high) then 1 else 0
      ensures low <= high ==> forall n :: n in nodes ==> (Hit(n, low, high) <==> SharesTime(n, low, high))
    {
      InOrderNodes(tree);
      forall n | low <= high && n in nodes
        ensures Hit(n, low, high) <==> SharesTime(n, low, high)
      {
        OverlapIsSharedTime(n, low, high);
      }
      FoundExactly(tree, low, high);
      forall n: Node ensures multiset(Found(tree, low, high))[n] == if n in nodes && Hit(n, low, high) then 1 else 0 {
        EachOnce(tree, n, low, high);
      }
    }

    // The height is at most twice the logarithm of the number of nodes plus one.
    lemma HeightIsLogarithmic()
      requires Valid()
      ensures Pow2(tree.Height()) <= (|nodes| + 1) * (|nodes| + 1)
    {
      HeightBound(tree);
      InOrderSize(tree);
    }
  }
}

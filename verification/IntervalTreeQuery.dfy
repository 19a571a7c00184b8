/** What a query finds, step by step of its walk over the tree. */
module IntervalTreeQueries {
  import opened IntervalTreeShapes

  predicate Overlap(a1: SimTime, a2: SimTime, b1: SimTime, b2: SimTime) {
    if a1 <= b1 then b1 <= a2 else a1 <= b2
  }

  predicate Hit(n: Node, low: SimTime, high: SimTime) {
    Overlap(low, high, n.key, n.high)
  }

  predicate IsDuring(t: int, begin: int, end: int) {
    begin <= t <= end
  }

  // Some time belongs to the query and to the interval of the node, ends included.
  ghost predicate SharesTime(n: Node, low: SimTime, high: SimTime) {
    exists t :: IsDuring(t, low, high) && IsDuring(t, n.key, n.high)
  }

  // For intervals that run forwards, an overlap is a time in common.
  lemma OverlapIsSharedTime(n: Node, low: SimTime, high: SimTime)
    requires low <= high && n.key <= n.high
    ensures Hit(n, low, high) <==> SharesTime(n, low, high)
  {
    var t := if low <= n.key then n.key else low;
    assert Hit(n, low, high) ==> IsDuring(t, low, high) && IsDuring(t, n.key, n.high);
  }

  function PreOrder(t: Tree): seq<Node> {
    if t.Leaf? then [] else [t.node] + PreOrder(t.left) + PreOrder(t.right)
  }

  // The naive answer: keep the nodes whose interval overlaps [low, high].
  function Overlapping(s: seq<Node>, low: SimTime, high: SimTime): seq<Node> {
    if s == [] then []
    else (if Hit(s[0], low, high) then [s[0]] else []) + Overlapping(s[1..], low, high)
  }

  // What the pruned search finds: the right subtree is skipped if the left one was searched in vain.
  function Found(t: Tree, low: SimTime, high: SimTime): seq<Node> {
    if t.Leaf? then []
    else
      var here := if Hit(t.node, low, high) then [t.node] else [];
      if t.left.Peak() >= low then
        var left := Found(t.left, low, high);
        here + left + if left != [] then Found(t.right, low, high) else []
      else
        here + Found(t.right, low, high)
  }

  // ---------- the naive answer ----------

  lemma {:induction false} OverlappingConcat(a: seq<Node>, b: seq<Node>, low: SimTime, high: SimTime)
    ensures Overlapping(a + b, low, high) == Overlapping(a, low, high) + Overlapping(b, low, high)
  {
    if a == [] {
      assert a + b == b;
    } else {
      OverlappingConcat(a[1..], b, low, high);
      assert (a + b)[0] == a[0] && (a + b)[1..] == a[1..] + b;
      var first := if Hit(a[0], low, high) then [a[0]] else [];
      assert first + (Overlapping(a[1..], low, high) + Overlapping(b, low, high))
          == (first + Overlapping(a[1..], low, high)) + Overlapping(b, low, high);
    }
  }

  lemma {:induction false} OverlappingAt(t: Tree, low: SimTime, high: SimTime)
    requires t.Branch?
    ensures Overlapping(PreOrder(t), low, high)
         == (if Hit(t.node, low, high) then [t.node] else [])
            + Overlapping(PreOrder(t.left), low, high) + Overlapping(PreOrder(t.right), low, high)
  {
    var l, r := PreOrder(t.left), PreOrder(t.right);
    OverlappingConcat([t.node], l + r, low, high);
    OverlappingConcat(l, r, low, high);
    assert [t.node] + l + r == [t.node] + (l + r);
    assert [t.node][1..] == [];
  }

  lemma {:induction false} NothingOverlaps(s: seq<Node>, low: SimTime, high: SimTime)
    ensures Overlapping(s, low, high) == [] <==> forall n :: n in s ==> !Hit(n, low, high)
  {
    if s != [] {
      NothingOverlaps(s[1..], low, high);
    }
  }

  lemma {:induction false} PreOrderIsPermutation(t: Tree)
    ensures multiset(PreOrder(t)) == multiset(t.InOrder())
  {
    if t.Branch? {
      PreOrderIsPermutation(t.left);
      PreOrderIsPermutation(t.right);
    }
  }

  lemma SameNodes(t: Tree, n: Node)
    ensures n in PreOrder(t) <==> n in t.InOrder()
  {
    PreOrderIsPermutation(t);
    assert n in PreOrder(t) <==> n in multiset(PreOrder(t));
    assert n in t.InOrder() <==> n in multiset(t.InOrder());
  }

  lemma {:induction false} OverlappingCounts(s: seq<Node>, n: Node, low: SimTime, high: SimTime)
    ensures multiset(Overlapping(s, low, high))[n] == if Hit(n, low, high) then multiset(s)[n] else 0
  {
    if s != [] {
      OverlappingCounts(s[1..], n, low, high);
      assert s == [s[0]] + s[1..];
    }
  }

  // ---------- max_high is exact ----------

  predicate WellFormed(t: Tree) {
    forall n :: n in t.InOrder() ==> n.key <= n.high
  }

  lemma {:induction false} PeakBounds(t: Tree)
    requires t.MaxOk()
    ensures forall n :: n in t.InOrder() ==> n.high <= t.Peak()
  {
    if t.Branch? {
      PeakBounds(t.left);
      PeakBounds(t.right);
    }
  }

  lemma {:induction false} PeakAttained(t: Tree) returns (n: Node)
    requires t.MaxOk() && t.Branch?
    ensures n in t.InOrder() && n.high == t.maxHigh
  {
    if t.maxHigh == t.node.high {
      n := t.node;
    } else if t.left.Branch? && t.maxHigh == t.left.maxHigh {
      n := PeakAttained(t.left);
    } else {
      n := PeakAttained(t.right);
    }
  }

  // ---------- the pruned search against the naive one ----------

  ghost predicate Searchable(t: Tree) {
    t.MaxOk() && Sorted(t.InOrder()) && WellFormed(t)
  }

  lemma SearchableParts(t: Tree)
    requires t.Branch? && Searchable(t)
    ensures Searchable(t.left) && Searchable(t.right) && t.node.key <= t.node.high
    ensures forall n :: n in t.left.InOrder() ==> n.key <= t.node.key
    ensures forall n :: n in t.right.InOrder() ==> t.node.key <= n.key
  {
    SortedParts(t);
  }

  // If some interval on the left reaches up to low and still nothing there overlaps, then the
  // intervals on the right begin too late.
  lemma {:induction false} VainLeft(t: Tree, low: SimTime, high: SimTime)
    requires t.Branch? && t.left.Branch? && Searchable(t) && t.left.maxHigh >= low
    requires Overlapping(PreOrder(t.left), low, high) == []
    ensures Overlapping(PreOrder(t.right), low, high) == []
  {
    SearchableParts(t);
    NothingOverlaps(PreOrder(t.left), low, high);
    NothingOverlaps(PreOrder(t.right), low, high);
    var reaching := PeakAttained(t.left);
    SameNodes(t.left, reaching);
    assert !Hit(reaching, low, high) && reaching.key <= t.node.key;
    forall n | n in PreOrder(t.right) ensures !Hit(n, low, high) {
      SameNodes(t.right, n);
      assert n in t.right.InOrder() && reaching.key <= n.key;
    }
  }

  lemma {:induction false} LowLeft(t: Tree, low: SimTime, high: SimTime)
    requires Searchable(t) && t.Peak() < low
    ensures Overlapping(PreOrder(t), low, high) == []
  {
    PeakBounds(t);
    NothingOverlaps(PreOrder(t), low, high);
    forall n | n in PreOrder(t) ensures !Hit(n, low, high) {
      SameNodes(t, n);
      assert n in t.InOrder() && n.key <= n.high < low;
    }
  }

  // The one case in which the pruning is wrong: low is the smallest time, the max_high of nil reaches
  // it, and what overlaps hangs right of a node without a left child.
  predicate Complete(t: Tree, low: SimTime, high: SimTime) {
    low > -MAX_TIME ||
    (t.Branch? ==>
       && (t.left.Leaf? ==> Overlapping(PreOrder(t.right), low, high) == [])
       && Complete(t.left, low, high) && Complete(t.right, low, high))
  }

  lemma {:induction false} FoundIsSubsequence(t: Tree, low: SimTime, high: SimTime)
    ensures |Found(t, low, high)| <= |Overlapping(PreOrder(t), low, high)|
    ensures multiset(Found(t, low, high)) <= multiset(Overlapping(PreOrder(t), low, high))
  {
    if t.Branch? {
      FoundIsSubsequence(t.left, low, high);
      FoundIsSubsequence(t.right, low, high);
      OverlappingAt(t, low, high);
      var a := if Hit(t.node, low, high) then [t.node] else [];
      var l, r := FoundPieces(t, low, high);
      MorePieces(a, l, r, Overlapping(PreOrder(t.left), low, high), Overlapping(PreOrder(t.right), low, high));
    }
  }

  lemma FoundPieces(t: Tree, low: SimTime, high: SimTime) returns (l: seq<Node>, r: seq<Node>)
    requires t.Branch?
    ensures Found(t, low, high) == (if Hit(t.node, low, high) then [t.node] else []) + l + r
    ensures (l == Found(t.left, low, high) || l == []) && (r == Found(t.right, low, high) || r == [])
  {
    l := if t.left.Peak() < low then [] else Found(t.left, low, high);
    r := if t.left.Peak() < low || l != []
            || Found(t, low, high) != (if Hit(t.node, low, high) then [t.node] else []) + l
         then Found(t.right, low, high) else [];
  }

  lemma MorePieces(a: seq<Node>, l: seq<Node>, r: seq<Node>, l': seq<Node>, r': seq<Node>)
    requires |l| <= |l'| && |r| <= |r'| && multiset(l) <= multiset(l') && multiset(r) <= multiset(r')
    ensures |a + l + r| <= |a + l' + r'| && multiset(a + l + r) <= multiset(a + l' + r')
  {
  }

  lemma SamePieces(a: seq<Node>, l: seq<Node>, r: seq<Node>, l': seq<Node>, r': seq<Node>)
    requires |l| <= |l'| && |r| <= |r'|
    ensures a + l + r == a + l' + r' <==> l == l' && r == r'
  {
    var s, s' := a + l + r, a + l' + r';
    if s == s' {
      assert l == s[|a|..|a| + |l|] && l' == s'[|a|..|a| + |l'|];
      assert r == s[|a| + |l|..] && r' == s'[|a| + |l'|..];
    }
  }

  ghost predicate Exactly(t: Tree, low: SimTime, high: SimTime) {
    Found(t, low, high) == Overlapping(PreOrder(t), low, high) <==> Complete(t, low, high)
  }

  lemma {:induction false} FoundWithoutLeft(t: Tree, low: SimTime, high: SimTime)
    requires t.Branch? && Searchable(t.left) && t.left.Peak() < low && Exactly(t.right, low, high)
    ensures Exactly(t, low, high)
  {
    OverlappingAt(t, low, high);
    LowLeft(t.left, low, high);
    var a := if Hit(t.node, low, high) then [t.node] else [];
    FoundIsSubsequence(t.right, low, high);
    assert Found(t, low, high) == a + [] + Found(t.right, low, high);
    SamePieces(a, [], Found(t.right, low, high), [], Overlapping(PreOrder(t.right), low, high));
  }

  lemma {:induction false} FoundVainly(t: Tree, low: SimTime, high: SimTime)
    requires t.Branch? && Searchable(t) && t.left.Peak() >= low && Found(t.left, low, high) == []
    requires Exactly(t.left, low, high) && Exactly(t.right, low, high)
    ensures Exactly(t, low, high)
  {
    OverlappingAt(t, low, high);
    FoundIsSubsequence(t.right, low, high);
    var l', r' := Overlapping(PreOrder(t.left), low, high), Overlapping(PreOrder(t.right), low, high);
    if t.left.Branch? && l' == [] {
      VainLeft(t, low, high);
    }
    SamePieces(if Hit(t.node, low, high) then [t.node] else [], [], [], l', r');
  }

  lemma {:induction false} FoundBoth(t: Tree, low: SimTime, high: SimTime)
    requires t.Branch? && t.left.Peak() >= low && Found(t.left, low, high) != []
    requires Exactly(t.left, low, high) && Exactly(t.right, low, high)
    ensures Exactly(t, low, high)
  {
    OverlappingAt(t, low, high);
    FoundIsSubsequence(t.left, low, high);
    FoundIsSubsequence(t.right, low, high);
    SamePieces(if Hit(t.node, low, high) then [t.node] else [],
               Found(t.left, low, high), Found(t.right, low, high),
               Overlapping(PreOrder(t.left), low, high), Overlapping(PreOrder(t.right), low, high));
  }

  // The pruned search gives the naive answer exactly when Complete holds, in particular for every
  // low above the smallest time.
  lemma {:induction false} FoundExactly(t: Tree, low: SimTime, high: SimTime)
    requires Searchable(t)
    ensures Found(t, low, high) == Overlapping(PreOrder(t), low, high) <==> Complete(t, low, high)
  {
    if t.Branch? {
      SearchableParts(t);
      FoundExactly(t.left, low, high);
      FoundExactly(t.right, low, high);
      if t.left.Peak() < low {
        FoundWithoutLeft(t, low, high);
      } else if Found(t.left, low, high) == [] {
        FoundVainly(t, low, high);
      } else {
        FoundBoth(t, low, high);
      }
    }
  }

  lemma {:induction false} EachOnce(t: Tree, n: Node, low: SimTime, high: SimTime)
    requires t.Distinct()
    ensures multiset(Overlapping(PreOrder(t), low, high))[n]
         == if n in t.Nodes() && Hit(n, low, high) then 1 else 0
  {
    OverlappingCounts(PreOrder(t), n, low, high);
    PreOrderIsPermutation(t);
    DistinctOrder(t, n);
  }

  lemma {:induction false} DistinctOrder(t: Tree, n: Node)
    requires t.Distinct()
    ensures multiset(t.InOrder())[n] == if n in t.Nodes() then 1 else 0
  {
    if t.Branch? {
      DistinctOrder(t.left, n);
      DistinctOrder(t.right, n);
    }
  }

  function TwoNodes(a: Node, b: Node): Tree {
    Branch(Leaf, a, false, MaxOf(a, Leaf, NewLeaf(b, true)), NewLeaf(b, true))
  }

  // With the smallest time as the low end, a well-formed red-black tree can lose an answer: below a
  // black node without a left child the right child is not looked at.
  lemma LostAtMinimum(a: Node, b: Node, high: SimTime)
    requires Stores(a) && Stores(b) && a.key <= b.key <= high && a.key <= a.high && b.key <= b.high
    ensures Searchable(TwoNodes(a, b)) && Fine(TwoNodes(a, b)) && Hit(b, -MAX_TIME, high)
    ensures Found(TwoNodes(a, b), -MAX_TIME, high) == [a]
    ensures !Complete(TwoNodes(a, b), -MAX_TIME, high)
  {
    assert NewLeaf(b, true).MaxOk();
    assert NewLeaf(b, true).InOrder() == [] + [b] + [] == [b];
    assert TwoNodes(a, b).InOrder() == [] + [a] + [b] == [a, b];
    assert Found(Leaf, -MAX_TIME, high) == [];
    FoundExactly(TwoNodes(a, b), -MAX_TIME, high);
    OverlappingAt(NewLeaf(b, true), -MAX_TIME, high);
  }

  // ---------- the explicit stack of the iterative search ----------

  // Where a query has turned left and may have to come back for the right subtree. Entry 0 is a dummy.
  datatype StackEntry = StackEntry(startNode: Node?, parentIndex: nat, tryRightBranch: bool)

  function Size(t: Tree): nat {
    if t.Leaf? then 0 else Size(t.left) + 1 + Size(t.right)
  }

  // What is still to be reported once the current subtree has been searched; `any` says whether
  // something was found in it, and trees[i] is the subtree at the start node of entry i.
  function Pending(entries: seq<StackEntry>, trees: seq<Tree>, any: bool, low: SimTime, high: SimTime): seq<Node>
    requires |entries| == |trees|
  {
    if |entries| <= 1 then []
    else
      var last := |entries| - 1;
      if entries[last].tryRightBranch || any then
        (if trees[last].Leaf? then [] else Found(trees[last].right, low, high))
        + Pending(entries[..last], trees[..last], true, low, high)
      else
        Pending(entries[..last], trees[..last], false, low, high)
  }

  // The work left in the right subtrees of the stacked nodes.
  function Work(trees: seq<Tree>): nat {
    if |trees| <= 1 then 0
    else
      var last := |trees| - 1;
      Work(trees[..last]) + 1 + if trees[last].Leaf? then 0 else 2 * Size(trees[last].right)
  }

  function Marked(entries: seq<StackEntry>): seq<StackEntry>
    requires entries != []
  {
    var last := |entries| - 1;
    entries[last := entries[last].(tryRightBranch := true)]
  }

  lemma {:induction false} PendingMarked(entries: seq<StackEntry>, trees: seq<Tree>, any: bool,
                                        low: SimTime, high: SimTime)
    requires |entries| == |trees| && entries != []
    ensures Pending(Marked(entries), trees, any, low, high) == Pending(entries, trees, true, low, high)
  {
    var last := |entries| - 1;
    assert Marked(entries)[..last] == entries[..last];
  }

  lemma {:induction false} PendingPopped(entries: seq<StackEntry>, trees: seq<Tree>, low: SimTime, high: SimTime)
    requires |entries| == |trees| > 1 && trees[|trees| - 1].Branch?
    ensures var last := |entries| - 1;
      && Pending(entries, trees, false, low, high)
         == (if entries[last].tryRightBranch
             then Found(trees[last].right, low, high) + Pending(entries[..last], trees[..last], true, low, high)
             else Pending(entries[..last], trees[..last], false, low, high))
      && Work(trees) == Work(trees[..last]) + 1 + 2 * Size(trees[last].right)
  {
  }

  lemma {:induction false} PendingPushed(entries: seq<StackEntry>, trees: seq<Tree>, e: StackEntry, t: Tree,
                                        any: bool, low: SimTime, high: SimTime)
    requires |entries| == |trees| && entries != [] && t.Branch?
    ensures Pending(entries + [e], trees + [t], any, low, high)
         == (if e.tryRightBranch || any then Found(t.right, low, high) + Pending(entries, trees, true, low, high)
             else Pending(entries, trees, false, low, high))
    ensures Work(trees + [t]) == Work(trees) + 1 + 2 * Size(t.right)
  {
    assert (entries + [e])[..|entries|] == entries && (trees + [t])[..|trees|] == trees;
  }

  function Intervals(s: seq<Node>): seq<Interval?> {
    seq(|s|, i requires 0 <= i < |s| => s[i].interval)
  }
}

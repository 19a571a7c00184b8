/** The hierarchy of states of a state machine. */
module MachoStates {

  datatype HistoryKind = NoHistory | Shallow | Deep

  // A state in a machine. The root state alone has no parent.
  class StateInstance {
    const parent: StateInstance?
    ghost const chain: seq<StateInstance> // the superstates, from the root down to the parent
    const kind: HistoryKind
    const ownBox: bool
    const persistent: bool
    var history: StateInstance?
    var box: bool // there is a box

    constructor (parent: StateInstance?, kind: HistoryKind, ownBox: bool, persistent: bool)
      requires parent != null ==> parent.WellFormed()
      ensures this.parent == parent && this.kind == kind && this.ownBox == ownBox && this.persistent == persistent
      ensures WellFormed() && history == null && !box
    {
      this.parent, this.kind, this.ownBox, this.persistent := parent, kind, ownBox, persistent;
      this.chain := if parent == null then [] else parent.chain + [parent];
      history, box := null, false;
    }

    ghost predicate WellFormed()
      decreases |chain|
    {
      if parent == null then chain == []
      else |parent.chain| < |chain| && chain == parent.chain + [parent] && parent.WellFormed()
    }

    // Is `instance` this state or a superstate of it?
    predicate IsChild(instance: StateInstance)
      requires WellFormed()
      ensures IsChild(instance) <==> this == instance || instance in chain
      decreases |chain|
    {
      this == instance || (parent != null && parent.IsChild(instance))
    }

    // The states entered when this state is the current one: all but the root.
    ghost function Path(): seq<StateInstance>
      requires WellFormed()
      decreases |chain|
    {
      if parent == null then [] else parent.Path() + [this]
    }
  }

  lemma {:induction false} DepthOfSuperstate(s: StateInstance, a: StateInstance)
    requires s.WellFormed() && a in s.chain
    ensures |a.chain| < |s.chain| && a.WellFormed() && s.chain[|a.chain|] == a
    decreases |s.chain|
  {
    if a != s.parent {
      DepthOfSuperstate(s.parent, a);
    }
  }

  lemma NotInOwnChain(s: StateInstance)
    requires s.WellFormed()
    ensures s !in s.chain
  {
    if s in s.chain {
      DepthOfSuperstate(s, s);
    }
  }

  // s is a or below it.
  ghost predicate Under(s: StateInstance, a: StateInstance) {
    s == a || a in s.chain
  }

  ghost function Root(s: StateInstance): StateInstance
    requires s.WellFormed()
    decreases |s.chain|
  {
    if s.parent == null then s else Root(s.parent)
  }

  lemma {:induction false} RootAbove(s: StateInstance)
    requires s.WellFormed()
    ensures Under(s, Root(s)) && Root(s).parent == null && Root(s).chain == []
    decreases |s.chain|
  {
    if s.parent != null {
      RootAbove(s.parent);
    }
  }

  // Where the exits from prev end on the way to next: the first state that is a proper superstate of next.
  ghost function ExitsTo(prev: StateInstance, next: StateInstance): StateInstance
    requires prev.WellFormed() && next.WellFormed()
    decreases |prev.chain|
  {
    if prev.parent == null || (prev != next && next.IsChild(prev)) then prev else ExitsTo(prev.parent, next)
  }

  // Where the entries start from: the first state from a upward that is prev or a superstate of it.
  ghost function EntersFrom(a: StateInstance, prev: StateInstance): StateInstance
    requires a.WellFormed() && prev.WellFormed()
    decreases |a.chain|
  {
    if a.parent == null || prev.IsChild(a) then a else EntersFrom(a.parent, prev)
  }

  lemma {:induction false} ExitsToFacts(prev: StateInstance, next: StateInstance)
    requires prev.WellFormed() && next.WellFormed() && Root(prev) == Root(next) && next.parent != null
    ensures ExitsTo(prev, next).WellFormed() && Under(prev, ExitsTo(prev, next)) && ExitsTo(prev, next) in next.chain
    ensures forall b :: Under(prev, b) && b in next.chain ==> |b.chain| <= |ExitsTo(prev, next).chain|
    decreases |prev.chain|
  {
    RootAbove(next);
    if prev.parent == null || (prev != next && next.IsChild(prev)) {
      forall b | Under(prev, b) && b in next.chain
        ensures |b.chain| <= |prev.chain|
      {
        if b in prev.chain {
          DepthOfSuperstate(prev, b);
        }
      }
    } else {
      ExitsToFacts(prev.parent, next);
      NotInOwnChain(next);
    }
  }

  lemma {:induction false} EntersFromFacts(a: StateInstance, prev: StateInstance)
    requires a.WellFormed() && prev.WellFormed() && Root(a) == Root(prev)
    ensures EntersFrom(a, prev).WellFormed() && Under(a, EntersFrom(a, prev)) && Under(prev, EntersFrom(a, prev))
    ensures forall b :: Under(prev, b) && Under(a, b) ==> |b.chain| <= |EntersFrom(a, prev).chain|
    decreases |a.chain|
  {
    RootAbove(prev);
    if a.parent == null || prev.IsChild(a) {
      forall b | Under(prev, b) && Under(a, b)
        ensures |b.chain| <= |a.chain|
      {
        if b in a.chain {
          DepthOfSuperstate(a, b);
        }
      }
    } else {
      EntersFromFacts(a.parent, prev);
    }
  }

  // The exits end where the entries start: at the deepest state above next that contains both.
  lemma ExitsMeetEntries(prev: StateInstance, next: StateInstance)
    requires prev.WellFormed() && next.WellFormed() && Root(prev) == Root(next) && next.parent != null
    ensures ExitsTo(prev, next) == EntersFrom(next.parent, prev)
  {
    ExitsToFacts(prev, next);
    EntersFromFacts(next.parent, prev);
    var a, b := ExitsTo(prev, next), EntersFrom(next.parent, prev);
    assert b in next.chain;
    DepthOfSuperstate(next, a);
    DepthOfSuperstate(next, b);
  }

  // On the way to the root everything is exited.
  lemma {:induction false} ExitsToRoot(prev: StateInstance, root: StateInstance)
    requires prev.WellFormed() && root.WellFormed() && root.parent == null && Root(prev) == root
    ensures ExitsTo(prev, root) == root
    decreases |prev.chain|
  {
    if prev.parent != null {
      ExitsToRoot(prev.parent, root);
    }
  }
}

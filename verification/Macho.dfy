/** A hierarchical state machine: transitions, boxes, histories and the run-to-completion loop. */
module Machos {
  import opened MachoStates
  import opened Wrappers

  // A call of user code.
  datatype Call = Entry(state: StateInstance) | Exit(state: StateInstance) | Init(state: StateInstance)
                | Handler(state: StateInstance)

  // The transition that user code asks for, perhaps to the history of the target.
  datatype Request = Stay | Go(target: StateInstance, toHistory: bool)

  // What an event handler asks for: a transition, and an event to handle after it.
  datatype Reaction = Reaction(request: Request, event: Option<Event>)

  type Event = nat

  // What a run has come to: the current state, the calls of user code, and what was left and initialised.
  datatype Situation = Situation(current: StateInstance, calls: seq<Call>, past: seq<Mark>)

  // A situation with no transition pending, and the event that is.
  datatype Stop = Stop(at: Situation, event: Option<Event>)

  // ---------- nesting of calls ----------

  // s is the innermost of the entered states; the root, which is not entered, if there is none.
  ghost predicate IsInnermost(s: StateInstance, entered: seq<StateInstance>) {
    if entered == [] then s.parent == null else entered[|entered| - 1] == s
  }

  // The states entered and not exited, innermost last, if every entry is to a direct substate of the innermost
  // state and every other call concerns the innermost state itself.
  ghost function Replay(calls: seq<Call>): Option<seq<StateInstance>> {
    if calls == [] then Some([])
    else
      var before, call := Replay(calls[..|calls| - 1]), calls[|calls| - 1];
      if before == None then None
      else
        match call
        case Entry(s) =>
          if s.parent != null && IsInnermost(s.parent, before.value) then Some(before.value + [s]) else None
        case Exit(s) =>
          if before.value != [] && IsInnermost(s, before.value) then Some(before.value[..|before.value| - 1]) else None
        case _ => if IsInnermost(call.state, before.value) then before else None
  }

  lemma ReplayMore(calls: seq<Call>, call: Call)
    ensures (calls + [call])[..|calls|] == calls && (calls + [call])[|calls|] == call
  {
  }

  lemma PathEnds(s: StateInstance)
    requires s.WellFormed()
    ensures IsInnermost(s, s.Path())
    ensures s.parent != null ==> s.Path() != [] && s.Path()[..|s.Path()| - 1] == s.parent.Path()
  {
  }

  lemma {:induction false} PathIs(s: StateInstance, a: StateInstance)
    requires s.WellFormed() && a.WellFormed()
    ensures a in s.Path() <==> a.parent != null && Under(s, a)
    decreases |s.chain|
  {
    if s.parent != null {
      PathIs(s.parent, a);
    } else if Under(s, a) {
      assert a == s;
    }
  }

  // A state that is entered has been.
  lemma {:induction false} EnteredOnce(calls: seq<Call>, s: StateInstance)
    requires Replay(calls).Some? && s in Replay(calls).value
    ensures Entry(s) in calls
  {
    var n := |calls| - 1;
    if calls[n] != Entry(s) {
      EnteredOnce(calls[..n], s);
    }
  }

  // ---------- histories ----------

  // What histories depend on: a state was left; a state was initialised; a history was cleared, or with it those
  // of all substates.
  datatype Mark = Left(state: StateInstance) | Initialized(state: StateInstance) | Cleared(state: StateInstance)
                | ClearedDeep(state: StateInstance)

  // The direct substate of a on the way down to s.
  ghost function Toward(a: StateInstance, s: StateInstance): StateInstance
    requires s.WellFormed() && a in s.chain
    decreases |s.chain|
  {
    if s.parent == a then s else Toward(a, s.parent)
  }

  lemma {:induction false} TowardFacts(a: StateInstance, s: StateInstance)
    requires s.WellFormed() && a in s.chain
    ensures Toward(a, s).parent == a && Under(s, Toward(a, s))
    decreases |s.chain|
  {
    if s.parent != a {
      TowardFacts(a, s.parent);
    }
  }

  // The history a state keeps when s is left below it.
  ghost function Kept(a: StateInstance, s: StateInstance, before: StateInstance?): StateInstance?
    requires s.WellFormed()
  {
    if a !in s.chain || a.kind == NoHistory then before
    else if a.kind == Shallow then Toward(a, s)
    else s
  }

  ghost predicate AllWellFormed(past: seq<Mark>) {
    forall i :: 0 <= i < |past| ==> past[i].state.WellFormed()
  }

  // The history of a: what was left last below it since it was last initialised or cleared.
  ghost function HistoryOf(past: seq<Mark>, a: StateInstance): StateInstance?
    requires AllWellFormed(past)
  {
    if past == [] then null
    else
      var before := HistoryOf(past[..|past| - 1], a);
      match past[|past| - 1]
      case Left(s) => Kept(a, s, before)
      case Initialized(s) => if s == a then null else before
      case Cleared(s) => if s == a then null else before
      case ClearedDeep(s) => if Under(a, s) then null else before
  }

  lemma HistoryMore(past: seq<Mark>, mark: Mark)
    requires AllWellFormed(past) && mark.state.WellFormed()
    ensures AllWellFormed(past + [mark])
    ensures (past + [mark])[..|past|] == past && (past + [mark])[|past|] == mark
  {
  }

  lemma HistoryLeft(past: seq<Mark>, s: StateInstance, a: StateInstance)
    requires AllWellFormed(past) && s.WellFormed()
    ensures AllWellFormed(past + [Left(s)]) && HistoryOf(past + [Left(s)], a) == Kept(a, s, HistoryOf(past, a))
  {
    HistoryMore(past, Left(s));
  }

  // A history is a proper substate, a direct one where the state keeps a shallow history.
  lemma {:induction false} HistoryIsBelow(past: seq<Mark>, a: StateInstance)
    requires AllWellFormed(past)
    ensures var h := HistoryOf(past, a);
      h != null ==> a in h.chain && a.kind != NoHistory && (a.kind == Shallow ==> h.parent == a)
    decreases |past|
  {
    if past != [] {
      var front, mark := past[..|past| - 1], past[|past| - 1];
      HistoryIsBelow(front, a);
      if mark.Left? && a in mark.state.chain {
        TowardFacts(a, mark.state);
        DepthOfSuperstate(mark.state, a);
        BelowToward(a, mark.state);
      }
    }
  }

  lemma {:induction false} BelowToward(a: StateInstance, s: StateInstance)
    requires s.WellFormed() && a in s.chain
    ensures Toward(a, s).WellFormed() && a in Toward(a, s).chain
    decreases |s.chain|
  {
    if s.parent != a {
      BelowToward(a, s.parent);
    }
  }

  // Leaving s below a keeps exactly s as a's deep history, whatever is left elsewhere afterwards.
  lemma {:induction false} LeftLastBelow(past: seq<Mark>, s: StateInstance, a: StateInstance, later: seq<Mark>)
    requires AllWellFormed(past) && AllWellFormed(later) && s.WellFormed() && a in s.chain && a.kind != NoHistory
    requires forall m :: m in later ==>
      if m.Left? then a !in m.state.chain else if m.ClearedDeep? then !Under(a, m.state) else m.state != a
    ensures AllWellFormed(past + [Left(s)] + later)
    ensures HistoryOf(past + [Left(s)] + later, a) == if a.kind == Deep then s else Toward(a, s)
    decreases |later|
  {
    if later == [] {
      HistoryLeft(past, s, a);
      assert past + [Left(s)] + later == past + [Left(s)];
    } else {
      var n := |later| - 1;
      var mark := later[n];
      assert mark in later;
      LeftLastBelow(past, s, a, later[..n]);
      assert past + [Left(s)] + later == (past + [Left(s)] + later[..n]) + [mark];
      HistoryMore(past + [Left(s)] + later[..n], mark);
    }
  }

  // ---------- the calls of a transition ----------

  // Exits from s up to `stop`, which is not exited; entries from `start`, which is not entered, down to s.
  ghost function ExitCalls(s: StateInstance, stop: StateInstance): seq<Call>
    requires s.WellFormed()
    decreases |s.chain|
  {
    if s == stop || s.parent == null then [] else [Exit(s)] + ExitCalls(s.parent, stop)
  }

  ghost function EntryCalls(start: StateInstance, s: StateInstance): seq<Call>
    requires s.WellFormed()
    decreases |s.chain|
  {
    if s == start || s.parent == null then [] else EntryCalls(start, s.parent) + [Entry(s)]
  }

  lemma CallsAssociate(a: seq<Call>, b: seq<Call>, c: seq<Call>)
    ensures (a + b) + c == a + (b + c)
  {
  }

  // ---------- the machine ----------

  // The states form one tree of limited height.
  ghost predicate IsTree(root: StateInstance, instances: seq<StateInstance>, height: nat) {
    && root in instances && root.parent == null && root.kind == NoHistory
    && (forall s {:trigger s in instances} :: s in instances ==>
          s.WellFormed() && Root(s) == root && |s.chain| <= height)
    && (forall s {:trigger s.parent} :: s in instances && s.parent != null ==> s.parent in instances)
  }

  // Init may go only to proper substates. The root, which is not a state of the user, does nothing.
  ghost predicate InitsBelow(instances: seq<StateInstance>, onInit: (nat, StateInstance) -> Request) {
    forall t, s :: s in instances ==>
      var r := onInit(t, s);
      r.Go? ==> s.parent != null && r.target in instances && s in r.target.chain
  }

  ghost predicate HandlersWithin(instances: seq<StateInstance>, onEvent: (nat, StateInstance, Event) -> Reaction) {
    forall t, s, e :: s in instances ==>
      var r := onEvent(t, s, e).request;
      r.Go? ==> r.target in instances && r.target.parent != null
  }

  class Machine {
    const root: StateInstance
    const instances: seq<StateInstance>
    ghost const height: nat
    // User code. It may do something else at every call: the first argument is the number of calls so far.
    const onInit: (nat, StateInstance) -> Request
    const onEvent: (nat, StateInstance, Event) -> Reaction

    var current: StateInstance?
    var pendingState: StateInstance?
    var pendingHistory: bool
    var pendingEvent: Option<Event>
    var calls: seq<Call> // all calls of user code
    ghost var past: seq<Mark>

    ghost predicate Setup() {
      IsTree(root, instances, height) && InitsBelow(instances, onInit) && HandlersWithin(instances, onEvent)
    }

    constructor (root: StateInstance, instances: seq<StateInstance>, ghost height: nat,
                 onInit: (nat, StateInstance) -> Request, onEvent: (nat, StateInstance, Event) -> Reaction)
      requires IsTree(root, instances, height) && InitsBelow(instances, onInit) && HandlersWithin(instances, onEvent)
      requires forall s :: s in instances ==> s.history == null && !s.box
      ensures Setup() && In(root) && Histories()
      ensures this.root == root && this.instances == instances && calls == [] && past == []
      ensures current == null && pendingState == null && pendingEvent == None
    {
      this.root, this.instances, this.height, this.onInit, this.onEvent := root, instances, height, onInit, onEvent;
      current, pendingState, pendingHistory, pendingEvent, calls, past := null, null, false, None, [], [];
    }

    // The boxes there are: those of the states entered and, of all that have ever been, the persistent ones and the
    // placeholders of states without data of their own, which are never deleted.
    ghost predicate Boxes(entered: seq<StateInstance>, calls: seq<Call>)
      reads instances`box
    {
      forall s {:trigger s.box} :: s in instances ==>
        (s.box <==> s in entered || (Entry(s) in calls && (s.persistent || !s.ownBox)))
    }

    ghost predicate Histories()
      reads this`past, instances`history
    {
      && AllWellFormed(past) && (forall i :: 0 <= i < |past| ==> past[i].state in instances)
      && forall a {:trigger a.history} :: a in instances ==> a.history == HistoryOf(past, a)
    }

    // The states entered and not exited are s and its superstates.
    ghost predicate In(s: StateInstance)
      requires s.WellFormed()
      reads this`calls, instances`box
    {
      Replay(calls) == Some(s.Path()) && Boxes(s.Path(), calls)
    }

    // exit action of s, and its box
    method Leave(s: StateInstance)
      requires Setup() && s in instances && s.parent != null && In(s)
      modifies this`calls, s`box
      ensures In(s.parent) && calls == old(calls) + [Exit(s)]
    {
      PathEnds(s);
      ReplayMore(calls, Exit(s));
      EnteredOnce(calls, s);
      calls := calls + [Exit(s)];
      if s.ownBox && !s.persistent {
        s.box := false;
      }
      PathFacts(s);
    }

    // box of s, and its entry action
    method Arrive(s: StateInstance)
      requires Setup() && s in instances && s.parent != null && In(s.parent)
      modifies this`calls, s`box
      ensures In(s) && calls == old(calls) + [Entry(s)]
    {
      if !s.box {
        s.box := true;
      }
      PathEnds(s.parent);
      ReplayMore(calls, Entry(s));
      calls := calls + [Entry(s)];
      PathFacts(s);
    }

    lemma PathFacts(s: StateInstance)
      requires s.WellFormed() && s.parent != null
      ensures s.Path() == s.parent.Path() + [s] && s !in s.parent.Path()
    {
      NotInOwnChain(s);
      PathIs(s.parent, s);
    }

    method Exits(s: StateInstance, next: StateInstance)
      requires Setup() && s in instances && next in instances && In(s)
      modifies this`calls, instances`box
      ensures ExitsTo(s, next).WellFormed() && In(ExitsTo(s, next))
      ensures calls == old(calls) + ExitCalls(s, ExitsTo(s, next))
      decreases |s.chain|
    {
      if s.parent == null {
        return;
      }
      if s == next || !next.IsChild(s) {
        ghost var before := calls;
        Leave(s);
        Exits(s.parent, next);
        ExitsToIsAbove(s, next);
        CallsAssociate(before, [Exit(s)], ExitCalls(s.parent, ExitsTo(s, next)));
      }
    }

    // Where the machine is when the entries of s begin.
    ghost function EntryBase(s: StateInstance, previous: StateInstance, first: bool): StateInstance
      requires s.WellFormed() && previous.WellFormed()
    {
      if s.parent == null then s else if first then EntersFrom(s.parent, previous) else EntersFrom(s, previous)
    }

    method Entries(s: StateInstance, previous: StateInstance, first: bool)
      requires Setup() && s in instances && previous in instances
      requires EntryBase(s, previous, first).WellFormed() && In(EntryBase(s, previous, first))
      modifies this`calls, instances`box
      ensures In(s) && calls == old(calls) + EntryCalls(EntryBase(s, previous, first), s)
      decreases |s.chain|
    {
      if s.parent == null {
        return;
      }
      if first || !previous.IsChild(s) {
        ghost var before := calls;
        EntersFromIsAbove(s, previous);
        Entries(s.parent, previous, false);
        Arrive(s);
        CallsAssociate(before, EntryCalls(EntersFrom(s.parent, previous), s.parent), [Entry(s)]);
      }
    }

    // ---------- histories ----------

    // Does a superstate of s keep a history?
    predicate HistoryAbove(s: StateInstance)
      requires s.WellFormed()
      ensures HistoryAbove(s) <==> exists a :: a in s.chain && a.kind != NoHistory
      decreases |s.chain|
    {
      s.parent != null && (s.parent.kind != NoHistory || HistoryAbove(s.parent))
    }

    // Tells the superstates of s, from the parent up, that `deep` is left.
    method SetHistorySuper(s: StateInstance, deep: StateInstance)
      requires Setup() && s in instances && deep in instances && Under(deep, s)
      modifies (set a | a in s.chain)`history
      ensures forall a {:trigger a.history} :: a in instances ==>
        a.history == if a in s.chain then Kept(a, deep, old(a.history)) else old(a.history)
      decreases |s.chain|, 0
    {
      if s.parent != null {
        SaveHistory(s.parent, s, deep);
      }
    }

    // The state's own choice between a shallow and a deep history.
    method KeepHistory(self: StateInstance, shallow: StateInstance, deep: StateInstance)
      requires shallow.WellFormed() && deep.WellFormed() && shallow.parent == self && Under(deep, shallow)
      modifies self`history
      ensures self.history == Kept(self, deep, old(self.history))
    {
      UnderToward(self, shallow, deep);
      match self.kind {
        case Shallow => self.history := shallow;
        case Deep => self.history := deep;
        case NoHistory =>
      }
    }

    method SaveHistory(self: StateInstance, shallow: StateInstance, deep: StateInstance)
      requires Setup() && self in instances && shallow in instances && deep in instances
      requires shallow.parent == self && Under(deep, shallow)
      modifies (set a | a in self.chain + [self])`history
      ensures forall a {:trigger a.history} :: a in instances ==>
        a.history == if a in self.chain + [self] then Kept(a, deep, old(a.history)) else old(a.history)
      decreases |self.chain|, 1
    {
      KeepHistory(self, shallow, deep);
      NotInOwnChain(self);
      UnderParent(self, shallow, deep);
      if HistoryAbove(self) {
        SetHistorySuper(self, deep);
      }
    }

    lemma {:induction false} ChainWithin(s: StateInstance)
      requires Setup() && s in instances && s.WellFormed()
      ensures forall a {:trigger a in s.chain} :: a in s.chain ==> a in instances
      decreases |s.chain|
    {
      if s.parent != null {
        ChainWithin(s.parent);
      }
    }

    // The whole change of histories when the current state s is left.
    method SaveHistories(s: StateInstance)
      requires Setup() && s in instances && Histories()
      modifies this`past, instances`history
      ensures Histories() && past == old(past) + [Left(s)]
    {
      HistoryMore(past, Left(s));
      ChainWithin(s);
      SetHistorySuper(s, s);
      forall a | a in instances
        ensures a.history == HistoryOf(past + [Left(s)], a)
      {
        HistoryLeft(past, s, a);
      }
      past := past + [Left(s)];
    }

    // After its init, a state has no history.
    method ForgetHistory(s: StateInstance)
      requires Setup() && s in instances && Histories()
      modifies this`past, s`history
      ensures Histories() && past == old(past) + [Initialized(s)] && s.history == null
    {
      HistoryMore(past, Initialized(s));
      s.history := null;
      past := past + [Initialized(s)];
    }

    method ClearHistory(s: StateInstance)
      requires Setup() && s in instances && Histories()
      modifies this`past, s`history
      ensures Histories() && past == old(past) + [Cleared(s)] && s.history == null
    {
      HistoryMore(past, Cleared(s));
      s.history := null;
      past := past + [Cleared(s)];
    }

    // Clears the history of a state and of all its substates.
    method ClearHistoryDeep(s: StateInstance)
      requires Setup() && s in instances && Histories()
      modifies this`past, instances`history
      ensures Histories() && past == old(past) + [ClearedDeep(s)]
      ensures forall a {:trigger a.history} :: a in instances ==>
        a.history == if Under(a, s) then null else old(a.history)
    {
      HistoryMore(past, ClearedDeep(s));
      for i := 0 to |instances|
        invariant past == old(past)
        invariant forall a {:trigger a.history} :: a in instances ==>
          a.history == if a in instances[..i] && Under(a, s) then null else old(a.history)
        invariant forall a {:trigger a.history} :: a in instances && a !in instances[..i] ==>
          a.history == old(a.history)
      {
        assert instances[..i + 1] == instances[..i] + [instances[i]];
        assert instances[i] in instances;
        if instances[i].IsChild(s) {
          instances[i].history := null;
        }
      }
      assert instances[..|instances|] == instances;
      past := past + [ClearedDeep(s)];
    }

    lemma HistoryBelow(s: StateInstance)
      requires Setup() && Histories() && s in instances && s.history != null
      ensures s.history in instances && s in s.history.chain && (s.kind == Shallow ==> s.history.parent == s)
    {
      HistoryIsBelow(past, s);
      HistoryWithin(past, s);
    }

    lemma {:induction false} HistoryWithin(some: seq<Mark>, s: StateInstance)
      requires Setup() && AllWellFormed(some) && forall i :: 0 <= i < |some| ==> some[i].state in instances
      ensures HistoryOf(some, s) != null ==> HistoryOf(some, s) in instances
      decreases |some|
    {
      if some != [] {
        HistoryWithin(some[..|some| - 1], s);
        var mark := some[|some| - 1];
        if mark.Left? && s in mark.state.chain {
          TowardWithin(s, mark.state);
        }
      }
    }

    lemma {:induction false} TowardWithin(a: StateInstance, s: StateInstance)
      requires Setup() && s in instances && s.WellFormed() && a in s.chain
      ensures Toward(a, s) in instances
      decreases |s.chain|
    {
      if s.parent != a {
        TowardWithin(a, s.parent);
      }
    }

    // ---------- transitions ----------

    // Between transitions: the machine is in a state of its own.
    ghost predicate Resting()
      reads this`current, this`calls, this`past, instances`box, instances`history
    {
      Setup() && current != null && current in instances && current.WellFormed() && In(current) && Histories()
    }

    ghost predicate Within(request: Request) {
      request.Go? ==> request.target in instances
    }

    ghost function Pending(): Request
      reads this`pendingState, this`pendingHistory
    {
      if pendingState == null then Stay else Go(pendingState, pendingHistory)
    }

    ghost function Now(): Situation
      requires current != null
      reads this`current, this`calls, this`past
    {
      Situation(current, calls, past)
    }

    // ---------- what runs come to ----------

    ghost predicate Lawful(c: Situation) {
      && Setup() && c.current in instances
      && AllWellFormed(c.past) && forall i :: 0 <= i < |c.past| ==> c.past[i].state in instances
    }

    // One transition: exits, entries and then init, with what is asked for next.
    ghost function Transited(c: Situation, target: StateInstance): Situation
      requires Lawful(c) && target in instances
      ensures Lawful(Transited(c, target))
    {
      Situation(target, c.calls + TransitionCalls(c.current, target), c.past + [Left(c.current)])
    }

    ghost function AskedNext(c: Situation, toHistory: bool): Request
      requires Lawful(c)
    {
      var h := HistoryOf(c.past, c.current);
      if toHistory && h != null then Go(h, false) else onInit(|c.calls|, c.current)
    }

    ghost function Initiated(c: Situation, toHistory: bool): Situation
      requires Lawful(c)
      ensures Lawful(Initiated(c, toHistory))
    {
      var calls := if toHistory && HistoryOf(c.past, c.current) != null then c.calls else c.calls + [Init(c.current)];
      Situation(c.current, calls, c.past + [Initialized(c.current)])
    }

    // Whatever is asked for next is further down.
    lemma NextIsBelow(c: Situation, toHistory: bool)
      requires Lawful(c) && AskedNext(c, toHistory).Go?
      ensures Within(AskedNext(c, toHistory)) && c.current in AskedNext(c, toHistory).target.chain
    {
      HistoryIsBelow(c.past, c.current);
      HistoryWithin(c.past, c.current);
    }

    // The transition that is asked for, and those that init actions and histories then ask for.
    ghost function Followed(c: Situation, request: Request): (end: Situation)
      requires Lawful(c) && Within(request)
      ensures Lawful(end)
      ensures if request.Stay? then end == c else Under(end.current, request.target)
      decreases if request.Stay? then 0 else height + 1 - |request.target.chain|
    {
      if request.Stay? then c
      else
        var moved := Transited(c, request.target);
        var next := AskedNext(moved, request.toHistory);
        if next.Stay? then Initiated(moved, request.toHistory)
        else
          NextIsBelow(moved, request.toHistory);
          DepthOfSuperstate(next.target, request.target);
          var end := Followed(Initiated(moved, request.toHistory), next);
          UnderTwice(end.current, next.target, request.target);
          end
    }

    // The pending event is handled, and the transitions that its handler asks for are made.
    ghost predicate Answers(before: Stop, after: Stop) {
      && Lawful(before.at) && before.event.Some?
      && var c, reaction := before.at, onEvent(|before.at.calls|, before.at.current, before.event.value);
        && after.event == reaction.event
        && after.at == Followed(Situation(c.current, c.calls + [Handler(c.current)], c.past), reaction.request)
    }

    ghost predicate IsRun(run: seq<Stop>) {
      run != [] && forall i :: 0 < i < |run| ==> Answers(run[i - 1], run[i])
    }

    lemma RunGoesOn(run: seq<Stop>, next: Stop)
      requires IsRun(run) && Answers(run[|run| - 1], next)
      ensures IsRun(run + [next])
    {
      var more := run + [next];
      forall i | 0 < i < |more|
        ensures Answers(more[i - 1], more[i])
      {
        assert more[i - 1] == run[i - 1];
      }
    }

    // Runs from the same stop are the same, as far as both go.
    lemma {:induction false} RunsAgree(one: seq<Stop>, other: seq<Stop>)
      requires IsRun(one) && IsRun(other) && one[0] == other[0] && |one| <= |other|
      ensures one == other[..|one|]
      decreases |one|
    {
      if |one| > 1 {
        var n := |one| - 1;
        RunsAgree(one[..n], other);
        assert one == one[..n] + [one[n]];
        assert one[..n][n - 1] == other[..n][n - 1];
        assert Answers(one[n - 1], one[n]) && Answers(other[n - 1], other[n]);
      }
    }

    // On the way to the root everything is exited.
    lemma FollowedToRoot(c: Situation)
      requires Lawful(c)
      ensures var end := Followed(c, Go(root, false));
        end.current == root && end.calls == c.calls + ExitCalls(c.current, root) + [Init(root)]
    {
      ExitsToRoot(c.current, root);
    }

    // If the events run out after n of them, any run from the same stop that has not reached a limit of at least n
    // ends right there: then the limit plays no part, as if the loop had none.
    lemma SettledIsTheEnd(whole: seq<Stop>, run: seq<Stop>, limit: nat)
      requires IsRun(whole) && IsRun(run) && whole[0] == run[0]
      requires whole[|whole| - 1].event == None && |whole| - 1 <= limit
      requires run[|run| - 1].event == None || |run| - 1 == limit
      ensures run == whole
    {
      if |run| <= |whole| {
        RunsAgree(run, whole);
      } else {
        RunsAgree(whole, run);
      }
      if |run| < |whole| {
        GoesOn(whole, |run| - 1);
      } else if |whole| < |run| {
        GoesOn(run, |whole| - 1);
      } else {
        assert whole[..|run|] == whole;
      }
    }

    lemma GoesOn(run: seq<Stop>, i: nat)
      requires IsRun(run) && i + 1 < |run|
      ensures run[i].event.Some?
    {
      assert Answers(run[i], run[i + 1]);
    }

    // To a deep history: the machine comes back to the state that was left last below a, or goes further down from
    // there; a's own init is not called. To a shallow history: the same for the direct substate it was left in. If
    // there is no history, it is a transition to a.
    lemma ReturnsToHistory(c: Situation, a: StateInstance)
      requires Lawful(c) && a in instances
      ensures var moved, h := Transited(c, a), HistoryOf(Transited(c, a).past, a);
        if h == null then Followed(c, Go(a, true)) == Followed(c, Go(a, false))
        else
          && h in instances && a in h.chain && (a.kind == Shallow ==> h.parent == a)
          && Under(Followed(c, Go(a, true)).current, h)
          && var again := Situation(a, moved.calls, moved.past + [Initialized(a)]);
            Followed(c, Go(a, true)) == Followed(again, Go(h, false))
    {
      if HistoryOf(Transited(c, a).past, a) != null {
        NextIsBelow(Transited(c, a), true);
        HistoryIsBelow(Transited(c, a).past, a);
      }
    }

    method SetPendingState(s: StateInstance, toHistory: bool)
      requires pendingState == null
      modifies `pendingState, `pendingHistory
      ensures pendingState == s && Pending() == Go(s, toHistory)
    {
      pendingState, pendingHistory := s, toHistory;
    }

    // A call in the current state, neither an entry nor an exit.
    method Note(call: Call)
      requires (call.Init? || call.Handler?) && call.state.WellFormed() && In(call.state)
      modifies `calls
      ensures In(call.state) && calls == old(calls) + [call]
    {
      PathEnds(call.state);
      ReplayMore(calls, call);
      calls := calls + [call];
    }

    // the init action of user code
    method UserInit(s: StateInstance)
      requires Setup() && s in instances && s.WellFormed() && In(s) && pendingState == null
      modifies `calls, `pendingState, `pendingHistory
      ensures In(s) && calls == old(calls) + [Init(s)] && Pending() == onInit(|old(calls)|, s)
    {
      var request := onInit(|calls|, s);
      Note(Init(s));
      if request.Go? {
        SetPendingState(request.target, request.toHistory);
      }
    }

    // Goes on to the history of s, if that is asked for and there is one; otherwise lets user code decide. Either
    // way the machine can only go further down.
    method RunInit(s: StateInstance, history: bool)
      requires Resting() && current == s && pendingState == null
      modifies `calls, `past, `pendingState, `pendingHistory, s`history
      ensures Resting() && Now() == old(Initiated(Now(), history)) && Pending() == old(AskedNext(Now(), history))
      ensures Within(Pending()) && (pendingState != null ==> s in pendingState.chain) && s.history == null
      ensures history && old(s.history) != null ==> Pending() == Go(old(s.history), false) && calls == old(calls)
      ensures !(history && old(s.history) != null) ==>
        Pending() == onInit(|old(calls)|, s) && calls == old(calls) + [Init(s)]
    {
      if AskedNext(Now(), history).Go? {
        NextIsBelow(Now(), history);
      }
      if history && s.history != null {
        SetPendingState(s.history, false);
      } else {
        UserInit(s);
      }
      ForgetHistory(s);
    }

    // exits, histories, and entries
    method Move()
      requires Resting() && pendingState != null && pendingState in instances
      modifies `current, `calls, `past, instances`box, instances`history
      ensures Resting() && current == pendingState && past == old(past) + [Left(old(current))]
      ensures calls == old(calls) + TransitionCalls(old(current), pendingState)
    {
      var previous, next := current, pendingState;
      ghost var before := calls;
      MeetingPoint(previous, next);
      Exits(previous, next);
      SaveHistories(previous);
      current := next;
      Entries(next, previous, true);
      CallsAssociate(before, ExitCalls(previous, ExitsTo(previous, next)), EntryCalls(ExitsTo(previous, next), next));
    }

    lemma MeetingPoint(previous: StateInstance, next: StateInstance)
      requires Setup() && previous in instances && next in instances
      ensures ExitsTo(previous, next) == EntryBase(next, previous, true)
    {
      if next.parent == null {
        assert Root(next) == next;
        ExitsToRoot(previous, next);
      } else {
        ExitsMeetEntries(previous, next);
      }
    }

    // the pending transition, and init
    method Transit()
      requires Resting() && pendingState != null && Within(Pending())
      modifies `current, `pendingState, `pendingHistory, `calls, `past, instances`box, instances`history
      ensures Resting() && Within(Pending()) && Followed(Now(), Pending()) == old(Followed(Now(), Pending()))
      ensures pendingState != null ==> |old(pendingState).chain| < |pendingState.chain|
    {
      ghost var s := pendingState;
      Move();
      pendingState := null;
      RunInit(current, pendingHistory);
      if pendingState != null {
        DepthOfSuperstate(pendingState, s);
      }
    }

    // the inner loop: the transition that is pending, and those that init actions ask for
    method RunTransitions()
      requires Resting() && Within(Pending())
      modifies `current, `pendingState, `pendingHistory, `calls, `past, instances`box, instances`history
      ensures Resting() && pendingState == null
      ensures Now() == Followed(old(Now()), old(Pending()))
    {
      ghost var end := Followed(Now(), Pending());
      while pendingState != null
        invariant Resting() && Within(Pending()) && Followed(Now(), Pending()) == end
        decreases if pendingState == null then 0 else height + 1 - |pendingState.chain|
      {
        Transit();
      }
    }

    // ---------- events ----------

    // user code handles an event in the current state
    method Handle(e: Event)
      requires Resting() && pendingState == null && pendingEvent == None
      modifies `calls, `pendingState, `pendingHistory, `pendingEvent
      ensures Resting() && Within(Pending()) && calls == old(calls) + [Handler(current)]
      ensures onEvent(|old(calls)|, current, e) == Reaction(Pending(), pendingEvent)
    {
      var reaction := onEvent(|calls|, current, e);
      Note(Handler(current));
      pendingEvent := reaction.event;
      if reaction.request.Go? {
        SetPendingState(reaction.request.target, reaction.request.toHistory);
      }
    }

    ghost function Stopped(): Stop
      requires current != null
      reads this`current, this`calls, this`past, this`pendingEvent
    {
      Stop(Now(), pendingEvent)
    }

    // the pending event and the transitions that follow
    method Answer()
      requires Resting() && pendingState == null && pendingEvent != None
      modifies `current, `pendingState, `pendingHistory, `pendingEvent, `calls, `past, instances`box, instances`history
      ensures Resting() && pendingState == null && Answers(old(Stopped()), Stopped())
    {
      var e := pendingEvent.value;
      pendingEvent := None;
      Handle(e);
      RunTransitions();
    }

    method AnswerNext(ghost before: seq<Stop>) returns (ghost run: seq<Stop>)
      requires Resting() && pendingState == null && pendingEvent != None
      requires IsRun(before) && before[|before| - 1] == Stopped()
      modifies `current, `pendingState, `pendingHistory, `pendingEvent, `calls, `past, instances`box, instances`history
      ensures Resting() && pendingState == null && IsRun(run)
      ensures |run| == |before| + 1 && run[..|before|] == before && run[|before|] == Stopped()
    {
      Answer();
      RunGoesOn(before, Stopped());
      run := before + [Stopped()];
    }

    // Runs to completion: until nothing is pending, or `limit` events have been handled. The run holds the stops
    // on the way.
    method RattleOn(limit: nat) returns (handled: nat, ghost run: seq<Stop>)
      requires Resting() && Within(Pending())
      modifies `current, `pendingState, `pendingHistory, `pendingEvent, `calls, `past, instances`box, instances`history
      ensures Resting() && pendingState == null && (pendingEvent == None || handled == limit)
      ensures IsRun(run) && run[0] == Stop(Followed(old(Now()), old(Pending())), old(pendingEvent))
      ensures |run| == handled + 1 && run[handled] == Stopped() && (old(pendingEvent) == None ==> handled == 0)
    {
      handled := 0;
      RunTransitions();
      run := [Stopped()];
      while pendingEvent != None && handled < limit
        invariant handled <= limit && Resting() && pendingState == null
        invariant |run| == handled + 1 && IsRun(run) && run[handled] == Stopped()
        invariant run[0] == Stop(Followed(old(Now()), old(Pending())), old(pendingEvent))
        invariant old(pendingEvent) == None ==> pendingEvent == None && handled == 0
        decreases limit - handled
      {
        run := AnswerNext(run);
        handled := handled + 1;
      }
    }

    // Nothing is left to do.
    ghost predicate Idle()
      reads this, instances`box, instances`history
    {
      Resting() && pendingState == null && pendingEvent == None
    }

    // Starts in the root state and goes to s.
    method Start(s: StateInstance)
      requires Setup() && In(root) && Histories() && pendingState == null && pendingEvent == None && s in instances
      modifies `current, `pendingState, `pendingHistory, `pendingEvent, `calls, `past, instances`box, instances`history
      ensures Idle() && Now() == Followed(Situation(root, old(calls), old(past)), Go(s, false)) && Under(current, s)
    {
      current := root;
      SetPendingState(s, false);
      var _, _ := RattleOn(0);
    }

    // Lets the current state handle an event, and runs to completion.
    method Dispatch(e: Event, limit: nat) returns (handled: nat, ghost run: seq<Stop>)
      requires Idle()
      modifies `current, `pendingState, `pendingHistory, `pendingEvent, `calls, `past, instances`box, instances`history
      ensures Resting() && pendingState == null && (pendingEvent == None || handled == limit)
      ensures IsRun(run) && Answers(Stop(old(Now()), Some(e)), run[0])
      ensures |run| == handled + 1 && run[handled] == Stopped()
    {
      Handle(e);
      handled, run := RattleOn(limit);
    }

    // Exits all states by going to the root.
    method Shutdown()
      requires Idle()
      modifies `current, `pendingState, `pendingHistory, `pendingEvent, `calls, `past, instances`box, instances`history
      ensures current == null && Replay(calls) == Some([])
      ensures calls == old(calls) + ExitCalls(old(current), root) + [Init(root)]
      ensures forall s {:trigger s.box} :: s in instances ==>
        (s.box <==> Entry(s) in calls && (s.persistent || !s.ownBox))
    {
      SetPendingState(root, false);
      FollowedToRoot(Now());
      var _, _ := RattleOn(0);
      assert current.Path() == [];
      current := null;
    }
  }

  // What a transition from prev to next calls: exits from prev up to the deepest proper superstate of next that
  // contains prev, then entries down to next.
  ghost function TransitionCalls(prev: StateInstance, next: StateInstance): seq<Call>
    requires prev.WellFormed() && next.WellFormed()
  {
    ExitCalls(prev, ExitsTo(prev, next)) + EntryCalls(ExitsTo(prev, next), next)
  }

  lemma {:induction false} UnderTwice(s: StateInstance, a: StateInstance, b: StateInstance)
    requires s.WellFormed() && Under(s, a) && Under(a, b)
    ensures Under(s, b)
    decreases |s.chain|
  {
    if s != a {
      UnderTwice(s.parent, a, b);
    }
  }

  lemma ExitsToIsAbove(s: StateInstance, next: StateInstance)
    requires s.WellFormed() && next.WellFormed() && s.parent != null && (s == next || !next.IsChild(s))
    ensures ExitsTo(s, next) == ExitsTo(s.parent, next) && ExitsTo(s, next) != s
  {
    ExitsToUnder(s.parent, next);
    NotInOwnChain(s);
  }

  lemma {:induction false} ExitsToUnder(s: StateInstance, next: StateInstance)
    requires s.WellFormed() && next.WellFormed()
    ensures Under(s, ExitsTo(s, next))
    decreases |s.chain|
  {
    if !(s.parent == null || (s != next && next.IsChild(s))) {
      ExitsToUnder(s.parent, next);
    }
  }

  lemma EntersFromIsAbove(s: StateInstance, previous: StateInstance)
    requires s.WellFormed() && previous.WellFormed() && s.parent != null
    ensures EntersFrom(s.parent, previous) != s
  {
    EntersFromUnder(s.parent, previous);
    NotInOwnChain(s);
  }

  lemma {:induction false} EntersFromUnder(s: StateInstance, previous: StateInstance)
    requires s.WellFormed() && previous.WellFormed()
    ensures Under(s, EntersFrom(s, previous))
    decreases |s.chain|
  {
    if !(s.parent == null || previous.IsChild(s)) {
      EntersFromUnder(s.parent, previous);
    }
  }

  lemma UnderParent(a: StateInstance, child: StateInstance, s: StateInstance)
    requires s.WellFormed() && child.WellFormed() && child.parent == a && Under(s, child)
    ensures Under(s, a)
  {
    UnderToward(a, child, s);
  }

  lemma {:induction false} UnderToward(a: StateInstance, child: StateInstance, s: StateInstance)
    requires s.WellFormed() && child.WellFormed() && child.parent == a && Under(s, child)
    ensures a in s.chain && Toward(a, s) == child && forall b :: b in a.chain ==> b in s.chain
    decreases |s.chain|
  {
    if s != child {
      UnderToward(a, child, s.parent);
      if s.parent == a {
        assert child in a.chain;
        NotInOwnChain(a);
        DepthOfSuperstate(a, child);
      }
    }
  }
}

/** REBINDING: when a client gets there, and how long it uses its address there. */
module DhcpRebinding {
  import opened DhcpMessages
  import opened Wrappers
  import opened DhcpServers
  import opened DhcpClients
  import opened DhcpNetworks
  import opened DhcpLeaseEnds

  // How far T1, T2, the end of the lease and the response timer are apart.
  predicate Spaced(cfg: Config, wait: real, c: Client) {
    match c.state
    case Bound =>
      && c.t1.Some? && c.t2.Some? && c.leaseEnd.Some?
      && c.t2.value == c.t1.value + cfg.leaseTime * 0.375 && c.leaseEnd.value == c.t2.value + cfg.leaseTime * 0.125
    case Renewing =>
      && c.t2.Some? && c.leaseEnd.Some? && c.timeout.Some? && c.timeout.value.kind == WaitAck
      && c.leaseEnd.value == c.t2.value + cfg.leaseTime * 0.125
      && c.timeout.value.at == c.t2.value - cfg.leaseTime * 0.375 + wait
    case Rebinding => wait >= cfg.leaseTime * 0.375
    case _ => true
  }

  lemma TimerKeepsSpaces(cfg: Config, wait: real, c: Client, kind: TimerKind, at: real, xid: int)
    requires Spaced(cfg, wait, c) && (kind == StartDhcp || (Due(c, kind, at) && NoneDueBefore(c, at)))
    requires TimersOk(c)
    ensures Spaced(cfg, wait, OnTimer(c, kind, at, xid, wait).0)
  {
    NoneDueIs(c, at);
  }

  lemma MessageKeepsSpaces(cfg: Config, wait: real, t: Table, c: Client, m: Message, at: real, xid: int)
    requires Spaced(cfg, wait, c) && MessageOk(cfg, t, m)
    ensures Spaced(cfg, wait, OnMessage(c, m, at, xid, wait).0)
  {
  }

  lemma EventKeepsSpaces(cfg: Config, wait: real, s: System, a: Action)
    requires Inv(cfg, s) && Enabled(s, a) && !a.Serve? && Spaced(cfg, wait, s.clients[a.who])
    ensures Spaced(cfg, wait, Handled(s.clients[a.who], a, wait).0)
  {
    var c := s.clients[a.who];
    match a
    case Start(_, at, xid) => TimerKeepsSpaces(cfg, wait, c, StartDhcp, at, xid);
    case Fire(_, kind, at, xid) => TimerKeepsSpaces(cfg, wait, c, kind, at, xid);
    case Receive(_, m, at, xid) => MessageKeepsSpaces(cfg, wait, s.table, c, m, at, xid);
  }

  lemma {:induction false} RunKeepsSpaces(cfg: Config, wait: real, states: seq<System>, actions: seq<Action>, k: nat,
                                         i: nat)
    requires Proper(cfg) && Run(cfg, wait, states, actions) && k < |states| && i in states[k].clients
    ensures Spaced(cfg, wait, states[k].clients[i])
  {
    if k > 0 {
      var s, a := states[k - 1], actions[k - 1];
      assert Next(cfg, wait, s, a, states[k]);
      RunKeepsInv(cfg, wait, states, actions, k - 1);
      RunKeepsSpaces(cfg, wait, states, actions, k - 1, i);
      if !a.Serve? && a.who == i {
        EventKeepsSpaces(cfg, wait, s, a);
      }
    }
  }

  // From stage k, in RENEWING, the client goes over to REBINDING and stays there to the end.
  ghost predicate RebindsFrom(states: seq<System>, k: nat, i: nat) {
    && k < |states| - 1 && i in states[k].clients && states[k].clients[i].state == Renewing
    && states[k].clients[i].t2.Some? && states[k].clients[i].leaseEnd.Some?
    && forall j :: k < j < |states| ==> i in states[j].clients && states[j].clients[i].state == Rebinding
  }

  // Whatever leaves a client in REBINDING changes nothing.
  lemma StaysRebinding(c: Client, a: Action, wait: real)
    requires !a.Serve? && c.state == Rebinding && TimersOk(c) && (a.Fire? ==> Due(c, a.kind, a.at))
    requires Handled(c, a, wait).0.state == Rebinding && Handled(c, a, wait).1.Done?
    ensures Handled(c, a, wait).0 == c
  {
  }

  lemma EntersRebinding(c: Client, a: Action, wait: real)
    requires !a.Serve? && c.state == Renewing && TimersOk(c) && (a.Fire? ==> Due(c, a.kind, a.at))
    requires Handled(c, a, wait).0.state == Rebinding && Handled(c, a, wait).1.Done?
    ensures a.Fire? && a.kind == T2 && Handled(c, a, wait).0.timeout == Some(Timeout(WaitAck, c.t2.value + wait))
  {
  }

  // The response timer that is set on the way to REBINDING runs on there.
  lemma RebindingStep(cfg: Config, wait: real, states: seq<System>, actions: seq<Action>, n: nat, i: nat, at: real)
    requires Proper(cfg) && Run(cfg, wait, states, actions) && n < |actions|
    requires i in states[n].clients && i in states[n + 1].clients && states[n + 1].clients[i].state == Rebinding
    requires var c := states[n].clients[i];
      || (c.state == Rebinding && c.timeout == Some(Timeout(WaitAck, at)))
      || (c.state == Renewing && c.t2.Some? && at == c.t2.value + wait)
    ensures states[n + 1].clients[i].timeout == Some(Timeout(WaitAck, at))
  {
    var a, c := actions[n], states[n].clients[i];
    assert Next(cfg, wait, states[n], a, states[n + 1]);
    TimersFit(cfg, wait, states, actions, n, i);
    if !a.Serve? && a.who == i {
      if c.state == Rebinding {
        StaysRebinding(c, a, wait);
      } else {
        EntersRebinding(c, a, wait);
      }
    }
  }

  lemma TimersFit(cfg: Config, wait: real, states: seq<System>, actions: seq<Action>, k: nat, i: nat)
    requires Proper(cfg) && Run(cfg, wait, states, actions) && k < |states| && i in states[k].clients
    ensures TimersOk(states[k].clients[i])
  {
    NeverStuck(cfg, wait, states, actions, k, i);
  }

  lemma RebindingTimer(cfg: Config, wait: real, states: seq<System>, actions: seq<Action>, k: nat, i: nat, n: nat)
    requires Proper(cfg) && Run(cfg, wait, states, actions) && RebindsFrom(states, k, i) && k < n < |states|
    ensures states[n].clients[i].timeout == Some(Timeout(WaitAck, states[k].clients[i].t2.value + wait))
  {
    var at := states[k].clients[i].t2.value + wait;
    RebindingStep(cfg, wait, states, actions, k, i, at);
    var j := k + 1;
    while j < n
      invariant k < j <= n && states[j].clients[i].timeout == Some(Timeout(WaitAck, at))
    {
      RebindingStep(cfg, wait, states, actions, j, i, at);
      j := j + 1;
    }
  }

  // In REBINDING the granted end of the lease, which no timer watches over any more, is outlived by at most what the
  // response time is longer than from T2 to that end.
  lemma RebindingIsBounded(cfg: Config, wait: real, states: seq<System>, actions: seq<Action>, k: nat, i: nat)
    requires Proper(cfg) && wait >= 0.0 && Run(cfg, wait, states, actions) && RebindsFrom(states, k, i)
    ensures states[|states| - 1].now <= states[k].clients[i].leaseEnd.value + (wait - cfg.leaseTime * 0.125)
  {
    var n := |states| - 1;
    RunKeepsSpaces(cfg, wait, states, actions, k, i);
    RebindingTimer(cfg, wait, states, actions, k, i, n);
    NoTimerOverdue(cfg, wait, states, actions, n, i);
    assert Due(states[n].clients[i], WaitAck, states[k].clients[i].t2.value + wait);
  }

  ghost predicate RebindsTooLong(cfg: Config, wait: real, states: seq<System>, actions: seq<Action>, k: nat, i: nat) {
    && Run(cfg, wait, states, actions) && RebindsFrom(states, k, i)
    && states[|states| - 1].clients[i].address != UNSPECIFIED
    && states[|states| - 1].now > states[k].clients[i].leaseEnd.value
  }

  ghost predicate ReachesRebinding(cfg: Config, wait: real, states: seq<System>, actions: seq<Action>, i: nat) {
    && Run(cfg, wait, states, actions)
    && i in states[|states| - 1].clients && states[|states| - 1].clients[i].state == Rebinding
  }

  lemma RebindingNeedsPool(cfg: Config, wait: real, states: seq<System>, actions: seq<Action>, i: nat)
    requires Proper(cfg) && ReachesRebinding(cfg, wait, states, actions, i)
    ensures cfg.poolSize > 0 && wait >= cfg.leaseTime * 0.375
  {
    RunKeepsInv(cfg, wait, states, actions, |states| - 1);
    RunKeepsSpaces(cfg, wait, states, actions, |states| - 1, i);
    var c := states[|states| - 1].clients[i];
    assert OnRecord(states[|states| - 1].table, c.lease.value.ip, c.mac);
  }

  // The client renews, hears nothing, rebinds, and at the very end of the response time still waits.
  lemma RebindingRun(cfg: Config, wait: real) returns (states: seq<System>, actions: seq<Action>, k: nat)
    requires Proper(cfg) && cfg.poolSize > 0 && wait >= cfg.leaseTime * 0.375
    ensures RebindsTooLong(cfg, wait, states, actions, k, 0)
  {
    var mac: Mac := 1;
    states, actions := FirstBinding(cfg, wait, mac);
    var t1, t2 := cfg.leaseTime * 0.5, cfg.leaseTime * 0.875;
    var c := BoundAtZero(cfg, mac);
    NoneDueIs(c, t1);
    states, actions := TimerGoesOn(cfg, wait, states, actions, c, Fire(0, T1, t1, 3));
    c := OnTimer(c, T1, t1, 3, wait).0;
    k := |states| - 1;
    assert states[k].clients == map[0 := c];
    states, actions := RebindsAndWaits(cfg, wait, states, actions, c, t2);
  }

  lemma RebindsAndWaits(cfg: Config, wait: real, before: seq<System>, past: seq<Action>, c: Client, t2: real)
    returns (states: seq<System>, actions: seq<Action>)
    requires Proper(cfg) && wait >= cfg.leaseTime * 0.375 && Alone(cfg, wait, before, past, c, 4)
    requires c.state == Renewing && TimersOk(c) && Spaced(cfg, wait, c) && c.t2 == Some(t2) && c.address != UNSPECIFIED
    requires before[|before| - 1].now <= t2
    ensures before <= states && RebindsTooLong(cfg, wait, states, actions, |before| - 1, 0)
  {
    NoneDueIs(c, t2);
    var fire := Fire(0, T2, t2, 4);
    var (r, outcome) := OnTimer(c, T2, t2, 4, wait);
    NoneDueIs(r, t2);
    var s := ClientGoesOn(cfg, wait, before, past, c, fire);
    states, actions := before + [s], past + [fire];
    var echo := Receive(0, outcome.sent[0], t2 + wait, 5);
    assert outcome.sent[0] in outcome.sent;
    NoneDueIs(r, t2 + wait);
    var s' := ClientGoesOn(cfg, wait, states, actions, r, echo);
    states, actions := states + [s'], actions + [echo];
  }

  // A client gets to REBINDING in some run if and only if the response time is not shorter than from T1 to T2, for
  // otherwise it gives up renewing before; and then it can also use its address there after the lease is over.
  lemma RebindingExactly(cfg: Config, wait: real)
    requires Proper(cfg) && wait > 0.0
    ensures (exists states, actions, i :: ReachesRebinding(cfg, wait, states, actions, i)) <==>
      cfg.poolSize > 0 && wait >= cfg.leaseTime * 0.375
    ensures (exists states, actions, k, i :: RebindsTooLong(cfg, wait, states, actions, k, i)) <==>
      cfg.poolSize > 0 && wait >= cfg.leaseTime * 0.375
  {
    if states, actions, i :| ReachesRebinding(cfg, wait, states, actions, i) {
      RebindingNeedsPool(cfg, wait, states, actions, i);
    }
    if states, actions, k, i :| RebindsTooLong(cfg, wait, states, actions, k, i) {
      assert ReachesRebinding(cfg, wait, states, actions, i);
      RebindingNeedsPool(cfg, wait, states, actions, i);
    }
    if cfg.poolSize > 0 && wait >= cfg.leaseTime * 0.375 {
      var states, actions, k := RebindingRun(cfg, wait);
      assert ReachesRebinding(cfg, wait, states, actions, 0);
    }
  }
}

/** The end of a lease: when an address is given up in time, and a run in which it is not. */
module DhcpLeaseEnds {
  import opened DhcpMessages
  import opened Wrappers
  import opened DhcpServers
  import opened DhcpClients
  import opened DhcpNetworks

  lemma NoneDueIs(c: Client, at: real)
    ensures NoneDueBefore(c, at) <==>
      && (c.t1.Some? ==> at <= c.t1.value) && (c.t2.Some? ==> at <= c.t2.value)
      && (c.leaseEnd.Some? ==> at <= c.leaseEnd.value)
      && (c.timeout.Some? && c.timeout.value.kind in {WaitOffer, WaitAck} ==> at <= c.timeout.value.at)
  {
    if NoneDueBefore(c, at) {
      assert c.t1.Some? ==> Due(c, T1, c.t1.value);
      assert c.t2.Some? ==> Due(c, T2, c.t2.value);
      assert c.leaseEnd.Some? ==> Due(c, LeaseTimeout, c.leaseEnd.value);
      assert c.timeout.Some? && c.timeout.value.kind in {WaitOffer, WaitAck} ==>
        Due(c, c.timeout.value.kind, c.timeout.value.at);
    }
  }

  // No timer is overdue after an event that was handled in time.
  lemma TimerInTime(c: Client, kind: TimerKind, at: real, xid: int, wait: real)
    requires wait >= 0.0 && NoneDueBefore(c, at)
    ensures NoneDueBefore(OnTimer(c, kind, at, xid, wait).0, at)
  {
    NoneDueIs(c, at);
    NoneDueIs(OnTimer(c, kind, at, xid, wait).0, at);
  }

  lemma MessageInTime(cfg: Config, t: Table, c: Client, m: Message, at: real, xid: int, wait: real)
    requires Proper(cfg) && wait >= 0.0 && NoneDueBefore(c, at) && MessageOk(cfg, t, m)
    ensures NoneDueBefore(OnMessage(c, m, at, xid, wait).0, at)
  {
    NoneDueIs(c, at);
    NoneDueIs(OnMessage(c, m, at, xid, wait).0, at);
  }

  lemma {:induction false} NoTimerOverdue(cfg: Config, wait: real, states: seq<System>, actions: seq<Action>, k: nat,
                                         i: nat)
    requires Proper(cfg) && wait >= 0.0 && Run(cfg, wait, states, actions) && k < |states| && i in states[k].clients
    ensures NoneDueBefore(states[k].clients[i], states[k].now)
  {
    if k > 0 {
      var s, a := states[k - 1], actions[k - 1];
      assert Next(cfg, wait, s, a, states[k]);
      RunKeepsInv(cfg, wait, states, actions, k - 1);
      if !a.Serve? {
        var c := s.clients[a.who];
        assert NoneDueBefore(c, a.at);
        match a
        case Start(_, at, xid) => TimerInTime(c, StartDhcp, at, xid, wait);
        case Fire(_, kind, at, xid) => TimerInTime(c, kind, at, xid, wait);
        case Receive(_, m, at, xid) => MessageInTime(cfg, s.table, c, m, at, xid, wait);
      }
    }
  }

  // RFC 2131, section 4.4.5: in BOUND and RENEWING no address is used longer than the lease for it lasts.
  lemma LeaseNotOutlived(cfg: Config, wait: real, states: seq<System>, actions: seq<Action>, k: nat, i: nat)
    requires Proper(cfg) && wait >= 0.0 && Run(cfg, wait, states, actions) && k < |states| && i in states[k].clients
    requires states[k].clients[i].state in {Bound, Renewing}
    ensures states[k].clients[i].leaseEnd.Some? && states[k].now <= states[k].clients[i].leaseEnd.value
  {
    RunKeepsInv(cfg, wait, states, actions, k);
    NoTimerOverdue(cfg, wait, states, actions, k, i);
    var c := states[k].clients[i];
    assert Due(c, LeaseTimeout, c.leaseEnd.value);
  }

  // ---------- no refusals ----------

  // In order: a request in response to an offer asks for an address on record for the client, and nothing is a refusal.
  predicate Granting(cfg: Config, t: Table, m: Message) {
    && m.messageType != Nak
    && (m.op == BootRequest && m.messageType == Request && m.serverIdentifier == cfg.serverId ==>
          OnRecord(t, m.requestedIp, m.chaddr))
  }

  lemma RequestIsGranting(cfg: Config, t: Table, c: Client, m: Message)
    requires c.lease.Some? ==> OnRecord(t, c.lease.value.ip, c.mac) && c.lease.value.serverId == cfg.serverId
    requires Proper(cfg) && RequestOutcome(c).Done? && m in RequestOutcome(c).sent
    ensures Granting(cfg, t, m)
  {
  }

  // The client at the time it sends a request: as its handler leaves it, but still rebooting after a start.
  function Sender(c: Client, a: Action, wait: real): Client
    requires !a.Serve?
  {
    var c' := Handled(c, a, wait).0;
    if a.Start? then c'.(state := InitReboot) else c'
  }

  lemma RequestIsBySender(c: Client, a: Action, wait: real, m: Message)
    requires !a.Serve? && (a.Fire? ==> a.kind != StartDhcp) && Handled(c, a, wait).1.Done?
    requires m in Handled(c, a, wait).1.sent && m.messageType == Request
    ensures Handled(c, a, wait).1 == RequestOutcome(Sender(c, a, wait))
  {
  }

  lemma SentKinds(c: Client, a: Action, wait: real, m: Message)
    requires !a.Serve? && Handled(c, a, wait).1.Done? && m in Handled(c, a, wait).1.sent
    ensures m.messageType in {Discover, Request}
  {
  }

  // What a client sends is a discovery or a request by its sender.
  lemma SentByIsGranting(cfg: Config, t: Table, c: Client, a: Action, wait: real, m: Message)
    requires Proper(cfg) && !a.Serve? && (a.Fire? ==> a.kind != StartDhcp)
    requires Handled(c, a, wait).1.Done? && m in Handled(c, a, wait).1.sent
    requires var sender := Sender(c, a, wait);
      sender.lease.Some? ==>
        OnRecord(t, sender.lease.value.ip, sender.mac) && sender.lease.value.serverId == cfg.serverId
    ensures Granting(cfg, t, m)
  {
    SentKinds(c, a, wait, m);
    if m.messageType == Request {
      RequestIsBySender(c, a, wait, m);
      RequestIsGranting(cfg, t, Sender(c, a, wait), m);
    }
  }

  lemma SentIsGranting(cfg: Config, wait: real, s: System, a: Action, m: Message)
    requires Proper(cfg) && Inv(cfg, s) && !a.Serve? && Enabled(s, a)
    requires var (c, outcome) := Handled(s.clients[a.who], a, wait); outcome.Done? && m in outcome.sent
    ensures Granting(cfg, s.table, m)
  {
    HandledIsOrderly(cfg, wait, s, a);
    SentByIsGranting(cfg, s.table, s.clients[a.who], a, wait, m);
  }

  lemma AnswerIsGranting(cfg: Config, t: Table, m: Message, t': Table, reply: Option<Message>)
    requires Proper(cfg) && TableOk(cfg, t) && MessageOk(cfg, t, m) && Granting(cfg, t, m)
    requires ServerStep(cfg, t, m, t', reply)
    ensures reply.Some? ==> reply.value.messageType != Nak && reply.value.op == BootReply
  {
    if m.op == BootRequest && m.messageType == Request
       && m.serverIdentifier != cfg.serverId && m.ciaddr == UNSPECIFIED {
      RebootIsNeverRefused(cfg, t, m, t', reply);
    }
  }

  lemma StaysGranting(cfg: Config, wait: real, s: System, a: Action, s': System, m: Message)
    requires Proper(cfg) && Inv(cfg, s) && Next(cfg, wait, s, a, s') && m in s'.sent
    requires forall sent :: sent in s.sent ==> Granting(cfg, s.table, sent)
    ensures Granting(cfg, s'.table, m)
  {
    if !a.Serve? {
      if m !in s.sent {
        SentIsGranting(cfg, wait, s, a, m);
      }
    } else {
      AnswerIsGranting(cfg, s.table, a.m, s'.table, a.reply);
      AnswerIsSound(cfg, s.table, a.m, s'.table, a.reply);
    }
  }

  lemma {:induction false} NothingIsRefused(cfg: Config, wait: real, states: seq<System>, actions: seq<Action>, k: nat,
                                           m: Message)
    requires Proper(cfg) && Run(cfg, wait, states, actions) && k < |states| && m in states[k].sent
    ensures Granting(cfg, states[k].table, m)
  {
    if k > 0 {
      var s := states[k - 1];
      RunKeepsInv(cfg, wait, states, actions, k - 1);
      forall sent | sent in s.sent
        ensures Granting(cfg, s.table, sent)
      {
        NothingIsRefused(cfg, wait, states, actions, k - 1, sent);
      }
      StaysGranting(cfg, wait, s, actions[k - 1], states[k], m);
    }
  }

  // So nothing makes a client give up or change an address it uses: neither a timer nor a refusal, nor a new lease.
  lemma KeepsAddressWithoutLease(cfg: Config, wait: real, states: seq<System>, actions: seq<Action>, k: nat, i: nat)
    requires Proper(cfg) && Run(cfg, wait, states, actions) && k < |actions| && i in states[k].clients
    requires states[k].clients[i].address != UNSPECIFIED
    ensures i in states[k + 1].clients && states[k + 1].clients[i].address == states[k].clients[i].address
  {
    var s, a := states[k], actions[k];
    assert Next(cfg, wait, s, a, states[k + 1]);
    if !a.Serve? && a.who == i {
      RunKeepsInv(cfg, wait, states, actions, k);
      if a.Receive? {
        NothingIsRefused(cfg, wait, states, actions, k, a.m);
        MessageKeepsAddress(cfg, s.table, s.clients[i], a.m, a.at, a.xid, wait);
      } else {
        TimerKeepsAddress(cfg, wait, s, a);
      }
    }
  }

  lemma MessageKeepsAddress(cfg: Config, t: Table, c: Client, m: Message, at: real, xid: int, wait: real)
    requires TableOk(cfg, t) && ClientOk(cfg, t, c) && c.address != UNSPECIFIED && m.messageType != Nak
    ensures OnMessage(c, m, at, xid, wait).0.address == c.address
  {
  }

  lemma TimerKeepsAddress(cfg: Config, wait: real, s: System, a: Action)
    requires Inv(cfg, s) && Enabled(s, a) && (a.Start? || a.Fire?)
    ensures Handled(s.clients[a.who], a, wait).0.address == s.clients[a.who].address
  {
    if a.Fire? {
      EarlierTimers(cfg, s.table, s.clients[a.who], a.kind, a.at);
    }
  }

  // But then a client that gets no answer stops the lease timer, starts over, and keeps the address.

  // A run of one client that has used no transaction id from `next` on.
  ghost predicate Alone(cfg: Config, wait: real, states: seq<System>, actions: seq<Action>, c: Client, next: int) {
    && Run(cfg, wait, states, actions)
    && var s := states[|states| - 1];
       && s.clients == map[0 := c] && c.xid < next && (forall m :: m in s.sent ==> m.xid < next)
       && NoneDueBefore(c, s.now)
  }

  lemma RunGoesOn(cfg: Config, wait: real, states: seq<System>, actions: seq<Action>, a: Action, s: System)
    requires Run(cfg, wait, states, actions) && Next(cfg, wait, states[|states| - 1], a, s)
    ensures Run(cfg, wait, states + [s], actions + [a])
  {
    var ss, aa := states + [s], actions + [a];
    forall i | 0 <= i < |aa|
      ensures Next(cfg, wait, ss[i], aa[i], ss[i + 1])
    {
      assert i < |actions| ==> Next(cfg, wait, states[i], actions[i], states[i + 1]);
    }
  }

  // The client's next event, before which no timer is due.
  lemma ClientGoesOn(cfg: Config, wait: real, states: seq<System>, actions: seq<Action>, c: Client, a: Action)
    returns (s: System)
    requires Alone(cfg, wait, states, actions, c, if a.Serve? then 0 else a.xid) && !a.Serve? && a.who == 0
    requires var before := states[|states| - 1];
      && before.now <= a.at && NoneDueBefore(c, a.at)
      && (a.Fire? ==> Due(c, a.kind, a.at)) && (a.Receive? ==> a.m in before.sent)
    requires var (c', outcome) := Handled(c, a, wait);
      && outcome.Done? && c'.xid <= a.xid && NoneDueBefore(c', a.at)
      && forall m :: m in outcome.sent ==> m.xid <= a.xid
    ensures Alone(cfg, wait, states + [s], actions + [a], Handled(c, a, wait).0, a.xid + 1)
    ensures s.table == states[|states| - 1].table && s.now == a.at
    ensures s.sent == states[|states| - 1].sent + (set m | m in Handled(c, a, wait).1.sent)
  {
    var before := states[|states| - 1];
    var (c', outcome) := Handled(c, a, wait);
    s := System(before.table, map[0 := c'], before.sent + (set m | m in outcome.sent), a.at);
    assert s.clients == before.clients[0 := c'];
    RunGoesOn(cfg, wait, states, actions, a, s);
  }

  lemma ServerGoesOn(cfg: Config, wait: real, states: seq<System>, actions: seq<Action>, c: Client, next: int,
                     m: Message, table: Table, reply: Message) returns (s: System)
    requires Alone(cfg, wait, states, actions, c, next) && reply.xid < next
    requires m in states[|states| - 1].sent && ServerStep(cfg, states[|states| - 1].table, m, table, Some(reply))
    ensures Alone(cfg, wait, states + [s], actions + [Serve(m, s.now, Some(reply))], c, next)
    ensures s.table == table && s.now == states[|states| - 1].now && s.sent == states[|states| - 1].sent + {reply}
  {
    var before := states[|states| - 1];
    s := System(table, before.clients, before.sent + {reply}, before.now);
    RunGoesOn(cfg, wait, states, actions, Serve(m, s.now, Some(reply)), s);
  }

  function LeaseOf(cfg: Config): ClientLease {
    ClientLease(cfg.Pool(0), cfg.serverId, cfg.LeaseTimes())
  }

  // The client after the four messages at time 0.
  function BoundAtZero(cfg: Config, mac: Mac): Client {
    Client(mac, Bound, 2, Some(LeaseOf(cfg)), cfg.Pool(0), Some(cfg.leaseTime * 0.5), Some(cfg.leaseTime * 0.875), None,
           Some(cfg.leaseTime))
  }

  // A client that looks for a server and still uses the address.
  function Looking(cfg: Config, mac: Mac, xid: int, at: real): Client {
    Client(mac, Selecting, xid, Some(LeaseOf(cfg)), cfg.Pool(0), None, None, Some(Timeout(WaitOffer, at)), None)
  }

  lemma FreshServer(cfg: Config, m: Message)
    requires cfg.poolSize > 0 && m.op == BootRequest && m.messageType == Discover && m.requestedIp == UNSPECIFIED
    ensures var lease := Lease(m.xid, cfg.Pool(0), m.chaddr, true);
      ServerStep(cfg, map[], m, map[cfg.Pool(0) := lease], Some(OfferFor(cfg, lease)))
  {
    var t: Table := map[];
    assert !Taken(t, cfg.Pool(0));
    assert IsFirstFree(cfg, t, Some(cfg.Pool(0)));
    var lease := Lease(m.xid, cfg.Pool(0), m.chaddr, true);
    assert t[cfg.Pool(0) := lease] == map[cfg.Pool(0) := lease];
  }

  lemma OneLeaseGranted(cfg: Config, mac: Mac, before: int, xid: int)
    ensures var lease := Lease(xid, cfg.Pool(0), mac, true);
      ServerStep(cfg, map[cfg.Pool(0) := lease.(xid := before)],
                 RequestBy(mac, xid, cfg.serverId, cfg.Pool(0), UNSPECIFIED),
                 map[cfg.Pool(0) := lease], Some(AckFor(cfg, lease)))
  {
    var lease := Lease(xid, cfg.Pool(0), mac, true);
    var t: Table := map[cfg.Pool(0) := lease.(xid := before)];
    assert t[cfg.Pool(0) := lease] == map[cfg.Pool(0) := lease];
    assert IsFirstLeaseOf(t, mac, Some(cfg.Pool(0)));
  }

  // Discovery, offer, request and acknowledgement at time 0.
  lemma FirstBinding(cfg: Config, wait: real, mac: Mac) returns (states: seq<System>, actions: seq<Action>)
    requires Proper(cfg) && cfg.poolSize > 0 && wait > 0.0
    ensures Alone(cfg, wait, states, actions, BoundAtZero(cfg, mac), 3) && states[|states| - 1].now == 0.0
  {
    var c0 := Client(mac, Init, 0, None, UNSPECIFIED, None, None, None, None);
    states, actions := [System(map[], map[0 := c0], {}, 0.0)], [];
    var start := Start(0, 0.0, 1);
    var c1 := Handled(c0, start, wait).0;
    NoneDueIs(c1, 0.0);
    var s := ClientGoesOn(cfg, wait, states, actions, c0, start);
    states, actions := states + [s], actions + [start];
    var discover := DiscoverBy(mac, 1);
    FreshServer(cfg, discover);
    var lease := Lease(1, cfg.Pool(0), mac, true);
    var offer := OfferFor(cfg, lease);
    s := ServerGoesOn(cfg, wait, states, actions, c1, 2, discover, map[cfg.Pool(0) := lease], offer);
    states, actions := states + [s], actions + [Serve(discover, 0.0, Some(offer))];
    states, actions := FirstRequest(cfg, wait, states, actions, c1, offer);
  }

  lemma FirstRequest(cfg: Config, wait: real, before: seq<System>, past: seq<Action>, c: Client, offer: Message)
    returns (states: seq<System>, actions: seq<Action>)
    requires Proper(cfg) && cfg.poolSize > 0 && wait > 0.0
    requires offer == OfferFor(cfg, Lease(1, cfg.Pool(0), c.mac, true))
    requires c == StartedOver(Client(c.mac, Init, 0, None, UNSPECIFIED, None, None, None, None), 0.0, 1, wait)
    requires Alone(cfg, wait, before, past, c, 2) && offer in before[|before| - 1].sent
    requires before[|before| - 1].now == 0.0
    requires before[|before| - 1].table == map[cfg.Pool(0) := Lease(1, cfg.Pool(0), c.mac, true)]
    ensures Alone(cfg, wait, states, actions, BoundAtZero(cfg, c.mac), 3) && states[|states| - 1].now == 0.0
  {
    states, actions := before, past;
    var receive := Receive(0, offer, 0.0, 2);
    var (c2, outcome) := Handled(c, receive, wait);
    NoneDueIs(c2, 0.0);
    var s := ClientGoesOn(cfg, wait, states, actions, c, receive);
    states, actions := states + [s], actions + [receive];
    var request := RequestBy(c.mac, 2, cfg.serverId, cfg.Pool(0), UNSPECIFIED);
    assert outcome == Done([request]);
    states, actions := FirstAck(cfg, wait, states, actions, c2);
  }

  lemma FirstAck(cfg: Config, wait: real, before: seq<System>, past: seq<Action>, c: Client)
    returns (states: seq<System>, actions: seq<Action>)
    requires Proper(cfg) && cfg.poolSize > 0 && wait > 0.0 && Alone(cfg, wait, before, past, c, 3)
    requires c.state == Requesting && c.xid == 2 && c.lease == Some(ClientLease(cfg.Pool(0), cfg.serverId, NO_TIMES))
    requires before[|before| - 1].now == 0.0
    requires RequestBy(c.mac, 2, cfg.serverId, cfg.Pool(0), UNSPECIFIED) in before[|before| - 1].sent
    requires before[|before| - 1].table == map[cfg.Pool(0) := Lease(1, cfg.Pool(0), c.mac, true)]
    ensures Alone(cfg, wait, states, actions, BoundAtZero(cfg, c.mac), 3) && states[|states| - 1].now == 0.0
  {
    var request := RequestBy(c.mac, 2, cfg.serverId, cfg.Pool(0), UNSPECIFIED);
    OneLeaseGranted(cfg, c.mac, 1, 2);
    var lease := Lease(2, cfg.Pool(0), c.mac, true);
    var ack := AckFor(cfg, lease);
    var s := ServerGoesOn(cfg, wait, before, past, c, 3, request, map[cfg.Pool(0) := lease], ack);
    states, actions := before + [s], past + [Serve(request, 0.0, Some(ack))];
    var done := Receive(0, ack, 0.0, 3);
    var c3 := Handled(c, done, wait).0;
    assert c3 == BoundAtZero(cfg, c.mac);
    NoneDueIs(c3, 0.0);
    s := ClientGoesOn(cfg, wait, states, actions, c, done);
    states, actions := states + [s], actions + [done];
  }

  // From the first run to the second only timers go off.
  ghost predicate OnlyTimers(before: seq<System>, past: seq<Action>, states: seq<System>, actions: seq<Action>) {
    && before <= states && past <= actions
    && forall i :: |past| <= i < |actions| ==> actions[i].Fire?
  }

  lemma TimerGoesOn(cfg: Config, wait: real, before: seq<System>, past: seq<Action>, c: Client, fire: Action)
    returns (states: seq<System>, actions: seq<Action>)
    requires fire.Fire? && fire.who == 0 && wait > 0.0 && Alone(cfg, wait, before, past, c, fire.xid)
    requires Due(c, fire.kind, fire.at) && NoneDueBefore(c, fire.at) && before[|before| - 1].now <= fire.at
    requires var (c', outcome) := OnTimer(c, fire.kind, fire.at, fire.xid, wait);
      outcome.Done? && c'.xid <= fire.xid && forall m :: m in outcome.sent ==> m.xid <= fire.xid
    ensures Alone(cfg, wait, states, actions, OnTimer(c, fire.kind, fire.at, fire.xid, wait).0, fire.xid + 1)
    ensures OnlyTimers(before, past, states, actions) && states[|states| - 1].now == fire.at
  {
    TimerInTime(c, fire.kind, fire.at, fire.xid, wait);
    var s := ClientGoesOn(cfg, wait, before, past, c, fire);
    states, actions := before + [s], past + [fire];
  }

  // No answer comes while the client renews and, if there is time for that, rebinds.
  lemma LosesTouch(cfg: Config, wait: real, mac: Mac, before: seq<System>, past: seq<Action>)
    returns (states: seq<System>, actions: seq<Action>, xid: int, at: real)
    requires Proper(cfg) && wait > 0.0
    requires Alone(cfg, wait, before, past, BoundAtZero(cfg, mac), 3) && before[|before| - 1].now == 0.0
    ensures Alone(cfg, wait, states, actions, Looking(cfg, mac, xid, at), xid + 1)
    ensures OnlyTimers(before, past, states, actions) && states[|states| - 1].now <= at
  {
    var c := BoundAtZero(cfg, mac);
    var t1, t2 := cfg.leaseTime * 0.5, cfg.leaseTime * 0.875;
    NoneDueIs(c, t1);
    states, actions := TimerGoesOn(cfg, wait, before, past, c, Fire(0, T1, t1, 3));
    c := OnTimer(c, T1, t1, 3, wait).0;
    if t1 + wait <= t2 {
      NoneDueIs(c, t1 + wait);
      xid, at := 4, t1 + wait + wait;
      states, actions := TimerGoesOn(cfg, wait, states, actions, c, Fire(0, WaitAck, t1 + wait, 4));
    } else {
      NoneDueIs(c, t2);
      states, actions := TimerGoesOn(cfg, wait, states, actions, c, Fire(0, T2, t2, 4));
      c := OnTimer(c, T2, t2, 4, wait).0;
      NoneDueIs(c, t2 + wait);
      xid, at := 5, t2 + wait + wait;
      states, actions := TimerGoesOn(cfg, wait, states, actions, c, Fire(0, WaitAck, t2 + wait, 5));
    }
  }

  function Later(at: real, wait: real, n: nat): real {
    if n == 0 then at else Later(at, wait, n - 1) + wait
  }

  lemma {:induction false} LaterIs(at: real, wait: real, n: nat)
    ensures Later(at, wait, n) == at + n as real * wait
  {
    if n > 0 {
      LaterIs(at, wait, n - 1);
    }
  }

  lemma SometimeLater(at: real, wait: real, until: real) returns (n: nat)
    requires wait > 0.0
    ensures Later(at, wait, n) > until
  {
    var x := (until - at) / wait;
    n := if x < 0.0 then 1 else x.Floor + 1;
    assert x * wait == until - at;
    assert (n as real - x) * wait > 0.0;
    LaterIs(at, wait, n);
  }

  // No server answers, and the client asks again and again.
  lemma {:induction false} LooksOn(cfg: Config, wait: real, mac: Mac, before: seq<System>, past: seq<Action>, xid: int,
                                   at: real, n: nat) returns (states: seq<System>, actions: seq<Action>)
    requires wait > 0.0 && Alone(cfg, wait, before, past, Looking(cfg, mac, xid, at), xid + 1)
    requires before[|before| - 1].now <= at
    ensures Alone(cfg, wait, states, actions, Looking(cfg, mac, xid + n, Later(at, wait, n)), xid + n + 1)
    ensures OnlyTimers(before, past, states, actions)
    ensures states[|states| - 1].now == if n == 0 then before[|before| - 1].now else Later(at, wait, n - 1)
    decreases n
  {
    if n == 0 {
      states, actions := before, past;
    } else {
      states, actions := LooksOn(cfg, wait, mac, before, past, xid, at, n - 1);
      var t := Later(at, wait, n - 1);
      var c := Looking(cfg, mac, xid + n - 1, t);
      NoneDueIs(c, t);
      states, actions := TimerGoesOn(cfg, wait, states, actions, c, Fire(0, WaitOffer, t, xid + n));
    }
  }

  // A run in which a client is bound at stage k, then hears nothing more, and at the end looks for a server and still
  // uses the address, after the time `until` and after the end of the lease granted.
  ghost predicate OutlivesLease(cfg: Config, wait: real, until: real, states: seq<System>, actions: seq<Action>,
                                k: nat)
  {
    && Run(cfg, wait, states, actions) && k < |states|
    && (forall i :: k <= i < |actions| ==> actions[i].Fire?)
    && var first, last := states[k], states[|states| - 1];
       && 0 in first.clients && first.clients[0].state == Bound && first.clients[0].leaseEnd.Some?
       && 0 in last.clients && last.clients[0].state == Selecting
       && last.clients[0].address == first.clients[0].address != UNSPECIFIED
       && last.now > until && last.now > first.clients[0].leaseEnd.value
  }

  lemma OutlivingRun(cfg: Config, wait: real, until: real)
    requires Proper(cfg) && cfg.poolSize > 0 && wait > 0.0
    ensures exists states, actions, k :: OutlivesLease(cfg, wait, until, states, actions, k)
  {
    var mac: Mac := 1;
    var states, actions := FirstBinding(cfg, wait, mac);
    var k := |states| - 1;
    var before := states;
    var xid, at;
    states, actions, xid, at := LosesTouch(cfg, wait, mac, states, actions);
    var n := SometimeLater(at, wait, if until < cfg.leaseTime then cfg.leaseTime else until);
    states, actions := LooksOn(cfg, wait, mac, states, actions, xid, at, n + 1);
    assert states[k] == before[k];
    assert OutlivesLease(cfg, wait, until, states, actions, k);
  }

  // RFC 2131, section 4.4.5 wants a client whose lease runs out to stop using the address. This one does not, however
  // much later, in any configuration in which clients get an address at all.
  lemma KeepsAddressPastLease(cfg: Config, wait: real, until: real)
    requires Proper(cfg) && wait > 0.0
    ensures (exists states, actions, k :: OutlivesLease(cfg, wait, until, states, actions, k)) <==> cfg.poolSize > 0
  {
    if states, actions, k :| OutlivesLease(cfg, wait, until, states, actions, k) {
      AddressInUse(cfg, wait, states, actions, k, 0);
      RunKeepsInv(cfg, wait, states, actions, k);
    }
    if cfg.poolSize > 0 {
      OutlivingRun(cfg, wait, until);
    }
  }
}

/** Any number of clients and one server on a network that loses, duplicates and reorders messages. */
module DhcpNetworks {
  import opened DhcpMessages
  import opened Wrappers
  import opened DhcpServers
  import opened DhcpClients

  // One server, any number of clients, and a network that keeps every message ever sent, so that it
  // can deliver each of them to anybody at any later time, any number of times or never.
  datatype System = System(table: Table, clients: map<nat, Client>, sent: set<Message>, now: real)

  datatype Action =
    | Start(who: nat, at: real, xid: int)
    | Fire(who: nat, kind: TimerKind, at: real, xid: int)
    | Receive(who: nat, m: Message, at: real, xid: int)
    | Serve(m: Message, at: real, reply: Option<Message>)

  // The server hands out proper addresses for a positive time and has one itself.
  ghost predicate Proper(cfg: Config) {
    && cfg.leaseTime > 0.0 && cfg.serverId != UNSPECIFIED
    && forall i: nat :: i < cfg.poolSize ==> cfg.Pool(i) != UNSPECIFIED
  }

  predicate Due(c: Client, kind: TimerKind, at: real) {
    match kind
    case WaitOffer | WaitAck => c.timeout == Some(Timeout(kind, at))
    case T1 => c.t1 == Some(at)
    case T2 => c.t2 == Some(at)
    case LeaseTimeout => c.leaseEnd == Some(at)
    case StartDhcp => false
  }

  ghost predicate NoneDueBefore(c: Client, at: real) {
    forall kind, t :: Due(c, kind, t) ==> at <= t
  }

  // No message and no client uses this transaction id yet.
  ghost predicate Fresh(s: System, xid: int) {
    && (forall m :: m in s.sent ==> m.xid != xid)
    && (forall i :: i in s.clients ==> s.clients[i].xid != xid)
  }

  // Time passes up to the next event without skipping a timer.
  ghost predicate Timely(s: System, at: real) {
    s.now <= at && forall i :: i in s.clients ==> NoneDueBefore(s.clients[i], at)
  }

  // Whether an event can happen in s.
  ghost predicate Enabled(s: System, a: Action) {
    && Timely(s, a.at)
    && match a
       case Start(who, _, xid) => who in s.clients && Fresh(s, xid)
       case Fire(who, kind, at, xid) => who in s.clients && Due(s.clients[who], kind, at) && Fresh(s, xid)
       case Receive(who, m, _, xid) => who in s.clients && m in s.sent && Fresh(s, xid)
       case Serve(m, _, _) => m in s.sent
  }

  // What a client's handler makes of an event.
  function Handled(c: Client, a: Action, wait: real): (Client, Outcome)
    requires !a.Serve?
  {
    match a
    case Start(_, at, xid) => OnTimer(c, StartDhcp, at, xid, wait)
    case Fire(_, kind, at, xid) => OnTimer(c, kind, at, xid, wait)
    case Receive(_, m, at, xid) => OnMessage(c, m, at, xid, wait)
  }

  ghost predicate Next(cfg: Config, wait: real, s: System, a: Action, s': System) {
    && Enabled(s, a) && s'.now == a.at
    && if a.Serve? then
         && ServerStep(cfg, s.table, a.m, s'.table, a.reply)
         && s'.clients == s.clients
         && s'.sent == s.sent + if a.reply.Some? then {a.reply.value} else {}
       else
         var (c, outcome) := Handled(s.clients[a.who], a, wait);
         && outcome.Done? && s'.clients == s.clients[a.who := c]
         && s'.sent == s.sent + (set m | m in outcome.sent)
         && s'.table == s.table
  }

  ghost predicate Initial(s: System) {
    && s.table == map[] && s.sent == {}
    && forall i :: i in s.clients ==>
         s.clients[i] == Client(s.clients[i].mac, Init, 0, None, UNSPECIFIED, None, None, None, None)
  }

  ghost predicate Run(cfg: Config, wait: real, states: seq<System>, actions: seq<Action>) {
    && |states| == |actions| + 1 && Initial(states[0])
    && forall i :: 0 <= i < |actions| ==> Next(cfg, wait, states[i], actions[i], states[i + 1])
  }

  // ---------- what every reachable state satisfies ----------

  predicate OnRecord(t: Table, a: Address, mac: Mac) {
    a != UNSPECIFIED && a in t && t[a].mac == mac
  }

  // The timers that run are those the state needs, in the order T1, T2, end of the lease.
  predicate TimersOk(c: Client) {
    match c.state
    case Init => c.t1 == None && c.t2 == None && c.timeout == None && c.leaseEnd == None
    case InitReboot => false
    case Selecting =>
      c.t1 == None && c.t2 == None && c.timeout.Some? && c.timeout.value.kind == WaitOffer && c.leaseEnd == None
    case Requesting | Rebinding | Rebooting =>
      && c.lease.Some? && c.t1 == None && c.t2 == None && c.leaseEnd == None
      && c.timeout.Some? && c.timeout.value.kind == WaitAck
    case Bound =>
      && c.lease.Some? && c.timeout == None && c.t1.Some? && c.t2.Some? && c.leaseEnd.Some?
      && c.t1.value < c.t2.value < c.leaseEnd.value
    case Renewing =>
      && c.lease.Some? && c.t1 == None && c.t2.Some? && c.leaseEnd.Some? && c.t2.value < c.leaseEnd.value
      && c.timeout.Some? && c.timeout.value.kind == WaitAck
  }

  // A client's lease and the address it uses are on the server's record under its MAC address.
  predicate ClientOk(cfg: Config, t: Table, c: Client) {
    && TimersOk(c)
    && (c.lease.Some? ==> OnRecord(t, c.lease.value.ip, c.mac) && c.lease.value.serverId == cfg.serverId)
    && (c.address != UNSPECIFIED ==> OnRecord(t, c.address, c.mac))
  }

  predicate MessageOk(cfg: Config, t: Table, m: Message) {
    if m.op == BootRequest then
      && (m.messageType == Discover ==> m.requestedIp == UNSPECIFIED)
      && (m.messageType == Request && m.serverIdentifier != cfg.serverId ==>
            OnRecord(t, if m.ciaddr == UNSPECIFIED then m.requestedIp else m.ciaddr, m.chaddr))
    else
      m.messageType in {Offer, Ack} ==>
        OnRecord(t, m.yiaddr, m.chaddr) && m.serverIdentifier == cfg.serverId && m.times == cfg.LeaseTimes()
  }

  ghost predicate Inv(cfg: Config, s: System) {
    && TableOk(cfg, s.table)
    && (forall i :: i in s.clients ==> ClientOk(cfg, s.table, s.clients[i]))
    && (forall m :: m in s.sent ==> MessageOk(cfg, s.table, m))
    && (forall i, m :: i in s.clients && m in s.sent && m.xid == s.clients[i].xid ==> m.chaddr == s.clients[i].mac)
  }

  // ---------- one step ----------

  // A request made from a sound lease is sound, and it can be made.
  lemma RequestIsSound(cfg: Config, t: Table, c: Client)
    requires c.state in {InitReboot, Requesting, Renewing, Rebinding}
    requires c.lease.Some? && OnRecord(t, c.lease.value.ip, c.mac) && c.lease.value.serverId == cfg.serverId
    ensures var o := RequestOutcome(c);
      o.Done? && forall m :: m in o.sent ==>
        m.op == BootRequest && m.xid == c.xid && m.chaddr == c.mac && MessageOk(cfg, t, m)
  {
  }

  // A handler that does not fail, keeps the client in order, and sends only sound requests in the
  // client's name under its new transaction id.
  ghost predicate Orderly(cfg: Config, t: Table, c: Client, xid: int, c': Client, outcome: Outcome) {
    && outcome.Done? && ClientOk(cfg, t, c') && c'.mac == c.mac
    && (c'.xid == xid || (c'.xid == c.xid && outcome.sent == []))
    && forall m :: m in outcome.sent ==>
         m.op == BootRequest && m.xid == xid && m.chaddr == c.mac && MessageOk(cfg, t, m)
  }

  lemma DiscoveryIsOrderly(cfg: Config, t: Table, c: Client, now: real, xid: int, wait: real)
    requires ClientOk(cfg, t, c)
    ensures Orderly(cfg, t, c, xid, StartedOver(c, now, xid, wait), Done([DiscoverBy(c.mac, xid)]))
    ensures Orderly(cfg, t, c, xid, StartedOver(Unbound(c), now, xid, wait), Done([DiscoverBy(c.mac, xid)]))
  {
  }

  lemma TimerIsOrderly(cfg: Config, t: Table, c: Client, kind: TimerKind, now: real, xid: int, wait: real)
    requires ClientOk(cfg, t, c)
    requires kind.StartDhcp? || (Due(c, kind, now) && NoneDueBefore(c, now))
    ensures var (c', outcome) := OnTimer(c, kind, now, xid, wait); Orderly(cfg, t, c, xid, c', outcome)
    ensures kind != LeaseTimeout
  {
    if !kind.StartDhcp? {
      EarlierTimers(cfg, t, c, kind, now);
    }
    var (c', outcome) := OnTimer(c, kind, now, xid, wait);
    match kind
    case StartDhcp =>
      if c.lease.Some? {
        RequestIsSound(cfg, t, Quiet(c).(state := InitReboot, xid := xid));
      } else {
        DiscoveryIsOrderly(cfg, t, c, now, xid, wait);
      }
    case WaitOffer | WaitAck =>
      DiscoveryIsOrderly(cfg, t, c, now, xid, wait);
    case T1 =>
      RequestIsSound(cfg, t, c');
    case T2 =>
      RequestIsSound(cfg, t, c');
    case LeaseTimeout =>
  }

  // T1 goes off before T2, and T2 before the end of the lease.
  lemma EarlierTimers(cfg: Config, t: Table, c: Client, kind: TimerKind, now: real)
    requires ClientOk(cfg, t, c) && Due(c, kind, now) && NoneDueBefore(c, now)
    ensures kind != LeaseTimeout
    ensures kind == T2 ==> c.state == Renewing
    ensures kind == T1 ==> c.state == Bound
  {
    if c.t1.Some? {
      assert Due(c, T1, c.t1.value);
    }
    if c.t2.Some? {
      assert Due(c, T2, c.t2.value);
    }
  }

  lemma MessageIsOrderly(cfg: Config, t: Table, c: Client, m: Message, now: real, xid: int, wait: real)
    requires Proper(cfg) && ClientOk(cfg, t, c) && MessageOk(cfg, t, m) && (m.xid == c.xid ==> m.chaddr == c.mac)
    ensures var (c', outcome) := OnMessage(c, m, now, xid, wait); Orderly(cfg, t, c, xid, c', outcome)
  {
    DiscoveryIsOrderly(cfg, t, c, now, xid, wait);
    if Awaited(c, m) && c.state == Selecting && m.messageType == Offer {
      var (c', outcome) := OnMessage(c, m, now, xid, wait);
      RequestIsSound(cfg, t, c');
    }
  }

  lemma HandledIsOrderly(cfg: Config, wait: real, s: System, a: Action)
    requires Proper(cfg) && Inv(cfg, s) && !a.Serve? && Enabled(s, a)
    ensures var (c', outcome) := Handled(s.clients[a.who], a, wait);
      Orderly(cfg, s.table, s.clients[a.who], a.xid, c', outcome)
  {
    var c := s.clients[a.who];
    match a
    case Start(_, at, xid) => TimerIsOrderly(cfg, s.table, c, StartDhcp, at, xid, wait);
    case Fire(_, kind, at, xid) => TimerIsOrderly(cfg, s.table, c, kind, at, xid, wait);
    case Receive(_, m, at, xid) => MessageIsOrderly(cfg, s.table, c, m, at, xid, wait);
  }

  // The server's answer to a sound request goes to the client that asked.
  lemma AnswerIsSound(cfg: Config, t: Table, m: Message, t': Table, reply: Option<Message>)
    requires Proper(cfg) && TableOk(cfg, t) && MessageOk(cfg, t, m) && ServerStep(cfg, t, m, t', reply)
    ensures Sound(cfg, t, m, t', reply)
    ensures reply.Some? ==>
      reply.value.chaddr == m.chaddr && reply.value.xid == m.xid && MessageOk(cfg, t', reply.value)
  {
    if m.op == BootRequest {
      ServerIsSound(cfg, t, m, t', reply);
    }
  }

  // Leases are for ever, so what was on record stays on record.
  lemma RecordsStay(cfg: Config, t: Table, t': Table)
    requires forall a :: a in t ==> a in t' && t'[a].mac == t[a].mac
    ensures forall a, mac :: OnRecord(t, a, mac) ==> OnRecord(t', a, mac)
    ensures forall c :: ClientOk(cfg, t, c) ==> ClientOk(cfg, t', c)
    ensures forall m :: MessageOk(cfg, t, m) ==> MessageOk(cfg, t', m)
  {
  }

  lemma ServeKeepsInv(cfg: Config, wait: real, s: System, a: Action, s': System)
    requires Proper(cfg) && Inv(cfg, s) && a.Serve? && Next(cfg, wait, s, a, s')
    ensures Inv(cfg, s')
  {
    AnswerIsSound(cfg, s.table, a.m, s'.table, a.reply);
    RecordsStay(cfg, s.table, s'.table);
  }

  lemma ClientKeepsInv(cfg: Config, wait: real, s: System, a: Action, s': System)
    requires Proper(cfg) && Inv(cfg, s) && !a.Serve? && Next(cfg, wait, s, a, s')
    ensures Inv(cfg, s')
  {
    HandledIsOrderly(cfg, wait, s, a);
    var (c, outcome) := Handled(s.clients[a.who], a, wait);
    forall i, m | i in s'.clients && m in s'.sent && m.xid == s'.clients[i].xid
      ensures m.chaddr == s'.clients[i].mac
    {
      if m !in s.sent {
        assert m in outcome.sent;
      }
    }
  }

  // ---------- what every run satisfies ----------

  lemma {:induction false} RunKeepsInv(cfg: Config, wait: real, states: seq<System>, actions: seq<Action>, k: nat)
    requires Proper(cfg) && Run(cfg, wait, states, actions) && k < |states|
    ensures Inv(cfg, states[k])
  {
    if k > 0 {
      RunKeepsInv(cfg, wait, states, actions, k - 1);
      if actions[k - 1].Serve? {
        ServeKeepsInv(cfg, wait, states[k - 1], actions[k - 1], states[k]);
      } else {
        ClientKeepsInv(cfg, wait, states[k - 1], actions[k - 1], states[k]);
      }
    }
  }

  // RFC 2131, section 1.6: no address is in use by two clients at a time.
  lemma NoAddressUsedTwice(cfg: Config, wait: real, states: seq<System>, actions: seq<Action>, k: nat, i: nat, j: nat)
    requires Proper(cfg) && Run(cfg, wait, states, actions) && k < |states|
    requires i in states[k].clients && j in states[k].clients
    requires states[k].clients[i].address == states[k].clients[j].address != UNSPECIFIED
    ensures states[k].clients[i].mac == states[k].clients[j].mac
  {
    RunKeepsInv(cfg, wait, states, actions, k);
  }

  // No event that can happen in a reachable state ends in an exception.
  lemma NoEventFails(cfg: Config, wait: real, states: seq<System>, actions: seq<Action>, k: nat, a: Action)
    requires Proper(cfg) && Run(cfg, wait, states, actions) && k < |states| && !a.Serve? && Enabled(states[k], a)
    ensures Handled(states[k].clients[a.who], a, wait).1.Done?
  {
    RunKeepsInv(cfg, wait, states, actions, k);
    HandledIsOrderly(cfg, wait, states[k], a);
  }

  // A client that has been started always has a timer running, and exactly those its state needs.
  lemma NeverStuck(cfg: Config, wait: real, states: seq<System>, actions: seq<Action>, k: nat, i: nat)
    requires Proper(cfg) && Run(cfg, wait, states, actions) && k < |states| && i in states[k].clients
    ensures TimersOk(states[k].clients[i])
    ensures states[k].clients[i].state != Init ==> exists kind, t :: Due(states[k].clients[i], kind, t)
  {
    RunKeepsInv(cfg, wait, states, actions, k);
    var c := states[k].clients[i];
    if c.timeout.Some? {
      assert Due(c, c.timeout.value.kind, c.timeout.value.at);
    } else if c.t1.Some? {
      assert Due(c, T1, c.t1.value);
    }
  }

  // The lease timer never goes off: T2 comes first and stops it for good.
  lemma LeaseTimerNeverFires(cfg: Config, wait: real, states: seq<System>, actions: seq<Action>, k: nat, a: Action)
    requires Proper(cfg) && Run(cfg, wait, states, actions) && k < |states| && Enabled(states[k], a)
    ensures !(a.Fire? && a.kind == LeaseTimeout)
  {
    RunKeepsInv(cfg, wait, states, actions, k);
    if a.Fire? {
      EarlierTimers(cfg, states[k].table, states[k].clients[a.who], a.kind, a.at);
    }
  }

  // A client uses an address only while it holds a lease for one, and the lease is on record for it.
  // Outside BOUND and RENEWING nothing limits how long: no lease timer runs.
  lemma AddressInUse(cfg: Config, wait: real, states: seq<System>, actions: seq<Action>, k: nat, i: nat)
    requires Proper(cfg) && Run(cfg, wait, states, actions) && k < |states| && i in states[k].clients
    requires states[k].clients[i].address != UNSPECIFIED
    ensures OnRecord(states[k].table, states[k].clients[i].address, states[k].clients[i].mac)
    ensures states[k].clients[i].leaseEnd.Some? <==> states[k].clients[i].state in {Bound, Renewing}
  {
    RunKeepsInv(cfg, wait, states, actions, k);
  }

  lemma OfferAnswersDiscover(cfg: Config, t: Table, mac: Mac, xid: int, t': Table, offer: Message)
    requires TableOk(cfg, t) && ServerStep(cfg, t, DiscoverBy(mac, xid), t', Some(offer))
    ensures offer.op == BootReply && offer.messageType == Offer
            && offer.xid == xid && offer.serverIdentifier == cfg.serverId
    ensures TableOk(cfg, t') && offer.yiaddr in t' && t'[offer.yiaddr].mac == mac
  {
    ServerIsSound(cfg, t, DiscoverBy(mac, xid), t', Some(offer));
  }

  lemma OfferedIsGranted(cfg: Config, t: Table, mac: Mac, xid: int, a: Address, t': Table, reply: Option<Message>)
    requires TableOk(cfg, t) && a in t && t[a].mac == mac
    requires ServerStep(cfg, t, RequestBy(mac, xid, cfg.serverId, a, UNSPECIFIED), t', reply)
    ensures a in t' && t'[a].mac == mac && t'[a].ip == a && t'[a].xid == xid && reply == Some(AckFor(cfg, t'[a]))
  {
  }

  // Without losses four messages configure a client: whatever the table, once the server offers an
  // address, the client asks for it, gets it acknowledged, and uses it.
  lemma FourMessagesBind(cfg: Config, t: Table, c: Client, now: real, wait: real, x1: int, x2: int, x3: int,
                         t1: Table, offer: Message, t2: Table, reply: Option<Message>)
    requires Proper(cfg) && TableOk(cfg, t)
    requires ServerStep(cfg, t, DiscoverBy(c.mac, x1), t1, Some(offer))
    requires ServerStep(cfg, t1, RequestBy(c.mac, x2, cfg.serverId, offer.yiaddr, UNSPECIFIED), t2, reply)
    ensures var (c1, o) := OnMessage(StartedOver(c, now, x1, wait), offer, now, x2, wait);
      && o == Done([RequestBy(c.mac, x2, cfg.serverId, offer.yiaddr, UNSPECIFIED)])
      && reply.Some?
      && var c2 := OnMessage(c1, reply.value, now, x3, wait).0;
         c2.state == Bound && c2.address == offer.yiaddr && OnRecord(t2, offer.yiaddr, c.mac)
  {
    OfferAnswersDiscover(cfg, t, c.mac, x1, t1, offer);
    OfferedIsGranted(cfg, t1, c.mac, x2, offer.yiaddr, t2, reply);
  }
}

/** Requests and answers by their fields, and that an answer binds the client that asked. */
module DhcpRenewals {
  import opened DhcpMessages
  import opened Wrappers
  import opened DhcpServers
  import opened DhcpClients
  import opened DhcpNetworks
  import opened DhcpLeaseEnds
  import opened DhcpProgress

  // ---------- what the server answers ----------

  // The tables are the same but for the transaction id of one record.
  predicate OnlyXid(t: Table, t': Table, a: Address, xid: int) {
    && a in t && t'.Keys == t.Keys && (forall b :: b in t && b != a ==> t'[b] == t[b])
    && t'[a].xid == xid && t'[a].ip == t[a].ip && t'[a].mac == t[a].mac && t'[a].leased == t[a].leased
  }

  // Address a is on record for the client now; other records are as before.
  predicate IsRecorded(t: Table, t': Table, a: Address, mac: Mac) {
    && t'.Keys == t.Keys + {a} && (forall b :: b in t && b != a ==> t'[b] == t[b])
    && t'[a].mac == mac && t'[a].leased && t'[a].ip == a
  }

  // m acknowledges address a.
  predicate Acknowledges(cfg: Config, m: Message, a: Address, mac: Mac, xid: int) {
    && m.op == BootReply && m.messageType == Ack && m.yiaddr == a && m.chaddr == mac && m.xid == xid
    && m.ciaddr == a && m.requestedIp == UNSPECIFIED && m.serverIdentifier == cfg.serverId && GrantsTimes(cfg, m)
  }

  // m offers address a.
  predicate Offers(cfg: Config, m: Message, a: Address, mac: Mac, xid: int) {
    && m.op == BootReply && m.messageType == Offer && m.yiaddr == a && m.chaddr == mac && m.xid == xid
    && m.ciaddr == UNSPECIFIED && m.requestedIp == UNSPECIFIED && m.serverIdentifier == cfg.serverId
    && GrantsTimes(cfg, m)
  }

  predicate GrantsTimes(cfg: Config, m: Message) {
    && m.times.lease == cfg.leaseTime
    && m.times.renewal == cfg.leaseTime * 0.5 && m.times.rebinding == cfg.leaseTime * 0.875
  }

  predicate Refuses(cfg: Config, m: Message, xid: int, mac: Mac) {
    && m.op == BootReply && m.messageType == Nak && m.xid == xid && m.chaddr == mac
    && m.ciaddr == m.yiaddr == m.requestedIp == UNSPECIFIED && m.serverIdentifier == cfg.serverId
  }

  // A renewal is always answered: with an acknowledgement if and only if the address in it is on record.
  lemma RenewalIsAnswered(cfg: Config, t: Table, m: Message, t': Table, reply: Option<Message>)
    requires TableOk(cfg, t) && ServerStep(cfg, t, m, t', reply)
    requires m.op == BootRequest && m.messageType == Request
    requires m.serverIdentifier != cfg.serverId && m.ciaddr != UNSPECIFIED
    ensures reply.Some? && reply.value.messageType in {Ack, Nak} && (reply.value.messageType == Ack <==> m.ciaddr in t)
    ensures m.ciaddr in t ==>
      Acknowledges(cfg, reply.value, m.ciaddr, t[m.ciaddr].mac, m.xid) && OnlyXid(t, t', m.ciaddr, m.xid)
    ensures m.ciaddr !in t ==> Refuses(cfg, reply.value, m.xid, m.chaddr) && t' == t
  {
  }

  // So is a request in response to an offer: with an acknowledgement if and only if the address in it is on record for
  // the client.
  lemma SelectionIsAnswered(cfg: Config, t: Table, m: Message, t': Table, reply: Option<Message>)
    requires TableOk(cfg, t) && ServerStep(cfg, t, m, t', reply)
    requires m.op == BootRequest && m.messageType == Request && m.serverIdentifier == cfg.serverId
    ensures reply.Some? && reply.value.messageType in {Ack, Nak}
    ensures reply.value.messageType == Ack <==> m.requestedIp in t && t[m.requestedIp].mac == m.chaddr
    ensures reply.value.messageType == Ack ==>
      Acknowledges(cfg, reply.value, m.requestedIp, m.chaddr, m.xid) && OnlyXid(t, t', m.requestedIp, m.xid)
    ensures reply.value.messageType == Nak ==> Refuses(cfg, reply.value, m.xid, m.chaddr) && t' == t
  {
  }

  // A request to verify an address is answered if and only if there is a record, and then acknowledged.
  lemma RebootIsAnswered(cfg: Config, t: Table, m: Message, t': Table, reply: Option<Message>)
    requires TableOk(cfg, t) && ServerStep(cfg, t, m, t', reply)
    requires m.op == BootRequest && m.messageType == Request
    requires m.serverIdentifier != cfg.serverId && m.ciaddr == UNSPECIFIED
    ensures reply.Some? <==> m.requestedIp in t
    ensures reply.Some? ==>
      && Acknowledges(cfg, reply.value, m.requestedIp, t[m.requestedIp].mac, m.xid)
      && OnlyXid(t, t', m.requestedIp, m.xid)
    ensures reply == None ==> t' == t
  {
    RebootIsNeverRefused(cfg, t, m, t', reply);
  }

  // The i-th address of the pool is a, and all before it are on record.
  predicate IsFirstUnknown(cfg: Config, t: Table, i: nat, a: Address) {
    i < cfg.poolSize && cfg.Pool(i) == a && forall j: nat :: j < i ==> cfg.Pool(j) in t
  }

  // A client with a lease is offered that one, whatever it asks for.
  lemma LeaseIsOffered(cfg: Config, t: Table, m: Message, t': Table, reply: Option<Message>)
    requires TableOk(cfg, t) && ServerStep(cfg, t, m, t', reply)
    requires m.op == BootRequest && m.messageType == Discover && HasLease(t, m.chaddr)
    ensures reply.Some? && var a := reply.value.yiaddr;
      && Offers(cfg, reply.value, a, m.chaddr, m.xid) && a in t && t[a].mac == m.chaddr && OnlyXid(t, t', a, m.xid)
  {
  }

  // A client without one that asks for no address is offered the first free one of the pool, which is then on record
  // for it; if there is none, it gets no answer.
  lemma FreeAddressIsOffered(cfg: Config, t: Table, m: Message, t': Table, reply: Option<Message>)
    requires TableOk(cfg, t) && ServerStep(cfg, t, m, t', reply)
    requires m.op == BootRequest && m.messageType == Discover && m.requestedIp == UNSPECIFIED
    requires !HasLease(t, m.chaddr)
    ensures reply.Some? <==> HasRoom(cfg, t)
    ensures reply == None ==> t' == t
    ensures reply.Some? ==> var a := reply.value.yiaddr;
      && Offers(cfg, reply.value, a, m.chaddr, m.xid) && a !in t && (exists i: nat :: IsFirstUnknown(cfg, t, i, a))
      && IsRecorded(t, t', a, m.chaddr)
  {
    if reply.Some? {
      var a := reply.value.yiaddr;
      assert IsFirstFree(cfg, t, Some(a));
      var i: nat :| i < cfg.poolSize && cfg.Pool(i) == a && forall j: nat :: j < i ==> Taken(t, cfg.Pool(j));
      assert IsFirstUnknown(cfg, t, i, a);
    }
  }

  // A client without a lease gets the address it asks for, whoever had it.
  lemma WishIsGranted(cfg: Config, t: Table, m: Message, t': Table, reply: Option<Message>)
    requires TableOk(cfg, t) && ServerStep(cfg, t, m, t', reply)
    requires m.op == BootRequest && m.messageType == Discover && m.requestedIp != UNSPECIFIED
    requires !HasLease(t, m.chaddr)
    ensures reply.Some? && Offers(cfg, reply.value, m.requestedIp, m.chaddr, m.xid)
    ensures IsRecorded(t, t', m.requestedIp, m.chaddr)
  {
  }

  // Any other message changes nothing and gets no answer.
  lemma OthersAreIgnored(cfg: Config, t: Table, m: Message, t': Table, reply: Option<Message>)
    requires ServerStep(cfg, t, m, t', reply)
    requires m.op != BootRequest || m.messageType !in {Discover, Request}
    ensures t' == t && reply == None
  {
  }

  // ---------- what the client asks for ----------

  // m asks for the lease of c in the way of its state (RFC 2131, section 4.3.6, Table 4).
  predicate AsksFor(c: Client, m: Message) {
    && m.op == BootRequest && m.messageType == Request && m.xid == c.xid && m.chaddr == c.mac && c.lease.Some?
    && m.yiaddr == UNSPECIFIED
    && match c.state
       case Requesting =>
         m.serverIdentifier == c.lease.value.serverId && m.requestedIp == c.lease.value.ip && m.ciaddr == UNSPECIFIED
       case Rebooting =>
         m.serverIdentifier == UNSPECIFIED && m.requestedIp == c.lease.value.ip && m.ciaddr == UNSPECIFIED
       case Renewing | Rebinding =>
         m.serverIdentifier == UNSPECIFIED && m.requestedIp == UNSPECIFIED && m.ciaddr == c.lease.value.ip
       case _ => false
  }

  predicate IsWaiting(c: Client) {
    c.state in {Requesting, Rebooting, Renewing, Rebinding}
  }

  lemma WaitingAsks(c: Client, a: Action, wait: real)
    requires !a.Serve? && (a.Fire? ==> a.kind != StartDhcp)
    requires IsWaiting(Handled(c, a, wait).0) && Handled(c, a, wait).1.Done?
    ensures var (c', outcome) := Handled(c, a, wait);
      c' == c || (outcome.sent != [] && AsksFor(c', outcome.sent[0])) || (a.Fire? && !Due(c, a.kind, a.at))
  {
  }

  ghost predicate HasAsked(s: System, c: Client) {
    exists m :: m in s.sent && AsksFor(c, m)
  }

  // In every reachable state a client that waits for an answer has sent a request for its lease.
  lemma {:induction false} RequestIsSent(cfg: Config, wait: real, states: seq<System>, actions: seq<Action>, k: nat,
                                        i: nat)
    requires Run(cfg, wait, states, actions) && k < |states| && i in states[k].clients
    requires IsWaiting(states[k].clients[i])
    ensures HasAsked(states[k], states[k].clients[i])
  {
    assert k > 0;
    var s, a := states[k - 1], actions[k - 1];
    assert Next(cfg, wait, s, a, states[k]);
    if !a.Serve? && a.who == i {
      WaitingAsks(s.clients[i], a, wait);
    }
    if states[k].clients[i] == s.clients[i] {
      RequestIsSent(cfg, wait, states, actions, k - 1, i);
    } else {
      var outcome := Handled(s.clients[i], a, wait).1;
      assert outcome.sent[0] in outcome.sent;
    }
  }

  // ---------- what messages and timers do to the client ----------

  // A message brings a client with a lease to BOUND if and only if it is an acknowledgement that the client waits for.
  // Then the address of the lease is configured, no response is waited for, nothing is sent, and T1, T2 and the lease
  // timer run for the times in the message.
  lemma AcknowledgementBinds(c: Client, m: Message, now: real, xid: int, wait: real)
    requires c.lease.Some? && Awaited(c, m)
    ensures var (c', outcome) := OnMessage(c, m, now, xid, wait);
      && (c'.state == Bound && c.state != Bound <==> m.messageType == Ack && IsWaiting(c))
      && (m.messageType == Ack && IsWaiting(c) ==>
            && c'.lease.Some? && c'.address == c'.lease.value.ip == c.lease.value.ip
            && c'.lease.value.serverId == c.lease.value.serverId && c'.xid == c.xid && c'.mac == c.mac
            && c'.timeout == None && outcome == Done([])
            && (m.yiaddr != UNSPECIFIED ==>
                  && c'.t1 == Some(now + m.times.renewal) && c'.t2 == Some(now + m.times.rebinding)
                  && c'.leaseEnd == Some(now + m.times.lease)))
  {
  }

  // The offer of an address makes a client that looks for a server ask for it.
  lemma OfferIsTaken(c: Client, m: Message, now: real, xid: int, wait: real)
    requires Awaited(c, m) && c.state == Selecting && m.messageType == Offer && m.yiaddr != UNSPECIFIED
    ensures var (c', outcome) := OnMessage(c, m, now, xid, wait);
      && c'.state == Requesting && c'.xid == xid && c'.mac == c.mac && c'.address == c.address
      && c'.lease.Some? && c'.lease.value.ip == m.yiaddr && c'.lease.value.serverId == m.serverIdentifier
      && c'.timeout == Some(Timeout(WaitAck, now + wait))
      && outcome.Done? && |outcome.sent| == 1 && AsksFor(c', outcome.sent[0])
  {
  }

  // m looks for a server.
  predicate Discovers(m: Message, mac: Mac, xid: int) {
    && m.op == BootRequest && m.messageType == Discover && m.xid == xid && m.chaddr == mac
    && m.ciaddr == m.yiaddr == m.requestedIp == m.serverIdentifier == UNSPECIFIED
  }

  // The client looks for a server, with no timer but the one for the offer.
  predicate LooksFrom(c: Client, now: real, xid: int, wait: real, outcome: Outcome) {
    && c.state == Selecting && c.xid == xid && c.t1 == None && c.t2 == None && c.leaseEnd == None
    && c.timeout == Some(Timeout(WaitOffer, now + wait))
    && outcome.Done? && |outcome.sent| == 1 && Discovers(outcome.sent[0], c.mac, xid)
  }

  // A refusal that the client waits for makes it start over, and give up the address it has, except in REQUESTING.
  lemma RefusalStartsOver(c: Client, m: Message, now: real, xid: int, wait: real)
    requires Awaited(c, m) && m.messageType == Nak
    ensures var (c', outcome) := OnMessage(c, m, now, xid, wait);
      && (IsWaiting(c) ==> LooksFrom(c', now, xid, wait, outcome) && c'.mac == c.mac && c'.lease == c.lease)
      && (c.state in {Rebooting, Renewing, Rebinding} ==> c'.address == UNSPECIFIED)
      && (c.state == Requesting ==> c'.address == c.address)
      && (!IsWaiting(c) ==> c' == c && outcome == Done([]))
  {
  }

  // Everything else that arrives, but for the offer that a client looks for, changes nothing.
  lemma OthersAreDropped(c: Client, m: Message, now: real, xid: int, wait: real)
    requires m.op != BootReply || m.xid != c.xid
          || !((m.messageType == Offer && c.state == Selecting) || (m.messageType in {Ack, Nak} && IsWaiting(c)))
    ensures OnMessage(c, m, now, xid, wait) == (c, Done([]))
  {
  }

  // A start makes a client ask for a lease it knows, and look for a server if it knows none.
  lemma StartResumes(c: Client, now: real, xid: int, wait: real)
    ensures var (c', outcome) := OnTimer(c, StartDhcp, now, xid, wait);
      && c'.mac == c.mac && c'.lease == c.lease && c'.address == c.address
      && (c.lease.Some? ==>
            && c'.state == Rebooting && c'.xid == xid && c'.timeout == Some(Timeout(WaitAck, now + wait))
            && c'.t1 == None && c'.t2 == None && c'.leaseEnd == None
            && outcome.Done? && |outcome.sent| == 1 && AsksFor(c', outcome.sent[0]))
      && (c.lease == None ==> LooksFrom(c', now, xid, wait, outcome))
  {
  }

  // A response that does not come makes a client start over with the address and the lease it has.
  lemma SilenceStartsOver(c: Client, kind: TimerKind, now: real, xid: int, wait: real)
    requires kind in {WaitOffer, WaitAck}
    ensures var (c', outcome) := OnTimer(c, kind, now, xid, wait);
      LooksFrom(c', now, xid, wait, outcome) && c'.mac == c.mac && c'.lease == c.lease && c'.address == c.address
  {
  }

  // T1 in BOUND and T2 in RENEWING make a client with a lease ask for it again and keep its address; T2 stops the lease
  // timer.
  lemma RenewalTimersAsk(c: Client, kind: TimerKind, now: real, xid: int, wait: real)
    requires c.lease.Some? && ((kind == T1 && c.state == Bound) || (kind == T2 && c.state == Renewing))
    ensures var (c', outcome) := OnTimer(c, kind, now, xid, wait);
      && c'.state == (if kind == T1 then Renewing else Rebinding) && c'.xid == xid && c'.t1 == None
      && c'.timeout == Some(Timeout(WaitAck, now + wait))
      && c'.t2 == (if kind == T1 then c.t2 else None) && c'.leaseEnd == (if kind == T1 then c.leaseEnd else None)
      && c'.mac == c.mac && c'.lease == c.lease && c'.address == c.address
      && outcome.Done? && |outcome.sent| == 1 && AsksFor(c', outcome.sent[0])
  {
  }

  // The end of a lease makes a client start over without the address.
  lemma LeaseEndStartsOver(c: Client, now: real, xid: int, wait: real)
    ensures var (c', outcome) := OnTimer(c, LeaseTimeout, now, xid, wait);
      LooksFrom(c', now, xid, wait, outcome) && c'.address == UNSPECIFIED && c'.mac == c.mac && c'.lease == c.lease
  {
  }

  // ---------- what is in use is leased ----------

  predicate UsesLease(c: Client) {
    c.state in {Bound, Renewing, Rebinding} ==> c.lease.Some? && c.address == c.lease.value.ip
  }

  lemma EventKeepsUse(c: Client, a: Action, wait: real)
    requires !a.Serve? && UsesLease(c) && TimersOk(c) && (a.Fire? ==> Due(c, a.kind, a.at))
    requires Handled(c, a, wait).1.Done?
    ensures UsesLease(Handled(c, a, wait).0)
  {
  }

  lemma {:induction false} AddressIsLeased(cfg: Config, wait: real, states: seq<System>, actions: seq<Action>, k: nat,
                                          i: nat)
    requires Proper(cfg) && Run(cfg, wait, states, actions) && k < |states| && i in states[k].clients
    ensures UsesLease(states[k].clients[i])
  {
    if k > 0 {
      var s, a := states[k - 1], actions[k - 1];
      assert Next(cfg, wait, s, a, states[k]);
      AddressIsLeased(cfg, wait, states, actions, k - 1, i);
      if !a.Serve? && a.who == i {
        NeverStuck(cfg, wait, states, actions, k - 1, i);
        EventKeepsUse(s.clients[i], a, wait);
      }
    }
  }

  // ---------- an answer at once ----------

  // In s the client is bound to the lease it had before, for a whole lease time.
  predicate BoundTo(cfg: Config, before: Client, s: System, i: nat) {
    && i in s.clients && before.lease.Some?
    && s.clients[i].state == Bound && s.clients[i].address == before.lease.value.ip
    && s.clients[i].leaseEnd == Some(s.now + cfg.leaseTime)
  }

  // The request of a client reaches the server and its acknowledgement the client, with the clock standing still.
  ghost predicate BindsAtOnce(cfg: Config, wait: real, states: seq<System>, actions: seq<Action>, i: nat)
    requires states != [] && i in Last(states).clients
  {
    exists more: seq<System>, next: seq<Action> ::
      && GoesOn(cfg, wait, states, actions, more, next) && |next| == |actions| + 2
      && next[|actions|].Serve? && next[|actions| + 1].Receive? && next[|actions| + 1].who == i
      && Last(more).now == Last(states).now && BoundTo(cfg, Last(states).clients[i], Last(more), i)
  }

  // The server has an acknowledgement for every request on record.
  lemma RequestIsGranted(cfg: Config, t: Table, c: Client, m: Message) returns (t': Table, ack: Message)
    requires Proper(cfg) && TableOk(cfg, t) && IsWaiting(c) && AsksFor(c, m)
    requires OnRecord(t, c.lease.value.ip, c.mac) && c.lease.value.serverId == cfg.serverId
    ensures ServerStep(cfg, t, m, t', Some(ack)) && Acknowledges(cfg, ack, c.lease.value.ip, c.mac, c.xid)
  {
    var a := c.lease.value.ip;
    OnlyLease(cfg, t, a);
    EveryAddressSharesItsNetwork(a, cfg.subnetMask);
    t' := t[a := t[a].(xid := m.xid, leased := true)];
    ack := AckFor(cfg, t'[a]);
  }

  // An acknowledgement that was sent binds its client at once.
  lemma AcknowledgementArrives(cfg: Config, wait: real, states: seq<System>, actions: seq<Action>, i: nat, ack: Message)
    returns (s: System, a: Action)
    requires Proper(cfg) && wait >= 0.0 && Run(cfg, wait, states, actions) && i in Last(states).clients
    requires ack in Last(states).sent
    requires var c := Last(states).clients[i];
      && IsWaiting(c) && c.lease.Some? && c.lease.value.ip != UNSPECIFIED
      && Acknowledges(cfg, ack, c.lease.value.ip, c.mac, c.xid)
    ensures Run(cfg, wait, states + [s], actions + [a]) && a.Receive? && a.who == i && s.now == Last(states).now
    ensures BoundTo(cfg, Last(states).clients[i], s, i)
  {
    var xid;
    s, a, xid := Delivered(cfg, wait, states, actions, i, ack);
    AcknowledgementBinds(Last(states).clients[i], ack, s.now, xid, wait);
  }

  // What is acknowledged at once reaches the client at once.
  lemma AcknowledgedBindsAtOnce(cfg: Config, wait: real, states: seq<System>, actions: seq<Action>, i: nat, m: Message,
                                table: Table, ack: Message)
    requires Proper(cfg) && wait >= 0.0 && Run(cfg, wait, states, actions) && i in Last(states).clients
    requires m in Last(states).sent && ServerStep(cfg, Last(states).table, m, table, Some(ack))
    requires var c := Last(states).clients[i];
      && IsWaiting(c) && c.lease.Some? && c.lease.value.ip != UNSPECIFIED
      && Acknowledges(cfg, ack, c.lease.value.ip, c.mac, c.xid)
    ensures BindsAtOnce(cfg, wait, states, actions, i)
  {
    var s1, a1 := Served(cfg, wait, states, actions, m, table, ack);
    var middle, past := states + [s1], actions + [a1];
    var s2, a2 := AcknowledgementArrives(cfg, wait, middle, past, i, ack);
    var more, next := middle + [s2], past + [a2];
    assert GoesOn(cfg, wait, states, actions, more, next);
    assert next[|actions|] == a1 && next[|actions| + 1] == a2 && Last(more) == s2;
  }

  // From every reachable state in which a client waits for an answer to its request, one step of the server and one
  // of the client bind it: with the address of its lease, which is the one it uses if it renews or rebinds, and for the
  // whole time of a lease from then on.
  lemma WaitingBindsAtOnce(cfg: Config, wait: real, states: seq<System>, actions: seq<Action>, i: nat)
    requires Proper(cfg) && wait >= 0.0 && Run(cfg, wait, states, actions) && i in Last(states).clients
    requires IsWaiting(Last(states).clients[i])
    ensures BindsAtOnce(cfg, wait, states, actions, i)
    ensures var c := Last(states).clients[i];
      c.state in {Renewing, Rebinding} ==> c.lease.Some? && c.address == c.lease.value.ip
  {
    var c := Last(states).clients[i];
    RunKeepsInv(cfg, wait, states, actions, |states| - 1);
    AddressIsLeased(cfg, wait, states, actions, |states| - 1, i);
    RequestIsSent(cfg, wait, states, actions, |states| - 1, i);
    var m :| m in Last(states).sent && AsksFor(c, m);
    var table, ack := RequestIsGranted(cfg, Last(states).table, c, m);
    AcknowledgedBindsAtOnce(cfg, wait, states, actions, i, m, table, ack);
  }
}

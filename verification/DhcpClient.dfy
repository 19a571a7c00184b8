/** The DHCP client: states, timers, and what messages do (RFC 2131, section 4.4). */
module DhcpClients {
  import opened DhcpMessages
  import opened Wrappers

  // RFC 2131, Figure 5.
  datatype ClientState = Init | InitReboot | Rebooting | Selecting | Requesting | Bound | Renewing | Rebinding

  datatype TimerKind = WaitOffer | WaitAck | T1 | T2 | LeaseTimeout | StartDhcp

  datatype ClientLease = ClientLease(ip: Address, serverId: Address, times: Times)

  datatype Timeout = Timeout(kind: TimerKind, at: real)

  datatype Error = T2InWrongState | InvalidState | NoLease | UnknownTimer

  // What a handler sends, or the exception it ends with.
  datatype Outcome = Done(sent: seq<Message>) | Failed(error: Error)

  // A snapshot of a client: its state, the address of its interface, and when its timers are due.
  datatype Client = Client(
    mac: Mac,
    state: ClientState,
    xid: int,
    lease: Option<ClientLease>,
    address: Address,
    t1: Option<real>,
    t2: Option<real>,
    timeout: Option<Timeout>,
    leaseEnd: Option<real>
  )

  // ---------- the specification of the client ----------

  function DiscoverBy(mac: Mac, xid: int): Message {
    Message(BootRequest, Discover, xid, mac, UNSPECIFIED, UNSPECIFIED, UNSPECIFIED, UNSPECIFIED, NO_TIMES)
  }

  function RequestBy(mac: Mac, xid: int, server: Address, wanted: Address, current: Address): Message {
    Message(BootRequest, Request, xid, mac, current, UNSPECIFIED, server, wanted, NO_TIMES)
  }

  // Which fields a request carries depends on the state, RFC 2131, section 4.3.6, Table 4.
  function RequestOutcome(c: Client): Outcome {
    match c.state
    case InitReboot => if c.lease == None then Failed(NoLease)
                       else Done([RequestBy(c.mac, c.xid, UNSPECIFIED, c.lease.value.ip, UNSPECIFIED)])
    case Requesting => if c.lease == None then Failed(NoLease)
                       else Done([RequestBy(c.mac, c.xid, c.lease.value.serverId, c.lease.value.ip, UNSPECIFIED)])
    case Renewing | Rebinding => if c.lease == None then Failed(NoLease)
                                 else Done([RequestBy(c.mac, c.xid, UNSPECIFIED, UNSPECIFIED, c.lease.value.ip)])
    case _ => Failed(InvalidState)
  }

  function Quiet(c: Client): Client {
    c.(t1 := None, t2 := None, timeout := None, leaseEnd := None)
  }

  // Discovery from scratch: no timer but the one for the offer.
  function StartedOver(c: Client, now: real, xid: int, wait: real): Client {
    Quiet(c).(state := Selecting, xid := xid, timeout := Some(Timeout(WaitOffer, now + wait)))
  }

  function Unbound(c: Client): Client {
    Quiet(c).(address := UNSPECIFIED)
  }

  function RecordedTimes(lease: ClientLease, m: Message): ClientLease {
    if m.yiaddr != UNSPECIFIED then lease.(times := m.times) else lease
  }

  // The lease is acknowledged: its address is configured and its three timers run.
  function Granted(c: Client, m: Message, now: real): Client
    requires c.lease.Some?
  {
    var lease := RecordedTimes(c.lease.value, m);
    c.(state := Bound, lease := Some(lease), address := lease.ip, timeout := None,
       t1 := Some(now + lease.times.renewal), t2 := Some(now + lease.times.rebinding),
       leaseEnd := Some(now + lease.times.lease))
  }

  function WithOffer(c: Client, m: Message): Client {
    if m.yiaddr == UNSPECIFIED then c
    else c.(lease := Some(ClientLease(m.yiaddr, m.serverIdentifier, NO_TIMES)))
  }

  function Expired(c: Client, kind: TimerKind): Client {
    match kind
    case WaitOffer | WaitAck => c.(timeout := None)
    case T1 => c.(t1 := None)
    case T2 => c.(t2 := None)
    case LeaseTimeout => c.(leaseEnd := None)
    case StartDhcp => c
  }

  // The client after a timer has gone off, and what it sends then. The start timer stands for a
  // (re)start: all timers have been stopped.
  function OnTimer(c: Client, kind: TimerKind, now: real, xid: int, wait: real): (Client, Outcome) {
    match kind
    case StartDhcp =>
      if c.lease.Some? then
        var r := Quiet(c).(state := InitReboot, xid := xid);
        (r.(state := Rebooting, timeout := Some(Timeout(WaitAck, now + wait))), RequestOutcome(r))
      else
        (StartedOver(c, now, xid, wait), Done([DiscoverBy(c.mac, xid)]))
    case WaitOffer | WaitAck =>
      (StartedOver(c, now, xid, wait), Done([DiscoverBy(c.mac, xid)]))
    case T1 =>
      var r := Expired(c, T1).(state := Renewing, xid := xid, timeout := Some(Timeout(WaitAck, now + wait)));
      (r, RequestOutcome(r))
    case T2 =>
      if c.state != Renewing then (Expired(c, T2), Failed(T2InWrongState))
      else
        var r := Quiet(c).(state := Rebinding, xid := xid, timeout := Some(Timeout(WaitAck, now + wait)));
        (r, RequestOutcome(r))
    case LeaseTimeout =>
      (StartedOver(Unbound(c), now, xid, wait), Done([DiscoverBy(c.mac, xid)]))
  }

  predicate Awaited(c: Client, m: Message) {
    m.op == BootReply && m.xid == c.xid
  }

  // The client after a message, and what it sends then; a message that is not awaited changes nothing.
  function OnMessage(c: Client, m: Message, now: real, xid: int, wait: real): (Client, Outcome) {
    if !Awaited(c, m) then (c, Done([]))
    else if c.state == Selecting && m.messageType == Offer then
      var r := WithOffer(c, m).(state := Requesting, xid := xid, timeout := Some(Timeout(WaitAck, now + wait)));
      (r, RequestOutcome(r))
    else if c.state in {Requesting, Renewing, Rebinding, Rebooting} && m.messageType == Ack then
      if c.lease == None then (c, Failed(NoLease)) else (Granted(c, m, now), Done([]))
    else if c.state == Requesting && m.messageType == Nak then
      (StartedOver(c, now, xid, wait), Done([DiscoverBy(c.mac, xid)]))
    else if c.state in {Renewing, Rebinding, Rebooting} && m.messageType == Nak then
      (StartedOver(Unbound(c), now, xid, wait), Done([DiscoverBy(c.mac, xid)]))
    else (c, Done([]))
  }

  // The messages that end in an exception: an offer without an address, or an acknowledgement, when there is no
  // lease that it could be for.
  lemma MessageFails(c: Client, m: Message, now: real, xid: int, wait: real)
    ensures OnMessage(c, m, now, xid, wait).1.Failed? <==>
      && Awaited(c, m) && c.lease == None
      && if c.state == Selecting then m.messageType == Offer && m.yiaddr == UNSPECIFIED
         else c.state in {Requesting, Renewing, Rebinding, Rebooting} && m.messageType == Ack
  {
  }

  // An offer always moves a selecting client on, even one without an address: then the client asks for the address
  // of an earlier lease, or fails if there is none.
  lemma OfferMovesOn(c: Client, m: Message, now: real, xid: int, wait: real)
    requires c.state == Selecting && Awaited(c, m) && m.messageType == Offer
    ensures var (c', outcome) := OnMessage(c, m, now, xid, wait);
      && c'.state == Requesting
      && (outcome.Failed? <==> m.yiaddr == UNSPECIFIED && c.lease == None)
      && (m.yiaddr == UNSPECIFIED && c.lease.Some? ==>
            outcome == Done([RequestBy(c.mac, xid, c.lease.value.serverId, c.lease.value.ip, UNSPECIFIED)]))
  {
  }

  // ---------- the client ----------

  class DHCPClient {
    const macAddress: Mac
    const responseTimeout: real

    var clientState: ClientState
    var xid: int
    var lease: Option<ClientLease>
    var ieAddress: Address
    var timerT1: Option<real>
    var timerT2: Option<real>
    var timerTo: Option<Timeout>
    var leaseTimer: Option<real>

    constructor (mac: Mac, responseTimeout: real)
      ensures View() == Client(mac, Init, 0, None, UNSPECIFIED, None, None, None, None)
      ensures this.responseTimeout == responseTimeout
    {
      macAddress, this.responseTimeout := mac, responseTimeout;
      clientState, xid, lease, ieAddress := Init, 0, None, UNSPECIFIED;
      timerT1, timerT2, timerTo, leaseTimer := None, None, None, None;
    }

    ghost function View(): Client
      reads this
    {
      Client(macAddress, clientState, xid, lease, ieAddress, timerT1, timerT2, timerTo, leaseTimer)
    }

    method CancelTimers()
      modifies this
      ensures View() == Quiet(old(View()))
    {
      timerT1, timerT2, timerTo, leaseTimer := None, None, None, None;
    }

    method ScheduleTimerTO(kind: TimerKind, now: real)
      modifies `timerTo
      ensures timerTo == Some(Timeout(kind, now + responseTimeout))
    {
      timerTo := None;
      timerTo := Some(Timeout(kind, now + responseTimeout));
    }

    method SendDiscover(freshXid: int) returns (outcome: Outcome)
      modifies `xid
      ensures xid == freshXid && outcome == Done([DiscoverBy(macAddress, freshXid)])
    {
      xid := freshXid;
      outcome := Done([DiscoverBy(macAddress, xid)]);
    }

    method SendRequest(freshXid: int) returns (outcome: Outcome)
      modifies `xid
      ensures xid == freshXid && outcome == RequestOutcome(View())
    {
      xid := freshXid;
      if clientState !in {InitReboot, Requesting, Renewing, Rebinding} {
        return Failed(InvalidState);
      }
      if lease == None {
        return Failed(NoLease);
      }
      if clientState == InitReboot {
        outcome := Done([RequestBy(macAddress, xid, UNSPECIFIED, lease.value.ip, UNSPECIFIED)]);
      } else if clientState == Requesting {
        outcome := Done([RequestBy(macAddress, xid, lease.value.serverId, lease.value.ip, UNSPECIFIED)]);
      } else {
        outcome := Done([RequestBy(macAddress, xid, UNSPECIFIED, UNSPECIFIED, lease.value.ip)]);
      }
    }

    method InitClient(now: real, freshXid: int) returns (outcome: Outcome)
      modifies this
      ensures View() == StartedOver(old(View()), now, freshXid, responseTimeout)
      ensures outcome == Done([DiscoverBy(macAddress, freshXid)])
    {
      CancelTimers();
      outcome := SendDiscover(freshXid);
      ScheduleTimerTO(WaitOffer, now);
      clientState := Selecting;
    }

    method InitRebootedClient(now: real, freshXid: int) returns (outcome: Outcome)
      modifies `xid, `timerTo, `clientState
      ensures xid == freshXid && timerTo == Some(Timeout(WaitAck, now + responseTimeout)) && clientState == Rebooting
      ensures outcome == RequestOutcome(old(View()).(xid := freshXid))
    {
      outcome := SendRequest(freshXid);
      ScheduleTimerTO(WaitAck, now);
      clientState := Rebooting;
    }

    method UnbindLease()
      modifies this
      ensures View() == Unbound(old(View()))
    {
      CancelTimers();
      ieAddress := UNSPECIFIED;
    }

    method RecordOffer(offer: Message)
      modifies `lease
      ensures View() == WithOffer(old(View()), offer)
    {
      if offer.yiaddr != UNSPECIFIED {
        lease := Some(ClientLease(offer.yiaddr, offer.serverIdentifier, NO_TIMES));
      }
    }

    method BindLease(now: real)
      requires lease.Some?
      modifies `ieAddress, `leaseTimer
      ensures ieAddress == lease.value.ip && leaseTimer == Some(now + lease.value.times.lease)
    {
      ieAddress := lease.value.ip;
      leaseTimer := None;
      leaseTimer := Some(now + lease.value.times.lease);
    }

    method HandleAck(ack: Message, now: real) returns (outcome: Outcome)
      modifies this
      ensures if old(lease) == None then View() == old(View()) && outcome == Failed(NoLease)
              else View() == Granted(old(View()), ack, now) && outcome == Done([])
    {
      if lease == None {
        return Failed(NoLease);
      }
      if ack.yiaddr != UNSPECIFIED {
        lease := Some(lease.value.(times := ack.times));
      }
      timerTo := None;
      timerT1 := Some(now + lease.value.times.renewal);
      timerT2 := Some(now + lease.value.times.rebinding);
      BindLease(now);
      clientState := Bound;
      outcome := Done([]);
    }

    // The timer that goes off is no longer scheduled.
    method HandleTimer(category: TimerKind, now: real, freshXid: int) returns (outcome: Outcome)
      modifies this
      ensures (View(), outcome) == OnTimer(old(View()), category, now, freshXid, responseTimeout)
    {
      match category
      case StartDhcp =>
        CancelTimers();
        if lease != None {
          clientState := InitReboot;
          outcome := InitRebootedClient(now, freshXid);
        } else {
          clientState := Init;
          outcome := InitClient(now, freshXid);
        }
      case WaitOffer | WaitAck =>
        timerTo := None;
        outcome := InitClient(now, freshXid);
      case T1 =>
        timerT1 := None;
        clientState := Renewing;
        ScheduleTimerTO(WaitAck, now);
        outcome := SendRequest(freshXid);
      case T2 =>
        timerT2 := None;
        if clientState == Renewing {
          clientState := Rebinding;
          CancelTimers();
          outcome := SendRequest(freshXid);
          ScheduleTimerTO(WaitAck, now);
        } else {
          outcome := Failed(T2InWrongState);
        }
      case LeaseTimeout =>
        leaseTimer := None;
        UnbindLease();
        clientState := Init;
        outcome := InitClient(now, freshXid);
    }

    method HandleDHCPMessage(msg: Message, now: real, freshXid: int) returns (outcome: Outcome)
      modifies this
      ensures (View(), outcome) == OnMessage(old(View()), msg, now, freshXid, responseTimeout)
    {
      outcome := Done([]);
      if msg.op != BootReply || msg.xid != xid {
        return;
      }
      match clientState
      case Selecting =>
        if msg.messageType == Offer {
          ScheduleTimerTO(WaitAck, now);
          clientState := Requesting;
          RecordOffer(msg);
          outcome := SendRequest(freshXid);
        }
      case Requesting =>
        if msg.messageType == Ack {
          outcome := HandleAck(msg, now);
        } else if msg.messageType == Nak {
          outcome := InitClient(now, freshXid);
        }
      case Renewing | Rebinding | Rebooting =>
        if msg.messageType == Ack {
          outcome := HandleAck(msg, now);
        } else if msg.messageType == Nak {
          UnbindLease();
          outcome := InitClient(now, freshXid);
        }
      case Init | InitReboot | Bound =>
    }
  }
}

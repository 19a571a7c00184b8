/** The DHCP server: lease table, allocation, and answers to messages (RFC 2131, section 4.3). */
module DhcpServers {
  import opened DhcpMessages
  import opened Wrappers

  datatype Lease = Lease(xid: int, ip: Address, mac: Mac, leased: bool)

  // What a new record holds before anybody has asked for its address.
  const NO_MAC: Mac := 0

  type Table = map<Address, Lease>

  datatype Config = Config(serverId: Address, poolStart: Address, poolSize: nat, subnetMask: Address, leaseTime: real) {
    // Addresses are 32 bits wide: counting up from the first one wraps around.
    function Pool(i: nat): Address {
      (poolStart + i) % 0x1_0000_0000
    }

    function LeaseTimes(): Times {
      Times(leaseTime * 0.5, leaseTime * 0.875, leaseTime)
    }
  }

  predicate MaskedAddrAreEqual(a: Address, b: Address, mask: Address) {
    ((a as bv32) ^ (b as bv32)) & (mask as bv32) == 0
  }

  lemma EveryAddressSharesItsNetwork(a: Address, mask: Address)
    ensures MaskedAddrAreEqual(a, a, mask)
  {
    var x := a as bv32;
    assert x ^ x == 0;
  }

  // ---------- the specification of the server ----------

  ghost predicate IsFirstLeaseOf(t: Table, mac: Mac, ip: Option<Address>) {
    match ip
    case None => forall a :: a in t ==> t[a].mac != mac
    case Some(b) => b in t && t[b].mac == mac && forall a :: a in t && a < b ==> t[a].mac != mac
  }

  predicate Taken(t: Table, a: Address) {
    a in t && t[a].leased
  }

  ghost predicate IsFirstFree(cfg: Config, t: Table, ip: Option<Address>) {
    match ip
    case None => forall i: nat :: i < cfg.poolSize ==> Taken(t, cfg.Pool(i))
    case Some(b) =>
      exists i: nat :: i < cfg.poolSize && cfg.Pool(i) == b && !Taken(t, b)
        && forall j: nat :: j < i ==> Taken(t, cfg.Pool(j))
  }

  function OfferFor(cfg: Config, lease: Lease): Message {
    Message(BootReply, Offer, lease.xid, lease.mac, UNSPECIFIED, lease.ip, cfg.serverId, UNSPECIFIED, cfg.LeaseTimes())
  }

  function AckFor(cfg: Config, lease: Lease): Message {
    Message(BootReply, Ack, lease.xid, lease.mac, lease.ip, lease.ip, cfg.serverId, UNSPECIFIED, cfg.LeaseTimes())
  }

  function NakFor(cfg: Config, m: Message): Message {
    Message(BootReply, Nak, m.xid, m.chaddr, UNSPECIFIED, UNSPECIFIED, cfg.serverId, UNSPECIFIED, NO_TIMES)
  }

  // The lease at ip is confirmed under the transaction id of the request.
  predicate Confirmed(cfg: Config, t: Table, m: Message, ip: Address, t': Table, reply: Option<Message>) {
    && ip in t && t' == t[ip := t[ip].(xid := m.xid, leased := true)]
    && reply == Some(AckFor(cfg, t'[ip]))
  }

  predicate Refused(cfg: Config, t: Table, m: Message, t': Table, reply: Option<Message>) {
    t' == t && reply == Some(NakFor(cfg, m))
  }

  predicate Silent(t: Table, t': Table, reply: Option<Message>) {
    t' == t && reply == None
  }

  // RFC 2131, section 4.3.1.
  ghost predicate DiscoverStep(cfg: Config, t: Table, m: Message, t': Table, reply: Option<Message>) {
    if exists a :: a in t && t[a].mac == m.chaddr then
      exists a :: IsFirstLeaseOf(t, m.chaddr, Some(a))
        && t' == t[a := t[a].(xid := m.xid)] && reply == Some(OfferFor(cfg, t'[a]))
    else if m.requestedIp != UNSPECIFIED then
      && t' == t[m.requestedIp :=
           Lease(m.xid, if m.requestedIp in t && !t[m.requestedIp].leased then t[m.requestedIp].ip else m.requestedIp,
                 m.chaddr, true)]
      && reply == Some(OfferFor(cfg, t'[m.requestedIp]))
    else if forall i: nat :: i < cfg.poolSize ==> Taken(t, cfg.Pool(i)) then
      Silent(t, t', reply)
    else
      exists a :: IsFirstFree(cfg, t, Some(a))
        && t' == t[a := Lease(m.xid, if a in t then t[a].ip else a, m.chaddr, true)]
        && reply == Some(OfferFor(cfg, t'[a]))
  }

  // RFC 2131, section 4.3.2.
  ghost predicate RequestStep(cfg: Config, t: Table, m: Message, t': Table, reply: Option<Message>) {
    if m.serverIdentifier == cfg.serverId then
      // in response to an offer
      if exists a :: a in t && t[a].mac == m.chaddr then
        exists a :: IsFirstLeaseOf(t, m.chaddr, Some(a)) &&
          if t[a].ip == m.requestedIp then Confirmed(cfg, t, m, a, t', reply) else Refused(cfg, t, m, t', reply)
      else Refused(cfg, t, m, t', reply)
    else if m.ciaddr == UNSPECIFIED then
      // a rebooted client verifies the address it knows
      if m.requestedIp !in t then Silent(t, t', reply)
      else if MaskedAddrAreEqual(m.requestedIp, t[m.requestedIp].ip, cfg.subnetMask) then
        Confirmed(cfg, t, m, m.requestedIp, t', reply)
      else Refused(cfg, t, m, t', reply)
    else
      // renewing or rebinding
      if m.ciaddr in t then Confirmed(cfg, t, m, m.ciaddr, t', reply) else Refused(cfg, t, m, t', reply)
  }

  ghost predicate ServerStep(cfg: Config, t: Table, m: Message, t': Table, reply: Option<Message>) {
    if m.op == BootRequest && m.messageType == Discover then DiscoverStep(cfg, t, m, t', reply)
    else if m.op == BootRequest && m.messageType == Request then RequestStep(cfg, t, m, t', reply)
    else Silent(t, t', reply)
  }

  // ---------- what one step does to the table ----------

  // A client that reboots is answered exactly if the address it asks for has a record, and then always with an
  // acknowledgement: the check whether it is on the right network compares the address with itself.
  lemma RebootIsNeverRefused(cfg: Config, t: Table, m: Message, t': Table, reply: Option<Message>)
    requires (forall a :: a in t ==> t[a].ip == a) && ServerStep(cfg, t, m, t', reply)
    requires m.op == BootRequest && m.messageType == Request
    requires m.serverIdentifier != cfg.serverId && m.ciaddr == UNSPECIFIED
    ensures reply.Some? <==> m.requestedIp in t
    ensures reply.Some? ==> reply.value.messageType == Ack && reply.value.yiaddr == m.requestedIp
  {
    EveryAddressSharesItsNetwork(m.requestedIp, cfg.subnetMask);
  }

  // Every record is for its own address, which comes from the pool, and no client has two.
  ghost predicate TableOk(cfg: Config, t: Table) {
    && (forall a :: a in t ==> t[a].ip == a && t[a].leased && exists i: nat :: i < cfg.poolSize && cfg.Pool(i) == a)
    && (forall a, b :: a in t && b in t && t[a].mac == t[b].mac ==> a == b)
  }

  // The one message that can take a leased address away from its holder: a discovery that asks for it,
  // from a client without a lease.
  ghost predicate Steals(t: Table, m: Message, a: Address) {
    && m.op == BootRequest && m.messageType == Discover && m.requestedIp == a && a != UNSPECIFIED
    && forall b :: b in t ==> t[b].mac != m.chaddr
  }

  lemma HolderKeepsAddress(cfg: Config, t: Table, m: Message, t': Table, reply: Option<Message>, a: Address)
    requires ServerStep(cfg, t, m, t', reply) && a in t && t[a].leased
    ensures a in t' && t'[a].leased
    ensures t'[a].mac == t[a].mac <==> !Steals(t, m, a)
  {
  }

  // The table t' still has every lease of t, and reply is an offer or acknowledgement of a recorded
  // address to the client it is recorded for, or a refusal.
  ghost predicate Sound(cfg: Config, t: Table, m: Message, t': Table, reply: Option<Message>) {
    && TableOk(cfg, t')
    && (forall a :: a in t ==> a in t' && t'[a].mac == t[a].mac)
    && (reply.Some? ==> var r := reply.value;
          && r.op == BootReply && r.xid == m.xid && r.messageType in {Offer, Ack, Nak}
          && (r.messageType == Offer ==> m.messageType == Discover && r.chaddr == m.chaddr)
          && (r.messageType != Nak ==>
                r.yiaddr in t' && t'[r.yiaddr].mac == r.chaddr
                && r.serverIdentifier == cfg.serverId && r.times == cfg.LeaseTimes()))
  }

  // Recording a lease under the transaction id of m, for its old holder or for a client without one.
  lemma RecordedIsSound(cfg: Config, t: Table, m: Message, a: Address, mac: Mac, t': Table, r: Message)
    requires TableOk(cfg, t) && t' == t[a := Lease(m.xid, a, mac, true)]
    requires if a in t then mac == t[a].mac
             else (forall b :: b in t ==> t[b].mac != mac) && exists i: nat :: i < cfg.poolSize && cfg.Pool(i) == a
    requires r == AckFor(cfg, t'[a]) || (r == OfferFor(cfg, t'[a]) && m.messageType == Discover && m.chaddr == mac)
    ensures Sound(cfg, t, m, t', Some(r))
  {
  }

  lemma DiscoverIsSound(cfg: Config, t: Table, m: Message, t': Table, reply: Option<Message>)
    requires TableOk(cfg, t) && DiscoverStep(cfg, t, m, t', reply)
    requires m.messageType == Discover && m.requestedIp == UNSPECIFIED
    ensures Sound(cfg, t, m, t', reply)
  {
    if reply.Some? {
      var a := reply.value.yiaddr;
      assert t' == t[a := t'[a]] && t'[a].ip == a;
      RecordedIsSound(cfg, t, m, a, m.chaddr, t', reply.value);
    }
  }

  lemma ConfirmedIsSound(cfg: Config, t: Table, m: Message, ip: Address, t': Table, reply: Option<Message>)
    requires TableOk(cfg, t) && Confirmed(cfg, t, m, ip, t', reply)
    ensures Sound(cfg, t, m, t', reply)
  {
    RecordedIsSound(cfg, t, m, ip, t[ip].mac, t', reply.value);
  }

  // As long as discoveries carry no requested address, leases are for ever, the table stays in order,
  // and what is offered or acknowledged is on record for the client named in the reply.
  lemma ServerIsSound(cfg: Config, t: Table, m: Message, t': Table, reply: Option<Message>)
    requires TableOk(cfg, t) && ServerStep(cfg, t, m, t', reply)
    requires m.messageType == Discover ==> m.requestedIp == UNSPECIFIED
    ensures Sound(cfg, t, m, t', reply)
  {
    if m.op == BootRequest && m.messageType == Discover {
      DiscoverIsSound(cfg, t, m, t', reply);
    } else if a: Address :| Confirmed(cfg, t, m, a, t', reply) {
      ConfirmedIsSound(cfg, t, m, a, t', reply);
    }
  }

  // ---------- the server ----------

  lemma {:induction false} LeastKey(s: set<Address>) returns (k: Address)
    requires s != {}
    ensures k in s && forall j :: j in s ==> k <= j
  {
    k :| k in s;
    if s != {k} {
      var least := LeastKey(s - {k});
      assert forall j :: j in s ==> j == k || j in s - {k};
      if least < k {
        k := least;
      }
    }
  }

  class DHCPServer {
    const cfg: Config
    var leased: Table

    constructor (cfg: Config)
      ensures this.cfg == cfg && leased == map[]
    {
      this.cfg := cfg;
      leased := map[];
    }

    // Walks through the table in the order of the addresses.
    method GetLeaseByMac(mac: Mac) returns (ip: Option<Address>)
      ensures IsFirstLeaseOf(leased, mac, ip)
    {
      var rest := leased.Keys;
      while rest != {}
        invariant rest <= leased.Keys
        invariant forall a :: a in leased && a !in rest ==> leased[a].mac != mac && forall b :: b in rest ==> a < b
        decreases rest
      {
        ghost var least := LeastKey(rest);
        var elem: Address :| elem in rest && forall b :: b in rest ==> elem <= b;
        if leased[elem].mac == mac {
          return Some(elem);
        }
        rest := rest - {elem};
      }
      return None;
    }

    // Makes sure there is a record for the address found, and says which one it is.
    method GetAvailableLease(requestedAddress: Address) returns (ip: Option<Address>)
      modifies this
      ensures if requestedAddress != UNSPECIFIED then ip == Some(requestedAddress)
              else IsFirstFree(cfg, old(leased), ip)
      ensures ip == None ==> leased == old(leased)
      ensures ip.Some? ==>
        if ip.value in old(leased) && !old(leased)[ip.value].leased then leased == old(leased)
        else leased == old(leased)[ip.value := Lease(-1, ip.value, NO_MAC, false)]
    {
      if requestedAddress != UNSPECIFIED {
        if requestedAddress in leased && !leased[requestedAddress].leased {
          return Some(requestedAddress);
        }
        leased := leased[requestedAddress := Lease(-1, requestedAddress, NO_MAC, false)];
        return Some(requestedAddress);
      }
      var i: nat := 0;
      while i < cfg.poolSize
        invariant i <= cfg.poolSize && leased == old(leased)
        invariant forall j: nat :: j < i ==> Taken(leased, cfg.Pool(j))
      {
        var a := cfg.Pool(i);
        if a in leased {
          if !leased[a].leased {
            return Some(a);
          }
        } else {
          leased := leased[a := Lease(-1, a, NO_MAC, false)];
          return Some(a);
        }
        i := i + 1;
      }
      return None;
    }

    method HandleDiscover(packet: Message) returns (reply: Option<Message>)
      modifies this
      ensures DiscoverStep(cfg, old(leased), packet, leased, reply)
    {
      var ip := GetLeaseByMac(packet.chaddr);
      if ip == None {
        ip := GetAvailableLease(packet.requestedIp);
        if ip == None {
          return None;
        }
        var lease := leased[ip.value].(mac := packet.chaddr, xid := packet.xid, leased := true);
        leased := leased[ip.value := lease];
        reply := Some(OfferFor(cfg, lease));
      } else {
        var lease := leased[ip.value].(xid := packet.xid);
        leased := leased[ip.value := lease];
        reply := Some(OfferFor(cfg, lease));
      }
    }

    method SendAck(ip: Address, packet: Message) returns (reply: Option<Message>)
      requires ip in leased
      modifies this
      ensures Confirmed(cfg, old(leased), packet, ip, leased, reply)
    {
      var lease := leased[ip].(xid := packet.xid, leased := true);
      leased := leased[ip := lease];
      reply := Some(AckFor(cfg, lease));
    }

    method HandleRequest(packet: Message) returns (reply: Option<Message>)
      modifies this
      ensures RequestStep(cfg, old(leased), packet, leased, reply)
    {
      if packet.serverIdentifier == cfg.serverId {
        var ip := GetLeaseByMac(packet.chaddr);
        if ip != None && leased[ip.value].ip == packet.requestedIp {
          reply := SendAck(ip.value, packet);
        } else {
          reply := Some(NakFor(cfg, packet));
        }
      } else if packet.ciaddr == UNSPECIFIED {
        var requestedAddress := packet.requestedIp;
        if requestedAddress !in leased {
          reply := None;
        } else if MaskedAddrAreEqual(requestedAddress, leased[requestedAddress].ip, cfg.subnetMask) {
          reply := SendAck(requestedAddress, packet);
        } else {
          reply := Some(NakFor(cfg, packet));
        }
      } else {
        if packet.ciaddr in leased {
          reply := SendAck(packet.ciaddr, packet);
        } else {
          reply := Some(NakFor(cfg, packet));
        }
      }
    }

    method ProcessDHCPMessage(packet: Message) returns (reply: Option<Message>)
      modifies this
      ensures ServerStep(cfg, old(leased), packet, leased, reply)
    {
      if packet.op == BootRequest {
        if packet.messageType == Discover {
          reply := HandleDiscover(packet);
        } else if packet.messageType == Request {
          reply := HandleRequest(packet);
        } else {
          reply := None;
        }
      } else {
        reply := None;
      }
    }
  }
}

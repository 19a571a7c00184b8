/** When a client that looks for a server can still be configured. */
module DhcpProgress {
  import opened DhcpMessages
  import opened Wrappers
  import opened DhcpServers
  import opened DhcpClients
  import opened DhcpNetworks
  import opened DhcpLeaseEnds

  // ---------- going on with a run ----------

  function Last(states: seq<System>): System
    requires states != []
  {
    states[|states| - 1]
  }

  ghost predicate GoesOn(cfg: Config, wait: real, states: seq<System>, actions: seq<Action>, more: seq<System>,
                         next: seq<Action>)
  {
    Run(cfg, wait, more, next) && states <= more && actions <= next
  }

  lemma {:induction false} AboveAll(sent: set<Message>) returns (x: int)
    ensures forall m :: m in sent ==> m.xid < x
  {
    if sent == {} {
      x := 0;
    } else {
      var m :| m in sent;
      x := AboveAll(sent - {m});
      x := if m.xid < x then x else m.xid + 1;
      assert forall n :: n in sent ==> n == m || n in sent - {m};
    }
  }

  lemma {:induction false} AboveClients(clients: map<nat, Client>, who: set<nat>) returns (x: int)
    requires who <= clients.Keys
    ensures forall i :: i in who ==> clients[i].xid < x
    decreases who
  {
    if who == {} {
      x := 0;
    } else {
      var i :| i in who;
      x := AboveClients(clients, who - {i});
      x := if clients[i].xid < x then x else clients[i].xid + 1;
      assert forall j :: j in who ==> j == i || j in who - {i};
    }
  }

  // There always is an unused transaction id.
  lemma FreshExists(s: System) returns (xid: int)
    ensures Fresh(s, xid)
  {
    var x := AboveAll(s.sent);
    var y := AboveClients(s.clients, s.clients.Keys);
    xid := if x < y then y else x;
  }

  // Events can happen at once.
  lemma NothingIsLate(cfg: Config, wait: real, states: seq<System>, actions: seq<Action>)
    requires Proper(cfg) && wait >= 0.0 && Run(cfg, wait, states, actions)
    ensures Timely(Last(states), Last(states).now)
  {
    forall i | i in Last(states).clients
      ensures NoneDueBefore(Last(states).clients[i], Last(states).now)
    {
      NoTimerOverdue(cfg, wait, states, actions, |states| - 1, i);
    }
  }

  // A message that was sent reaches a client at once.
  lemma Delivered(cfg: Config, wait: real, states: seq<System>, actions: seq<Action>, who: nat, m: Message)
    returns (s: System, a: Action, xid: int)
    requires Proper(cfg) && wait >= 0.0 && Run(cfg, wait, states, actions)
    requires who in Last(states).clients && m in Last(states).sent
    ensures Run(cfg, wait, states + [s], actions + [a])
    ensures a.Receive? && a.who == who && s.now == Last(states).now
    ensures var (c, outcome) := OnMessage(Last(states).clients[who], m, s.now, xid, wait);
      && outcome.Done? && s.clients == Last(states).clients[who := c] && s.table == Last(states).table
      && s.sent == Last(states).sent + (set n | n in outcome.sent)
  {
    var before := Last(states);
    xid := FreshExists(before);
    NothingIsLate(cfg, wait, states, actions);
    a := Receive(who, m, before.now, xid);
    NoEventFails(cfg, wait, states, actions, |states| - 1, a);
    var (c, outcome) := OnMessage(before.clients[who], m, before.now, xid, wait);
    s := System(before.table, before.clients[who := c], before.sent + (set n | n in outcome.sent), before.now);
    RunGoesOn(cfg, wait, states, actions, a, s);
  }

  // The server answers a message that was sent at once.
  lemma Served(cfg: Config, wait: real, states: seq<System>, actions: seq<Action>, m: Message, table: Table,
               reply: Message) returns (s: System, a: Action)
    requires Proper(cfg) && wait >= 0.0 && Run(cfg, wait, states, actions) && m in Last(states).sent
    requires ServerStep(cfg, Last(states).table, m, table, Some(reply))
    ensures Run(cfg, wait, states + [s], actions + [a]) && a.Serve?
    ensures s == System(table, Last(states).clients, Last(states).sent + {reply}, Last(states).now)
  {
    var before := Last(states);
    NothingIsLate(cfg, wait, states, actions);
    a := Serve(m, before.now, Some(reply));
    s := System(table, before.clients, before.sent + {reply}, before.now);
    RunGoesOn(cfg, wait, states, actions, a, s);
  }

  // ---------- what is on the way ----------

  lemma SelectingAsks(c: Client, a: Action, wait: real)
    requires !a.Serve? && (a.Fire? ==> a.kind != StartDhcp) && Handled(c, a, wait).0.state == Selecting
    ensures var (c', outcome) := Handled(c, a, wait);
      c' == c || (c'.mac == c.mac && outcome == Done([DiscoverBy(c.mac, c'.xid)])) || outcome.Failed?
  {
  }

  // The discovery of a client that looks for a server is on the network.
  lemma {:induction false} DiscoveryIsSent(cfg: Config, wait: real, states: seq<System>, actions: seq<Action>, k: nat,
                                          i: nat)
    requires Run(cfg, wait, states, actions) && k < |states| && i in states[k].clients
    requires states[k].clients[i].state == Selecting
    ensures DiscoverBy(states[k].clients[i].mac, states[k].clients[i].xid) in states[k].sent
  {
    if k > 0 {
      var s, a := states[k - 1], actions[k - 1];
      assert Next(cfg, wait, s, a, states[k]);
      if s.clients[i].state == Selecting {
        DiscoveryIsSent(cfg, wait, states, actions, k - 1, i);
      }
      if !a.Serve? && a.who == i {
        SelectingAsks(s.clients[i], a, wait);
      }
    }
  }

  // ---------- what the server can do ----------

  ghost predicate HasLease(t: Table, mac: Mac) {
    exists a :: a in t && t[a].mac == mac
  }

  ghost predicate HasRoom(cfg: Config, t: Table) {
    exists i: nat :: i < cfg.poolSize && !Taken(t, cfg.Pool(i))
  }

  lemma {:induction false} FirstFree(cfg: Config, t: Table, n: nat) returns (i: nat)
    requires n < cfg.poolSize && !Taken(t, cfg.Pool(n))
    ensures i <= n && !Taken(t, cfg.Pool(i)) && forall j: nat :: j < i ==> Taken(t, cfg.Pool(j))
    decreases n
  {
    if k: nat :| k < n && !Taken(t, cfg.Pool(k)) {
      i := FirstFree(cfg, t, k);
    } else {
      i := n;
    }
  }

  lemma OnlyLease(cfg: Config, t: Table, a: Address)
    requires TableOk(cfg, t) && a in t
    ensures IsFirstLeaseOf(t, t[a].mac, Some(a))
  {
  }

  // A discovery is answered by an offer if the client has a lease or there is room.
  lemma OffersIfPossible(cfg: Config, t: Table, m: Message) returns (t': Table, offer: Message)
    requires TableOk(cfg, t) && m.op == BootRequest && m.messageType == Discover && m.requestedIp == UNSPECIFIED
    requires HasLease(t, m.chaddr) || HasRoom(cfg, t)
    ensures ServerStep(cfg, t, m, t', Some(offer))
  {
    if a :| a in t && t[a].mac == m.chaddr {
      OnlyLease(cfg, t, a);
      t' := t[a := t[a].(xid := m.xid)];
      offer := OfferFor(cfg, t'[a]);
    } else {
      var n: nat :| n < cfg.poolSize && !Taken(t, cfg.Pool(n));
      var i := FirstFree(cfg, t, n);
      var b := cfg.Pool(i);
      assert IsFirstFree(cfg, t, Some(b));
      t' := t[b := Lease(m.xid, b, m.chaddr, true)];
      offer := OfferFor(cfg, t'[b]);
    }
  }

  lemma GrantsWhatItOffered(cfg: Config, t: Table, mac: Mac, xid: int, a: Address) returns (t': Table, ack: Message)
    requires TableOk(cfg, t) && a in t && t[a].mac == mac
    ensures ServerStep(cfg, t, RequestBy(mac, xid, cfg.serverId, a, UNSPECIFIED), t', Some(ack))
    ensures ack.op == BootReply && ack.messageType == Ack && ack.xid == xid
  {
    OnlyLease(cfg, t, a);
    t' := t[a := t[a].(xid := xid, leased := true)];
    ack := AckFor(cfg, t'[a]);
  }

  // ---------- records stay ----------

  lemma {:induction false} RecordsLast(cfg: Config, wait: real, states: seq<System>, actions: seq<Action>, k: nat,
                                      n: nat)
    requires Proper(cfg) && Run(cfg, wait, states, actions) && k <= n < |states|
    ensures forall a :: a in states[k].table ==>
      a in states[n].table && states[n].table[a].mac == states[k].table[a].mac
    ensures forall i :: i in states[k].clients ==>
      i in states[n].clients && states[n].clients[i].mac == states[k].clients[i].mac
    decreases n
  {
    if k < n {
      RecordsLast(cfg, wait, states, actions, k, n - 1);
      var s, a := states[n - 1], actions[n - 1];
      assert Next(cfg, wait, s, a, states[n]);
      RunKeepsInv(cfg, wait, states, actions, n - 1);
      if a.Serve? {
        AnswerIsSound(cfg, s.table, a.m, states[n].table, a.reply);
      } else {
        HandledIsOrderly(cfg, wait, s, a);
      }
    }
  }

  // ---------- progress ----------

  ghost predicate CanBind(cfg: Config, wait: real, states: seq<System>, actions: seq<Action>, i: nat) {
    exists more, next ::
      && GoesOn(cfg, wait, states, actions, more, next)
      && more != [] && i in Last(more).clients && Last(more).clients[i].state == Bound
  }

  // The offer arrives: the client asks for the address, and the server knows it for the client's.
  lemma OfferArrives(cfg: Config, wait: real, states: seq<System>, actions: seq<Action>, i: nat, offer: Message)
    returns (more: seq<System>, next: seq<Action>)
    requires Proper(cfg) && wait >= 0.0 && Run(cfg, wait, states, actions) && i in Last(states).clients
    requires offer in Last(states).sent && offer.op == BootReply && offer.messageType == Offer
    requires Last(states).clients[i].state == Selecting && offer.xid == Last(states).clients[i].xid
    ensures GoesOn(cfg, wait, states, actions, more, next) && i in Last(more).clients
    ensures var c := Last(more).clients[i];
      && c.state == Requesting && OnRecord(Last(more).table, offer.yiaddr, c.mac)
      && RequestBy(c.mac, c.xid, cfg.serverId, offer.yiaddr, UNSPECIFIED) in Last(more).sent
  {
    RunKeepsInv(cfg, wait, states, actions, |states| - 1);
    assert MessageOk(cfg, Last(states).table, offer);
    var s, a, xid := Delivered(cfg, wait, states, actions, i, offer);
    more, next := states + [s], actions + [a];
    var c, outcome := s.clients[i], OnMessage(Last(states).clients[i], offer, s.now, xid, wait).1;
    assert RequestBy(c.mac, c.xid, cfg.serverId, offer.yiaddr, UNSPECIFIED) in outcome.sent;
  }

  // The request arrives at the server, and its answer at the client.
  lemma RequestArrives(cfg: Config, wait: real, states: seq<System>, actions: seq<Action>, i: nat, ip: Address)
    requires Proper(cfg) && wait >= 0.0 && Run(cfg, wait, states, actions) && i in Last(states).clients
    requires var c := Last(states).clients[i];
      && c.state == Requesting && OnRecord(Last(states).table, ip, c.mac)
      && RequestBy(c.mac, c.xid, cfg.serverId, ip, UNSPECIFIED) in Last(states).sent
    ensures CanBind(cfg, wait, states, actions, i)
  {
    var c := Last(states).clients[i];
    RunKeepsInv(cfg, wait, states, actions, |states| - 1);
    var m := RequestBy(c.mac, c.xid, cfg.serverId, ip, UNSPECIFIED);
    var table, ack := GrantsWhatItOffered(cfg, Last(states).table, c.mac, c.xid, ip);
    var s, a := Served(cfg, wait, states, actions, m, table, ack);
    var middle, past := states + [s], actions + [a];
    var s', a', xid := Delivered(cfg, wait, middle, past, i, ack);
    var more, next := middle + [s'], past + [a'];
    assert GoesOn(cfg, wait, states, actions, more, next);
    assert Last(more).clients[i].state == Bound;
  }

  lemma CanBindEarlier(cfg: Config, wait: real, states: seq<System>, actions: seq<Action>, middle: seq<System>,
                       past: seq<Action>, i: nat)
    requires GoesOn(cfg, wait, states, actions, middle, past) && CanBind(cfg, wait, middle, past, i)
    ensures CanBind(cfg, wait, states, actions, i)
  {
    var more, next :| GoesOn(cfg, wait, middle, past, more, next)
                      && more != [] && i in Last(more).clients && Last(more).clients[i].state == Bound;
    assert GoesOn(cfg, wait, states, actions, more, next);
  }

  lemma BindsIfPossible(cfg: Config, wait: real, states: seq<System>, actions: seq<Action>, i: nat)
    requires Proper(cfg) && wait >= 0.0 && Run(cfg, wait, states, actions) && i in Last(states).clients
    requires Last(states).clients[i].state == Selecting
    requires HasLease(Last(states).table, Last(states).clients[i].mac) || HasRoom(cfg, Last(states).table)
    ensures CanBind(cfg, wait, states, actions, i)
  {
    var c := Last(states).clients[i];
    RunKeepsInv(cfg, wait, states, actions, |states| - 1);
    DiscoveryIsSent(cfg, wait, states, actions, |states| - 1, i);
    var m := DiscoverBy(c.mac, c.xid);
    var table, offer := OffersIfPossible(cfg, Last(states).table, m);
    OfferAnswersDiscover(cfg, Last(states).table, c.mac, c.xid, table, offer);
    var s, a := Served(cfg, wait, states, actions, m, table, offer);
    var middle, past := states + [s], actions + [a];
    var more, next := OfferArrives(cfg, wait, middle, past, i, offer);
    RequestArrives(cfg, wait, more, next, i, offer.yiaddr);
    CanBindEarlier(cfg, wait, middle, past, more, next, i);
    CanBindEarlier(cfg, wait, states, actions, middle, past, i);
  }

  // With all addresses taken by others no continuation of the run gives the client one.
  lemma NeverBindsOtherwise(cfg: Config, wait: real, states: seq<System>, actions: seq<Action>, i: nat,
                            more: seq<System>, next: seq<Action>)
    requires Proper(cfg) && Run(cfg, wait, states, actions) && i in Last(states).clients
    requires GoesOn(cfg, wait, states, actions, more, next) && i in Last(more).clients
    requires Last(more).clients[i].state == Bound
    ensures HasLease(Last(states).table, Last(states).clients[i].mac) || HasRoom(cfg, Last(states).table)
  {
    var k, n := |states| - 1, |more| - 1;
    RecordsLast(cfg, wait, more, next, k, n);
    RunKeepsInv(cfg, wait, more, next, n);
    assert more[k] == states[k];
    var mac, a := Last(more).clients[i].mac, Last(more).clients[i].lease.value.ip;
    assert OnRecord(Last(more).table, a, mac);
    var j: nat :| j < cfg.poolSize && cfg.Pool(j) == a;
    if Taken(states[k].table, a) {
      assert states[k].table[a].mac == mac;
    }
  }

  // A client that looks for a server can still be configured if and only if an address is on record for it or one of
  // the pool is free.
  lemma CanBindExactly(cfg: Config, wait: real, states: seq<System>, actions: seq<Action>, i: nat)
    requires Proper(cfg) && wait >= 0.0 && Run(cfg, wait, states, actions) && i in Last(states).clients
    requires Last(states).clients[i].state == Selecting
    ensures CanBind(cfg, wait, states, actions, i) <==>
      HasLease(Last(states).table, Last(states).clients[i].mac) || HasRoom(cfg, Last(states).table)
  {
    if CanBind(cfg, wait, states, actions, i) {
      var more, next :| GoesOn(cfg, wait, states, actions, more, next)
                        && more != [] && i in Last(more).clients && Last(more).clients[i].state == Bound;
      NeverBindsOtherwise(cfg, wait, states, actions, i, more, next);
    } else if HasLease(Last(states).table, Last(states).clients[i].mac) || HasRoom(cfg, Last(states).table) {
      BindsIfPossible(cfg, wait, states, actions, i);
    }
  }
}

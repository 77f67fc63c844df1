/** Every step of Session keeps its invariant. */
module SessionProofs {
  import opened Bits
  import opened Options
  import opened PacketList
  import opened PacketIds
  import opened Handshake
  import opened Session

  type Log = seq<(nat, seq<byte>)>
  type Flights = map<nat, Flight>

  // ----- counting deliveries -----

  lemma TimesAppend(log: Log, d: (nat, seq<byte>), stamp: nat)
    ensures Times(log + [d], stamp) == Times(log, stamp) + (if d.0 == stamp then 1 else 0)
  {
    assert (log + [d])[..|log|] == log;
  }

  lemma {:induction false} TimesFresh(log: Log, stamp: nat)
    requires forall i :: 0 <= i < |log| ==> log[i].0 < stamp
    ensures Times(log, stamp) == 0
  {
    if log != [] {
      TimesFresh(log[..|log| - 1], stamp);
    }
  }

  // ----- finding -----

  lemma FindFlight(table: seq<Entry>, flights: Flights, id: nat)
    requires TableInv(table, flights) && id in flights && IsId(id)
    ensures Find(table, id) == flights[id].slot
  {
    FindFirst(table, id, flights[id].slot);
  }

  lemma HasAppend(ps: seq<Packet>, p: Packet, id: nat)
    ensures HasId(ps + [p], id) <==> HasId(ps, id) || id == p.id
  {
    if HasId(ps, id) {
      var i :| 0 <= i < |ps| && ps[i].id == id;
      assert (ps + [p])[i].id == id;
    }
    assert (ps + [p])[|ps|] == p;
  }

  lemma HasWithout(ps: seq<Packet>, m: nat, id: nat)
    requires InFlight(ps) && m < |ps|
    ensures HasId(Without(ps, m), id) <==> HasId(ps, id) && id != ps[m].id
  {
    if HasId(ps, id) && id != ps[m].id {
      var i :| 0 <= i < |ps| && ps[i].id == id;
      assert Without(ps, m)[if i < m then i else i - 1].id == id;
    }
  }

  lemma FlyingKept(flights: Flights, flights': Flights, stamp: nat)
    requires Flying(flights, stamp)
    requires forall id :: id in flights && flights[id].stamp == stamp ==> id in flights' && flights'[id].stamp == stamp
    ensures Flying(flights', stamp)
  {
    var id :| id in flights && flights[id].stamp == stamp;
    assert id in flights';
  }

  // ----- a flight begins -----

  lemma BeginTable(table: seq<Entry>, flights: Flights, msgs: seq<Message>, id: nat, qos2: bool, bytes: seq<byte>,
                   slot: nat)
    requires TableInv(table, flights) && FlightInv(msgs, flights)
    requires id !in flights && IsId(id) && slot < |table| && table[slot] == Free
    ensures var flights' := flights[id := Flight(|msgs|, slot, qos2, false)];
      TableInv(table[slot := Out(id, qos2, false)], flights') && FlightInv(msgs + [Message(qos2, bytes)], flights')
  {
  }

  lemma BeginStore(store: seq<Packet>, msgs: seq<Message>, flights: Flights, id: nat, qos2: bool, bytes: seq<byte>,
                   slot: nat)
    requires StoreInv(store, msgs, flights) && id !in flights && IsId(id) && |bytes| > 0
    ensures StoreInv(store + [Packet(id, bytes)], msgs + [Message(qos2, bytes)],
                     flights[id := Flight(|msgs|, slot, qos2, false)])
  {
    forall x: nat
      ensures HasId(store + [Packet(id, bytes)], x) <==> HasId(store, x) || x == id
    {
      HasAppend(store, Packet(id, bytes), x);
    }
    assert !HasId(store, id);
  }

  lemma BeginChannels(s: System, id: nat, f: Flight, msg: Message, m: Wire)
    requires UpInv(s.up, s.sent, s.msgs, s.flights) && DownInv(s.down, s.sent, s.held, s.log, s.flights)
      && TokenInv(s.up, s.down)
    requires id !in s.flights && f.stamp == |s.msgs| && !f.received && f.qos2 == msg.qos2
    requires m == Publish(id, if f.qos2 then 2 else 1, msg.bytes, f.stamp)
    ensures UpInv(s.up + [m], s.sent + {id}, s.msgs + [msg], s.flights[id := f])
    ensures DownInv(s.down, s.sent + {id}, s.held, s.log, s.flights[id := f])
    ensures TokenInv(s.up + [m], s.down)
  {
    hide Times;
    var up, sent, msgs, flights := s.up + [m], s.sent + {id}, s.msgs + [msg], s.flights[id := f];
    forall i | 0 <= i < |up|
      ensures UpOk(up[i], sent, msgs, flights)
    {
      assert i < |s.up| ==> UpOk(s.up[i], s.sent, s.msgs, s.flights);
    }
    forall i | 0 <= i < |s.down|
      ensures DownOk(s.down[i], sent, s.held, s.log, flights)
    {
      assert DownOk(s.down[i], s.sent, s.held, s.log, s.flights);
    }
  }

  /** A flight that begins without its packet going up. */
  lemma BeginSilently(s: System, id: nat, f: Flight, msg: Message)
    requires UpInv(s.up, s.sent, s.msgs, s.flights) && DownInv(s.down, s.sent, s.held, s.log, s.flights)
    requires id !in s.flights
    ensures UpInv(s.up, s.sent, s.msgs + [msg], s.flights[id := f])
    ensures DownInv(s.down, s.sent, s.held, s.log, s.flights[id := f])
  {
    hide Times;
    forall i | 0 <= i < |s.up|
      ensures UpOk(s.up[i], s.sent, s.msgs + [msg], s.flights[id := f])
    {
      assert UpOk(s.up[i], s.sent, s.msgs, s.flights);
    }
    forall i | 0 <= i < |s.down|
      ensures DownOk(s.down[i], s.sent, s.held, s.log, s.flights[id := f])
    {
      assert DownOk(s.down[i], s.sent, s.held, s.log, s.flights);
    }
  }

  lemma BeginBroker(held: map<nat, Held>, log: Log, msgs: seq<Message>, flights: Flights, id: nat, f: Flight,
                    msg: Message)
    requires BrokerInv(held, log, msgs, flights) && DoneInv(log, msgs, flights) && FlightInv(msgs, flights)
    requires id !in flights && f.stamp == |msgs| && !f.received
    ensures BrokerInv(held, log, msgs + [msg], flights[id := f])
    ensures DoneInv(log, msgs + [msg], flights[id := f])
  {
    TimesFresh(log, |msgs|);
    var flights' := flights[id := f];
    assert id in flights' && flights'[id].stamp == |msgs|;
    forall stamp: nat | Flying(flights, stamp)
      ensures Flying(flights', stamp)
    {
      FlyingKept(flights, flights', stamp);
    }
  }

  lemma PublishKeeps(s: System, id: nat, qos2: bool, bytes: seq<byte>, lim: Limits, sendOk: bool)
    requires Inv(s) && Enabled(s, PublishMsg(id, qos2, bytes, sendOk))
    ensures Inv(AfterPublish(s, id, qos2, bytes, lim, sendOk))
  {
    hide UpInv, DownInv, TokenInv, BrokerInv, DoneInv, StoreInv, FlightInv;
    var slot := Find(s.client.table, 0);
    assert s.client.table[slot] == Free && id !in s.flights;
    var f := Flight(|s.msgs|, slot, qos2, false);
    BeginTable(s.client.table, s.flights, s.msgs, id, qos2, bytes, slot);
    BeginStore(s.client.store, s.msgs, s.flights, id, qos2, bytes, slot);
    BeginBroker(s.held, s.log, s.msgs, s.flights, id, f, Message(qos2, bytes));
    if sendOk {
      BeginChannels(s, id, f, Message(qos2, bytes), Publish(id, if qos2 then 2 else 1, bytes, |s.msgs|));
    } else {
      BeginSilently(s, id, f, Message(qos2, bytes));
    }
  }

  // ----- resending -----

  /** Every unfinished publication can be sent again: as PUBREL once PUBREC has been seen, else as its own bytes. */
  lemma ResendPossible(s: System, slot: nat)
    requires Inv(s) && slot < |s.client.table| && s.client.table[slot].Out?
    ensures var id := s.client.table[slot].id;
      && id in s.flights && s.flights[id].stamp < |s.msgs|
      && Resend(s.client, slot) ==
           if s.flights[id].received then Rel(id) else Bytes(id, s.msgs[s.flights[id].stamp].bytes)
  {
    hide UpInv, DownInv, TokenInv, BrokerInv, DoneInv;
  }

  /** A packet of a flight that has nothing under way may go up. */
  lemma SendUp(s: System, m: Wire)
    requires UpInv(s.up, s.sent, s.msgs, s.flights) && DownInv(s.down, s.sent, s.held, s.log, s.flights)
      && TokenInv(s.up, s.down)
    requires Upward(m) && m.id !in s.sent && UpOk(m, s.sent + {m.id}, s.msgs, s.flights)
    ensures UpInv(s.up + [m], s.sent + {m.id}, s.msgs, s.flights)
    ensures DownInv(s.down, s.sent + {m.id}, s.held, s.log, s.flights)
    ensures TokenInv(s.up + [m], s.down)
  {
    hide Times;
    forall i | 0 <= i < |s.up + [m]|
      ensures UpOk((s.up + [m])[i], s.sent + {m.id}, s.msgs, s.flights)
    {
      assert i < |s.up| ==> UpOk(s.up[i], s.sent, s.msgs, s.flights);
    }
    forall i | 0 <= i < |s.down|
      ensures DownOk(s.down[i], s.sent + {m.id}, s.held, s.log, s.flights)
    {
      assert DownOk(s.down[i], s.sent, s.held, s.log, s.flights);
    }
  }

  lemma ResendKeeps(s: System, slot: nat, sendOk: bool)
    requires Inv(s) && Enabled(s, Action.ResendSlot(slot, sendOk))
    ensures Inv(AfterResend(s, slot, sendOk))
  {
    hide UpInv, DownInv, TokenInv, BrokerInv, DoneInv, StoreInv;
    ResendPossible(s, slot);
    var id := s.client.table[slot].id;
    var f := s.flights[id];
    assert s.client.table[slot] == Out(id, f.qos2, f.received);
    hide TableInv;
    SendUp(s, if f.received then PubRel(id) else Publish(id, if f.qos2 then 2 else 1, s.msgs[f.stamp].bytes, f.stamp));
  }

  // ----- a flight ends -----

  lemma EndTable(table: seq<Entry>, msgs: seq<Message>, flights: Flights, id: nat)
    requires TableInv(table, flights) && FlightInv(msgs, flights) && id in flights
    ensures flights[id].slot < |table| && Find(table, id) == flights[id].slot
    ensures TableInv(table[flights[id].slot := Free], flights - {id}) && FlightInv(msgs, flights - {id})
  {
    FindFlight(table, flights, id);
  }

  lemma EndStored(store: seq<Packet>, msgs: seq<Message>, flights: Flights, id: nat, flights': Flights)
    requires StoreInv(store, msgs, flights) && id in flights && !flights[id].received
    requires flights' == flights - {id} || flights' == flights[id := flights[id].(received := true)]
    ensures IndexOf(store, id) < |store|
    ensures StoreInv(Without(store, IndexOf(store, id)), msgs, flights')
  {
    hide IndexOf;
    assert HasId(store, id);
    var m := IndexOf(store, id);
    forall x: nat
      ensures HasId(Without(store, m), x) <==> HasId(store, x) && x != id
    {
      HasWithout(store, m, x);
    }
    hide HasId;
    assert forall x: nat :: HasId(Without(store, m), x) <==> x in flights' && !flights'[x].received;
  }

  lemma EndReceived(store: seq<Packet>, msgs: seq<Message>, flights: Flights, id: nat)
    requires StoreInv(store, msgs, flights) && id in flights && flights[id].received
    ensures StoreInv(store, msgs, flights - {id})
  {
    assert !HasId(store, id);
  }

  lemma EndChannels(s: System, id: nat)
    requires UpInv(s.up, s.sent, s.msgs, s.flights) && DownInv(s.down, s.sent, s.held, s.log, s.flights)
      && TokenInv(s.up, s.down)
    requires s.down != [] && Downward(s.down[0]) && s.down[0].id == id
    ensures UpInv(s.up, s.sent, s.msgs, s.flights - {id})
    ensures DownInv(s.down[1..], s.sent, s.held, s.log, s.flights - {id})
    ensures TokenInv(s.up, s.down[1..])
  {
    hide Times;
    forall i | 0 <= i < |s.up|
      ensures UpOk(s.up[i], s.sent, s.msgs, s.flights - {id})
    {
      assert UpOk(s.up[i], s.sent, s.msgs, s.flights);
    }
    forall i | 0 <= i < |s.down| - 1
      ensures DownOk(s.down[1..][i], s.sent, s.held, s.log, s.flights - {id})
    {
      assert DownOk(s.down[i + 1], s.sent, s.held, s.log, s.flights);
    }
  }

  lemma EndBroker(held: map<nat, Held>, log: Log, msgs: seq<Message>, flights: Flights, id: nat)
    requires BrokerInv(held, log, msgs, flights) && DoneInv(log, msgs, flights) && FlightInv(msgs, flights)
    requires id in flights && id !in held
    requires if flights[id].qos2 then flights[id].received else Times(log, flights[id].stamp) >= 1
    ensures BrokerInv(held, log, msgs, flights - {id}) && DoneInv(log, msgs, flights - {id})
  {
    hide Times;
    forall stamp: nat | Flying(flights, stamp) && stamp != flights[id].stamp
      ensures Flying(flights - {id}, stamp)
    {
      FlyingKept(flights, flights - {id}, stamp);
    }
  }

  lemma AckKeeps(s: System, sendOk: bool)
    requires Inv(s) && s.connected && s.down != [] && s.down[0].PubAck?
    ensures Inv(AfterReceive(s, sendOk))
  {
    hide UpInv, TokenInv, TableInv, StoreInv, DoneInv, Times;
    var id := s.down[0].id;
    assert DownOk(s.down[0], s.sent, s.held, s.log, s.flights);
    EndTable(s.client.table, s.msgs, s.flights, id);
    EndStored(s.client.store, s.msgs, s.flights, id, s.flights - {id});
    EndChannels(s, id);
    EndBroker(s.held, s.log, s.msgs, s.flights, id);
  }

  lemma CompKeeps(s: System, sendOk: bool)
    requires Inv(s) && s.connected && s.down != [] && s.down[0].PubComp?
    ensures Inv(AfterReceive(s, sendOk))
  {
    hide UpInv, TokenInv, TableInv, DoneInv, Times, BrokerInv, StoreInv;
    var id := s.down[0].id;
    assert DownOk(s.down[0], s.sent, s.held, s.log, s.flights);
    EndReceived(s.client.store, s.msgs, s.flights, id);
    EndTable(s.client.table, s.msgs, s.flights, id);
    EndChannels(s, id);
    EndBroker(s.held, s.log, s.msgs, s.flights, id);
  }

  // ----- PUBREC -----

  lemma RecTable(table: seq<Entry>, msgs: seq<Message>, flights: Flights, id: nat)
    requires TableInv(table, flights) && FlightInv(msgs, flights) && id in flights && flights[id].qos2
    ensures flights[id].slot < |table| && Find(table, id) == flights[id].slot
    ensures Advance(table, id) == (table[flights[id].slot := Out(id, true, true)], true)
    ensures TableInv(table[flights[id].slot := Out(id, true, true)], flights[id := flights[id].(received := true)])
    ensures FlightInv(msgs, flights[id := flights[id].(received := true)])
  {
    FindFlight(table, flights, id);
  }

  lemma RecChannels(s: System, id: nat, flights': Flights)
    requires UpInv(s.up, s.sent, s.msgs, s.flights) && DownInv(s.down, s.sent, s.held, s.log, s.flights)
      && TokenInv(s.up, s.down)
    requires s.down != [] && s.down[0] == PubRec(id) && id in s.flights
    requires flights' == s.flights[id := s.flights[id].(received := true)]
    ensures UpInv(s.up + [PubRel(id)], s.sent, s.msgs, flights')
    ensures DownInv(s.down[1..], s.sent, s.held, s.log, flights')
    ensures TokenInv(s.up + [PubRel(id)], s.down[1..])
  {
    hide Times;
    assert DownOk(s.down[0], s.sent, s.held, s.log, s.flights);
    forall i | 0 <= i < |s.up + [PubRel(id)]|
      ensures UpOk((s.up + [PubRel(id)])[i], s.sent, s.msgs, flights')
    {
      assert i < |s.up| ==> UpOk(s.up[i], s.sent, s.msgs, s.flights);
    }
    forall i | 0 <= i < |s.down| - 1
      ensures DownOk(s.down[1..][i], s.sent, s.held, s.log, flights')
    {
      assert DownOk(s.down[i + 1], s.sent, s.held, s.log, s.flights);
    }
  }

  lemma RecBroker(held: map<nat, Held>, log: Log, msgs: seq<Message>, flights: Flights, id: nat)
    requires BrokerInv(held, log, msgs, flights) && DoneInv(log, msgs, flights) && id in flights && id in held
    ensures BrokerInv(held, log, msgs, flights[id := flights[id].(received := true)])
    ensures DoneInv(log, msgs, flights[id := flights[id].(received := true)])
  {
    hide Times;
    forall stamp: nat | Flying(flights, stamp)
      ensures Flying(flights[id := flights[id].(received := true)], stamp)
    {
      FlyingKept(flights, flights[id := flights[id].(received := true)], stamp);
    }
  }

  lemma RecKeeps(s: System)
    requires Inv(s) && s.connected && s.down != [] && s.down[0].PubRec?
    ensures Inv(AfterReceive(s, true))
  {
    hide UpInv, TokenInv, TableInv, StoreInv, DoneInv, Times, BrokerInv;
    var id := s.down[0].id;
    assert DownOk(s.down[0], s.sent, s.held, s.log, s.flights);
    RecTable(s.client.table, s.msgs, s.flights, id);
    EndStored(s.client.store, s.msgs, s.flights, id, s.flights[id := s.flights[id].(received := true)]);
    RecChannels(s, id, s.flights[id := s.flights[id].(received := true)]);
    RecBroker(s.held, s.log, s.msgs, s.flights, id);
  }

  // ----- the broker's own publications -----

  lemma ReplaceInbound(table: seq<Entry>, flights: Flights, key: nat, e: Entry)
    requires TableInv(table, flights) && (key == 0 || key >= 0x10000) && !e.Out? && EntryOk(e)
    ensures TableInv(Replace(table, key, e).0, flights)
  {
    var i := Find(table, key);
    if i < |table| {
      assert !table[i].Out?;
    }
  }

  lemma InboundChannels(s: System, reply: seq<Wire>)
    requires UpInv(s.up, s.sent, s.msgs, s.flights) && DownInv(s.down, s.sent, s.held, s.log, s.flights)
      && TokenInv(s.up, s.down)
    requires s.down != [] && forall i :: 0 <= i < |reply| ==> !Upward(reply[i])
    ensures UpInv(s.up + reply, s.sent, s.msgs, s.flights)
    ensures DownInv(s.down[1..], s.sent, s.held, s.log, s.flights)
    ensures TokenInv(s.up + reply, s.down[1..])
  {
    hide DownOk;
    forall i | 0 <= i < |s.up + reply|
      ensures UpOk((s.up + reply)[i], s.sent, s.msgs, s.flights)
    {
      assert i < |s.up| ==> UpOk(s.up[i], s.sent, s.msgs, s.flights);
    }
  }

  lemma InboundKeeps(s: System, sendOk: bool)
    requires Inv(s) && s.connected && s.down != [] && !Downward(s.down[0])
    ensures Inv(AfterReceive(s, sendOk))
  {
    hide UpInv, TokenInv, TableInv, StoreInv, DoneInv, Times, BrokerInv, FlightInv, Find;
    var m := s.down[0];
    assert DownOk(m, s.sent, s.held, s.log, s.flights);
    var table := Replace(s.client.table, 0, EntryFor(m.id + 0x10000, m.Publish? && m.qos != 1)).0;
    ReplaceInbound(s.client.table, s.flights, 0, EntryFor(m.id + 0x10000, m.Publish? && m.qos != 1));
    ReplaceInbound(table, s.flights, m.id + 0x10000, Free);
    ReplaceInbound(s.client.table, s.flights, m.id + 0x10000, Free);
    var (client, answer, err) := Deal(s.client, m, sendOk);
    InboundChannels(s, if answer.Just? then [answer.value] else []);
    assert s.up + [] == s.up;
  }

  lemma ReceiveKeeps(s: System, sendOk: bool)
    requires Inv(s) && Enabled(s, ClientReceives(sendOk))
    ensures Inv(AfterReceive(s, sendOk))
  {
    hide Inv, AfterReceive;
    match s.down[0] {
      case PubAck(_) => AckKeeps(s, sendOk);
      case PubRec(_) => RecKeeps(s);
      case PubComp(_) => CompKeeps(s, sendOk);
      case _ => InboundKeeps(s, sendOk);
    }
  }

  // ----- the broker -----

  /** The broker answers the packet at the head of the upward channel. */
  lemma Turn(s: System, x: Wire, held': map<nat, Held>, log': Log)
    requires UpInv(s.up, s.sent, s.msgs, s.flights) && DownInv(s.down, s.sent, s.held, s.log, s.flights)
      && TokenInv(s.up, s.down)
    requires s.up != [] && Upward(s.up[0]) && Downward(x) && x.id == s.up[0].id
    requires DownOk(x, s.sent, held', log', s.flights)
    requires forall id :: id != x.id ==> (id in held' <==> id in s.held)
    requires forall stamp :: Times(log', stamp) >= Times(s.log, stamp)
    ensures UpInv(s.up[1..], s.sent, s.msgs, s.flights)
    ensures DownInv(s.down + [x], s.sent, held', log', s.flights)
    ensures TokenInv(s.up[1..], s.down + [x])
  {
    hide Times;
    forall i | 0 <= i < |s.down + [x]|
      ensures DownOk((s.down + [x])[i], s.sent, held', log', s.flights)
    {
      assert i < |s.down| ==> DownOk(s.down[i], s.sent, s.held, s.log, s.flights);
    }
    forall i | 0 <= i < |s.up| - 1
      ensures UpOk(s.up[1..][i], s.sent, s.msgs, s.flights)
    {
      assert UpOk(s.up[i + 1], s.sent, s.msgs, s.flights);
    }
  }

  /** A delivery for a flying stamp leaves every other count alone. */
  lemma Deliver(log: Log, msgs: seq<Message>, flights: Flights, id: nat)
    requires DoneInv(log, msgs, flights) && id in flights && flights[id].stamp < |msgs|
    ensures var log' := log + [(flights[id].stamp, msgs[flights[id].stamp].bytes)];
      && DoneInv(log', msgs, flights)
      && (forall stamp :: Times(log', stamp) == Times(log, stamp) + (if stamp == flights[id].stamp then 1 else 0))
  {
    var d := (flights[id].stamp, msgs[flights[id].stamp].bytes);
    forall stamp: nat
      ensures Times(log + [d], stamp) == Times(log, stamp) + (if stamp == flights[id].stamp then 1 else 0)
    {
      TimesAppend(log, d, stamp);
    }
    assert Flying(flights, flights[id].stamp);
  }

  lemma Broker1Keeps(s: System, early: bool)
    requires Inv(s) && s.connected && s.up != [] && s.up[0].Publish? && s.up[0].qos != 2
    ensures Inv(AfterBroker(s, early))
  {
    hide TableInv, StoreInv, DownInv, TokenInv, DoneInv, Times;
    var m := s.up[0];
    assert UpOk(m, s.sent, s.msgs, s.flights);
    Deliver(s.log, s.msgs, s.flights, m.id);
    Turn(s, PubAck(m.id), s.held, s.log + [(m.stamp, m.bytes)]);
  }

  lemma Broker2Keeps(s: System, early: bool)
    requires Inv(s) && s.connected && s.up != [] && s.up[0].Publish? && s.up[0].qos == 2
    ensures Inv(AfterBroker(s, early))
  {
    hide TableInv, StoreInv, DownInv, TokenInv, DoneInv, Times;
    var m := s.up[0];
    assert UpOk(m, s.sent, s.msgs, s.flights);
    Deliver(s.log, s.msgs, s.flights, m.id);
    var s' := AfterBroker(s, early);
    Turn(s, PubRec(m.id), s'.held, s'.log);
  }

  lemma BrokerRelKeeps(s: System, early: bool)
    requires Inv(s) && s.connected && s.up != [] && s.up[0].PubRel?
    ensures Inv(AfterBroker(s, early))
  {
    hide TableInv, StoreInv, DownInv, TokenInv, DoneInv, Times;
    var m := s.up[0];
    assert UpOk(m, s.sent, s.msgs, s.flights);
    Deliver(s.log, s.msgs, s.flights, m.id);
    var s' := AfterBroker(s, early);
    Turn(s, PubComp(m.id), s'.held, s'.log);
  }

  lemma BrokerKeeps(s: System, early: bool)
    requires Inv(s) && Enabled(s, BrokerReceives(early))
    ensures Inv(AfterBroker(s, early))
  {
    if s.up[0].Publish? && s.up[0].qos != 2 {
      Broker1Keeps(s, early);
    } else if s.up[0].Publish? {
      Broker2Keeps(s, early);
    } else if s.up[0].PubRel? {
      BrokerRelKeeps(s, early);
    }
  }

  lemma ConnectionKeeps(s: System, a: Action, lim: Limits)
    requires Inv(s) && Enabled(s, a) && (a.BrokerSends? || a.Connect? || a.Disconnect?)
    ensures Inv(Next(s, a, lim))
  {
    hide TableInv, StoreInv, FlightInv, DoneInv, BrokerInv, Times;
  }

  /** Every step keeps the invariant. */
  lemma StepKeeps(s: System, a: Action, lim: Limits)
    requires Inv(s) && Enabled(s, a)
    ensures Inv(Next(s, a, lim))
  {
    hide Inv;
    match a {
      case PublishMsg(id, qos2, bytes, sendOk) => PublishKeeps(s, id, qos2, bytes, lim, sendOk);
      case ResendSlot(slot, sendOk) => ResendKeeps(s, slot, sendOk);
      case ClientReceives(sendOk) => ReceiveKeeps(s, sendOk);
      case BrokerReceives(early) => BrokerKeeps(s, early);
      case _ => ConnectionKeeps(s, a, lim);
    }
  }

  // ----- whole runs -----

  ghost predicate Runs(s: System, actions: seq<Action>, lim: Limits)
    decreases |actions|
  {
    actions == [] || (Enabled(s, actions[0]) && Runs(Next(s, actions[0], lim), actions[1..], lim))
  }

  ghost function Final(s: System, actions: seq<Action>, lim: Limits): System
    requires Runs(s, actions, lim)
    decreases |actions|
  {
    if actions == [] then s else Final(Next(s, actions[0], lim), actions[1..], lim)
  }

  /** States that follow each other make a run. */
  lemma {:induction false} Following(states: nat -> System, actions: seq<Action>, lim: Limits, i: nat)
    requires i <= |actions|
    requires forall k: nat :: i <= k < |actions| ==>
      Enabled(states(k), actions[k]) && Next(states(k), actions[k], lim) == states(k + 1)
    ensures Runs(states(i), actions[i..], lim) && Final(states(i), actions[i..], lim) == states(|actions|)
    decreases |actions| - i
  {
    hide Enabled, Next;
    if i < |actions| {
      Following(states, actions, lim, i + 1);
      assert actions[i..][1..] == actions[i + 1..];
    }
  }

  lemma {:induction false} RunKeeps(s: System, actions: seq<Action>, lim: Limits)
    requires Inv(s) && Runs(s, actions, lim)
    ensures Inv(Final(s, actions, lim))
    decreases |actions|
  {
    hide Inv;
    if actions != [] {
      StepKeeps(s, actions[0], lim);
      RunKeeps(Next(s, actions[0], lim), actions[1..], lim);
    }
  }

  lemma StartHolds(slots: nat)
    ensures Inv(Start(slots))
  {
  }

  /** QoS 2 is exactly once and QoS 1 at least once: over every run, what the broker delivers are published messages
      with their own bytes, a QoS 2 message is never delivered twice, and once its identifier has been freed it has
      been delivered. */
  lemma ExactlyOnce(slots: nat, actions: seq<Action>, lim: Limits)
    requires Runs(Start(slots), actions, lim)
    ensures var s := Final(Start(slots), actions, lim);
      && (forall i :: 0 <= i < |s.log| ==> s.log[i].0 < |s.msgs| && s.log[i].1 == s.msgs[s.log[i].0].bytes)
      && (forall stamp :: 0 <= stamp < |s.msgs| && s.msgs[stamp].qos2 ==> Times(s.log, stamp) <= 1)
      && (forall stamp :: 0 <= stamp < |s.msgs| && !Flying(s.flights, stamp) ==> Times(s.log, stamp) >= 1)
  {
    hide TableInv, StoreInv, UpInv, DownInv, TokenInv;
    StartHolds(slots);
    RunKeeps(Start(slots), actions, lim);
    var s := Final(Start(slots), actions, lim);
    forall stamp | 0 <= stamp < |s.msgs| && s.msgs[stamp].qos2
      ensures Times(s.log, stamp) <= 1
    {
      if Flying(s.flights, stamp) {
        var id :| id in s.flights && s.flights[id].stamp == stamp;
        assert id in s.held || id !in s.held;
      }
    }
  }

  /** The table has an outgoing entry for the identifier that is not past PUBREC. */
  ghost predicate Awaiting(table: seq<Entry>, id: nat)
  {
    exists i :: 0 <= i < |table| && table[i].Out? && table[i].id == id && !table[i].received
  }

  /** The identifier table and the storage stay coupled in every reachable state: a packet is stored under an
      identifier exactly when the table awaits PUBACK or PUBREC for it, and every unfinished entry can be sent again,
      as PUBREL or as the exact bytes of its message. */
  lemma Coupled(slots: nat, actions: seq<Action>, lim: Limits)
    requires Runs(Start(slots), actions, lim)
    ensures var s := Final(Start(slots), actions, lim);
      && (forall id: nat :: HasId(s.client.store, id) <==> Awaiting(s.client.table, id))
      && (forall i :: 0 <= i < |s.client.table| && s.client.table[i].Out? ==>
            var id := s.client.table[i].id;
            && id in s.flights && s.flights[id].stamp < |s.msgs|
            && Resend(s.client, i) ==
                 if s.client.table[i].received then Rel(id) else Bytes(id, s.msgs[s.flights[id].stamp].bytes))
  {
    hide UpInv, DownInv, TokenInv, BrokerInv, DoneInv, FlightInv;
    StartHolds(slots);
    RunKeeps(Start(slots), actions, lim);
    var s := Final(Start(slots), actions, lim);
    forall id: nat
      ensures HasId(s.client.store, id) <==> Awaiting(s.client.table, id)
    {
      if HasId(s.client.store, id) {
        assert s.client.table[s.flights[id].slot] == Out(id, s.flights[id].qos2, false);
      }
    }
    forall i | 0 <= i < |s.client.table| && s.client.table[i].Out?
      ensures var id := s.client.table[i].id;
        && id in s.flights && s.flights[id].stamp < |s.msgs|
        && Resend(s.client, i) ==
             if s.client.table[i].received then Rel(id) else Bytes(id, s.msgs[s.flights[id].stamp].bytes)
    {
      ResendPossible(s, i);
    }
  }

  /** A PUBREC whose answer cannot be sent leaves its publication impossible to resend; one whose answer is sent does
      not. The packet is released before the answer goes out, and the entry only advances afterwards. */
  lemma RecNeedsItsAnswerSent(s: System, id: nat, sendOk: bool)
    requires Inv(s) && id in s.flights && s.flights[id].qos2 && !s.flights[id].received
    ensures s.flights[id].slot < |Deal(s.client, PubRec(id), sendOk).0.table|
    ensures Resend(Deal(s.client, PubRec(id), sendOk).0, s.flights[id].slot) != Lost <==> sendOk
  {
    hide UpInv, DownInv, TokenInv, BrokerInv, DoneInv;
    RecTable(s.client.table, s.msgs, s.flights, id);
    var m := IndexOf(s.client.store, id);
    assert HasId(s.client.store, id);
    HasWithout(s.client.store, m, id);
  }
}

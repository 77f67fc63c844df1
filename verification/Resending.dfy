/** Why each slot may be sent only once per connection: a run that is allowed in every other respect and sends one slot
    a second time. */
module Resending {
  import opened Bits
  import opened PacketList
  import opened PacketIds
  import opened Handshake
  import opened Session
  import opened SessionProofs

  const ROOM: Limits := Limits(100, 4)
  const FIRST: seq<byte> := [7]
  const SECOND: seq<byte> := [8]

  // ----- a QoS 2 message is published and its PUBREC is answered -----

  const OPENING: seq<Action> := [Connect, PublishMsg(1, true, FIRST, true), BrokerReceives(true), ClientReceives(true)]

  function Opened(i: nat): System
  {
    var held, log := map[1 := Held(0, FIRST, true)], [(0, FIRST)];
    var msgs, flight := [Message(true, FIRST)], Flight(0, 0, true, false);
    if i == 0 then Start(1)
    else if i == 1 then System(State([], [Free]), true, [], [], {}, map[], [], [], map[])
    else if i == 2 then
      System(State([Packet(1, FIRST)], [Out(1, true, false)]), true, [Publish(1, 2, FIRST, 0)], [], {1}, map[], [],
        msgs, map[1 := flight])
    else if i == 3 then
      System(State([Packet(1, FIRST)], [Out(1, true, false)]), true, [], [PubRec(1)], {1}, held, log, msgs,
        map[1 := flight])
    else
      System(State([], [Out(1, true, true)]), true, [PubRel(1)], [], {1}, held, log, msgs,
        map[1 := flight.(received := true)])
  }

  lemma Stored(bytes: seq<byte>)
    requires |bytes| <= 100
    ensures ListStep([], SaveOp(1, bytes), 100, 4) == ([Packet(1, bytes)], true)
  {
    var none: seq<Packet> := [];
    assert none + [Packet(1, bytes)] == [Packet(1, bytes)];
  }

  lemma OpeningStep(i: nat)
    requires i < |OPENING|
    ensures Enabled(Opened(i), OPENING[i]) && Next(Opened(i), OPENING[i], ROOM) == Opened(i + 1)
  {
    assert Find([Free], 0) == 0 && Find([Free], 1) == 1;
    if i == 0 {
      assert Start(1).client.table == [Free];
    } else if i == 1 {
      Stored(FIRST);
    } else if i == 2 {
    } else {
      var ps := [Packet(1, FIRST)];
      assert ps[0].id == 1 && IndexOf(ps, 1) == 0 && Without(ps, 0) == [];
      assert Find([Out(1, true, false)], 1) == 0;
    }
  }

  // ----- the second PUBREL: the second PUBCOMP frees an identifier that is in use again -----

  const CLOSING: seq<Action> :=
    [BrokerReceives(true), BrokerReceives(true), ClientReceives(true), PublishMsg(1, true, SECOND, true),
      ClientReceives(true),
     Disconnect]

  function Closed(i: nat): System
  {
    var held, log := map[1 := Held(0, FIRST, true)], [(0, FIRST)];
    var msgs, both := [Message(true, FIRST)], [Message(true, FIRST), Message(true, SECOND)];
    var out, flights := State([], [Out(1, true, true)]), map[1 := Flight(0, 0, true, true)];
    if i == 0 then System(out, true, [PubRel(1), PubRel(1)], [], {1}, held, log, msgs, flights)
    else if i == 1 then System(out, true, [PubRel(1)], [PubComp(1)], {1}, map[], log, msgs, flights)
    else if i == 2 then System(out, true, [], [PubComp(1), PubComp(1)], {1}, map[], log, msgs, flights)
    else if i == 3 then System(State([], [Free]), true, [], [PubComp(1)], {1}, map[], log, msgs, map[])
    else if i == 4 then
      System(State([Packet(1, SECOND)], [Out(1, true, false)]), true, [Publish(1, 2, SECOND, 1)], [PubComp(1)], {1},
        map[], log, both,
             map[1 := Flight(1, 0, true, false)])
    else if i == 5 then
      System(State([Packet(1, SECOND)], [Free]), true, [Publish(1, 2, SECOND, 1)], [], {1}, map[], log, both, map[])
    else System(State([Packet(1, SECOND)], [Free]), false, [], [], {}, map[], log, both, map[])
  }

  lemma ClosingStep(i: nat)
    requires i < |CLOSING|
    ensures Enabled(Closed(i), CLOSING[i]) && Next(Closed(i), CLOSING[i], ROOM) == Closed(i + 1)
  {
    assert Find([Free], 0) == 0 && Find([Free], 1) == 1;
    assert Find([Out(1, true, true)], 1) == 0 && Find([Out(1, true, false)], 1) == 0;
    if i == 0 {
      assert map[1 := Held(0, FIRST, true)] - {1} == map[];
    } else if i == 1 {
    } else if i == 2 {
      assert map[1 := Flight(0, 0, true, true)] - {1} == map[];
    } else if i == 3 {
      Stored(SECOND);
    } else if i == 4 {
      assert map[1 := Flight(1, 0, true, false)] - {1} == map[];
    }
  }

  /** Everything in this run is allowed but the second sending of slot 0 on one connection. At its end the second
      message has lost its identifier without having been delivered: no packet of it is under way, the broker does not
      know it, the table will not send it again, and its packet stays in the storage. */
  lemma SecondResendLoses()
    ensures Runs(Start(1), OPENING, ROOM)
    ensures var s := Final(Start(1), OPENING, ROOM);
      && |s.client.table| == 1 && s.client.table[0].Out? && s.client.table[0].id in s.sent
      && var again := AfterResend(s, 0, true);
      && Runs(again, CLOSING, ROOM)
      && var t := Final(again, CLOSING, ROOM);
      && |t.msgs| == 2 && t.msgs[1].qos2 && !Flying(t.flights, 1) && Times(t.log, 1) == 0
      && t.up == [] && t.held == map[] && HasId(t.client.store, 1) && !Awaiting(t.client.table, 1)
  {
    hide Next, Enabled, Runs, Final;
    forall i: nat | i < |OPENING|
      ensures Enabled(Opened(i), OPENING[i]) && Next(Opened(i), OPENING[i], ROOM) == Opened(i + 1)
    {
      OpeningStep(i);
    }
    Following(Opened, OPENING, ROOM, 0);
    forall i: nat | i < |CLOSING|
      ensures Enabled(Closed(i), CLOSING[i]) && Next(Closed(i), CLOSING[i], ROOM) == Closed(i + 1)
    {
      ClosingStep(i);
    }
    Following(Closed, CLOSING, ROOM, 0);
    assert OPENING[0..] == OPENING && CLOSING[0..] == CLOSING;
    Outcome();
  }

  lemma Outcome()
    ensures AfterResend(Opened(4), 0, true) == Closed(0) && Opened(4).client.table[0].id in Opened(4).sent
    ensures var t := Closed(6);
      && t.up == [] && t.held == map[] && |t.msgs| == 2 && t.msgs[1].qos2
      && !Flying(t.flights, 1) && Times(t.log, 1) == 0 && HasId(t.client.store, 1) && !Awaiting(t.client.table, 1)
  {
    var t := Closed(6);
    assert t.log[..0] == [];
    assert t.client.store[0].id == 1;
  }
}

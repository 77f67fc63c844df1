/** The DUP flag of PUBLISH packets that are sent again, which section 3.3.1.1 of OASIS MQTT 5.0 asks to be 1. */
module Redelivery {
  import opened Bits
  import opened PacketList
  import opened PacketIds
  import opened Handshake
  import opened Session
  import opened SessionProofs
  import opened PublishHeaders
  import P = PublishPackets

  /** A packet that is sent again as a PUBLISH and says so. */
  predicate SaysAgain(r: Resent)
  {
    r.Bytes? && r.bytes != [] && IsDup(r.bytes[0])
  }

  lemma FirstByte(p: P.Publish)
    requires P.Sendable(p)
    ensures P.EncodePublish(p) != [] && P.EncodePublish(p)[0] == p.flags
  {
  }

  /** In every run, a packet that awaits its first answer is resent as it was first sent: it says that it is sent again
      if and only if it said so the first time. */
  lemma ResendKeepsDup(slots: nat, actions: seq<Action>, lim: Limits, i: nat, p: P.Publish)
    requires Runs(Start(slots), actions, lim)
    requires var s := Final(Start(slots), actions, lim);
      && i < |s.client.table| && s.client.table[i].Out? && !s.client.table[i].received
      && var id := s.client.table[i].id;
      && id in s.flights && s.flights[id].stamp < |s.msgs|
      && P.Sendable(p) && s.msgs[s.flights[id].stamp].bytes == P.EncodePublish(p)
    ensures var s := Final(Start(slots), actions, lim);
      && Resend(s.client, i) == Bytes(s.client.table[i].id, P.EncodePublish(p))
      && (SaysAgain(Resend(s.client, i)) <==> IsDup(p.flags))
  {
    hide Runs, Final, Resend, P.EncodePublish, IsDup, P.Sendable;
    Coupled(slots, actions, lim);
    FirstByte(p);
  }

  /** Every packet handed to publish starts with a header whose DUP flag is clear, as publish writes it. */
  predicate FirstSendings(actions: seq<Action>)
  {
    forall k :: 0 <= k < |actions| && actions[k].PublishMsg? ==> Fresh(actions[k].bytes)
  }

  predicate Fresh(bytes: seq<byte>)
  {
    bytes != [] ==> !IsDup(bytes[0])
  }

  lemma {:induction false} MessagesStayFresh(s: System, actions: seq<Action>, lim: Limits)
    requires Runs(s, actions, lim) && FirstSendings(actions) && forall k :: 0 <= k < |s.msgs| ==> Fresh(s.msgs[k].bytes)
    ensures forall k :: 0 <= k < |Final(s, actions, lim).msgs| ==> Fresh(Final(s, actions, lim).msgs[k].bytes)
    decreases |actions|
  {
    hide Fresh;
    if actions != [] {
      var next := Next(s, actions[0], lim);
      assert forall k :: 0 <= k < |next.msgs| ==> Fresh(next.msgs[k].bytes) by {
        assert next.msgs == s.msgs
            || (actions[0].PublishMsg? && next.msgs == s.msgs + [Message(actions[0].qos2, actions[0].bytes)]);
      }
      assert forall k :: 0 <= k < |actions[1..]| ==> actions[1..][k] == actions[k + 1];
      hide Next, Enabled;
      MessagesStayFresh(next, actions[1..], lim);
    }
  }

  /** So whatever the client resends in any run of such publications, it never says that it is sent again. */
  lemma NeverSaysAgain(slots: nat, actions: seq<Action>, lim: Limits, i: nat)
    requires Runs(Start(slots), actions, lim) && FirstSendings(actions)
    requires i < |Final(Start(slots), actions, lim).client.table|
    ensures !SaysAgain(Resend(Final(Start(slots), actions, lim).client, i))
  {
    hide Runs, Final;
    var s := Final(Start(slots), actions, lim);
    MessagesStayFresh(Start(slots), actions, lim);
    Coupled(slots, actions, lim);
  }

  // ----- one run -----

  const ROOM: Limits := Limits(100, 4)

  /** QoS 2, topic "a", nothing else. */
  const PACKET: P.Publish := P.Publish(0x34, [0x61], 1, [], [])

  function Sent(): seq<byte>
  {
    [0x34, 6, 0, 1, 0x61, 0, 1, 0]
  }

  function Steps(): seq<Action>
  {
    [Connect, PublishMsg(1, true, Sent(), true), Disconnect, Connect, Action.ResendSlot(0, true)]
  }

  function Along(i: nat): System
  {
    var client := State([Packet(1, Sent())], [Out(1, true, false)]);
    var msgs, flights := [Message(true, Sent())], map[1 := Flight(0, 0, true, false)];
    if i == 0 then Start(1)
    else if i == 1 then System(State([], [Free]), true, [], [], {}, map[], [], [], map[])
    else if i == 2 then System(client, true, [Publish(1, 2, Sent(), 0)], [], {1}, map[], [], msgs, flights)
    else if i == 3 then System(client, false, [], [], {}, map[], [], msgs, flights)
    else if i == 4 then System(client, true, [], [], {}, map[], [], msgs, flights)
    else System(client, true, [Publish(1, 2, Sent(), 0)], [], {1}, map[], [], msgs, flights)
  }

  lemma AlongStep(i: nat)
    requires i < |Steps()|
    ensures Enabled(Along(i), Steps()[i]) && Next(Along(i), Steps()[i], ROOM) == Along(i + 1)
  {
    assert Find([Free], 0) == 0 && Find([Free], 1) == 1;
    if i == 0 {
      assert Start(1).client.table == [Free];
    } else if i == 1 {
      var none: seq<Packet> := [];
      assert none + [Packet(1, Sent())] == [Packet(1, Sent())];
    } else if i == 4 {
      var ps := [Packet(1, Sent())];
      assert ps[0].id == 1 && IndexOf(ps, 1) == 0;
    }
  }

  lemma SentIsPacket()
    ensures P.Sendable(PACKET) && P.EncodePublish(PACKET) == Sent()
  {
    SixBitsTest();
    assert P.EncodeFixed(0x34, [0x61], 1) == [0, 1, 0x61, 0, 1];
    assert P.Body(PACKET) == [0, 1, 0x61, 0, 1, 0];
  }

  lemma SixBitsTest()
    ensures HasPacketID(0x34) && !IsDup(0x34)
  {
    FieldTests(0x34);
  }

  /** A run in which a packet goes up, is lost with its connection, and is sent again without the mark. */
  lemma SentAgainUnmarked()
    ensures Runs(Start(1), Steps(), ROOM) && P.Sendable(PACKET)
    ensures var s := Final(Start(1), Steps(), ROOM);
      s.up == [Publish(1, 2, P.EncodePublish(PACKET), 0)] && s.msgs == [Message(true, P.EncodePublish(PACKET))]
    ensures !IsDup(P.EncodePublish(PACKET)[0])
  {
    hide Runs, Final, Next, Enabled, P.EncodePublish, IsDup, P.Sendable;
    forall i: nat | i < |Steps()|
      ensures Enabled(Along(i), Steps()[i]) && Next(Along(i), Steps()[i], ROOM) == Along(i + 1)
    {
      AlongStep(i);
    }
    Following(Along, Steps(), ROOM, 0);
    assert Steps()[0..] == Steps();
    SentIsPacket();
    SixBitsTest();
  }
}

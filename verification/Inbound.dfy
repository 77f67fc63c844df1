/** The broker's own publications, over runs: which of them the client answers and how, and what its table remembers of
    them. */
module Inbound {
  import opened Bits
  import opened Options
  import opened PacketList
  import opened PacketIds
  import opened Handshake
  import opened Session
  import opened SessionProofs
  import opened StepOutcomes

  // ----- what is heard and said -----

  /** One step as seen from outside: the client before it, the packet it takes, whether its send succeeds, and what it
      puts on the upward channel. */
  datatype Turn = Turn(client: State, heard: Maybe<Wire>, sendOk: bool, said: seq<Wire>)

  function TurnOf(s: System, a: Action, lim: Limits): Turn
    requires Enabled(s, a)
  {
    var up := Next(s, a, lim).up;
    Turn(s.client,
         if a.ClientReceives? then Just(s.down[0]) else Nothing,
         !a.ClientReceives? || a.sendOk,
         if |up| > |s.up| then up[|s.up|..] else [])
  }

  ghost function Turns(s: System, actions: seq<Action>, lim: Limits): seq<Turn>
    requires Runs(s, actions, lim)
    decreases |actions|
  {
    if actions == [] then [] else [TurnOf(s, actions[0], lim)] + Turns(Next(s, actions[0], lim), actions[1..], lim)
  }

  /** PUBACK, PUBREC and PUBCOMP go up only as answers, at most one a turn, and exactly when the packet asks for an
      answer, the send succeeds and, for a publication, a slot is free. */
  ghost predicate WellAnswered(t: Turn)
  {
    && (forall m :: m in t.said && Downward(m) ==> t.heard.Just? && Answers(m, t.heard.value))
    && (t.heard.Just? ==>
          && |t.said| <= 1
          && (t.said != [] ==> Answers(t.said[0], t.heard.value))
          && (t.said != [] <==>
                AsksAnswer(t.heard.value) && t.sendOk && (t.heard.value.Publish? ==> Room(t.client.table))))
  }

  lemma ReceptionAnswered(s: System, sendOk: bool, lim: Limits)
    requires Inv(s) && Enabled(s, ClientReceives(sendOk))
    ensures WellAnswered(TurnOf(s, ClientReceives(sendOk), lim))
  {
    hide UpInv, TokenInv, TableInv, DoneInv, Times, BrokerInv, FlightInv, Deal, Room, Keyed, InFlight;
    var m := s.down[0];
    assert DownOk(m, s.sent, s.held, s.log, s.flights);
    DealResults(s.client, m, sendOk);
    assert m.PubRec? ==> HasId(s.client.store, m.id);
    var answer := Deal(s.client, m, sendOk).1;
    assert answer.Just? ==> (s.up + [answer.value])[|s.up|..] == [answer.value];
  }

  /** Every other step of the client puts at most a PUBLISH or a PUBREL on the channel. */
  lemma OthersSpeakUpward(s: System, a: Action, lim: Limits)
    requires Enabled(s, a) && !a.ClientReceives?
    ensures forall m :: m in TurnOf(s, a, lim).said ==> Upward(m)
  {
    hide ListStep, Replace, Find, Resend, StampOf;
    match a {
      case PublishMsg(id, qos2, bytes, sendOk) =>
        var m := Publish(id, if qos2 then 2 else 1, bytes, |s.msgs|);
        assert Next(s, a, lim).up == s.up || Next(s, a, lim).up == s.up + [m];
        assert (s.up + [m])[|s.up|..] == [m];
      case ResendSlot(slot, sendOk) =>
        assert Next(s, a, lim).up == s.up || exists m :: Upward(m) && Next(s, a, lim).up == s.up + [m];
      case _ =>
    }
  }

  lemma OthersAnswered(s: System, a: Action, lim: Limits)
    requires Enabled(s, a) && !a.ClientReceives?
    ensures WellAnswered(TurnOf(s, a, lim))
  {
    OthersSpeakUpward(s, a, lim);
    hide Next, Enabled, Room, Answers;
  }

  lemma StepAnswered(s: System, a: Action, lim: Limits)
    requires Inv(s) && Enabled(s, a)
    ensures WellAnswered(TurnOf(s, a, lim))
  {
    hide Inv, Next, WellAnswered, Enabled;
    if a.ClientReceives? {
      ReceptionAnswered(s, a.sendOk, lim);
    } else {
      OthersAnswered(s, a, lim);
    }
  }

  /** Over every run, every answer is to the packet just received: PUBACK to QoS 1, PUBREC to QoS 2, PUBCOMP to
      PUBREL. */
  lemma {:induction false} RunAnswered(s: System, actions: seq<Action>, lim: Limits)
    requires Inv(s) && Runs(s, actions, lim)
    ensures forall i :: 0 <= i < |Turns(s, actions, lim)| ==> WellAnswered(Turns(s, actions, lim)[i])
    decreases |actions|
  {
    hide Inv, WellAnswered, TurnOf;
    if actions != [] {
      StepAnswered(s, actions[0], lim);
      StepKeeps(s, actions[0], lim);
      RunAnswered(Next(s, actions[0], lim), actions[1..], lim);
    }
  }

  // ----- what the table remembers -----

  predicate Names(e: Entry, id: nat)
  {
    e.In? && e.id == id
  }

  /** The number of entries for an identifier of the broker. */
  function Pending(table: seq<Entry>, id: nat): nat
  {
    if table == [] then 0 else (if Names(table[0], id) then 1 else 0) + Pending(table[1..], id)
  }

  lemma {:induction false} PendingUpdate(table: seq<Entry>, i: nat, e: Entry, id: nat)
    requires i < |table|
    ensures Pending(table[i := e], id)
         == Pending(table, id) - (if Names(table[i], id) then 1 else 0) + (if Names(e, id) then 1 else 0)
  {
    if i == 0 {
      assert table[0 := e][1..] == table[1..];
    } else {
      PendingUpdate(table[1..], i - 1, e, id);
      assert table[i := e][1..] == table[1..][i - 1 := e];
    }
  }

  predicate Sound(table: seq<Entry>)
  {
    forall i :: 0 <= i < |table| ==> EntryOk(table[i])
  }

  lemma {:induction false} PendingIsKeyed(table: seq<Entry>, id: nat)
    requires Sound(table)
    ensures Pending(table, id) > 0 <==> Keyed(table, id + 0x10000)
  {
    if table != [] {
      PendingIsKeyed(table[1..], id);
      assert Keyed(table, id + 0x10000) <==> Names(table[0], id) || Keyed(table[1..], id + 0x10000) by {
        if Keyed(table[1..], id + 0x10000) {
          var i :| 0 <= i < |table[1..]| && KeyOf(table[1..][i]) == id + 0x10000;
          assert KeyOf(table[i + 1]) == id + 0x10000;
        }
        if Keyed(table, id + 0x10000) && !Names(table[0], id) {
          var i :| 0 <= i < |table| && KeyOf(table[i]) == id + 0x10000;
          assert KeyOf(table[1..][i - 1]) == id + 0x10000;
        }
      }
    }
  }

  /** Overwriting the first entry with a key. */
  lemma PendingReplace(table: seq<Entry>, key: nat, e: Entry, id: nat)
    requires Sound(table) && EntryOk(e)
    ensures Sound(Replace(table, key, e).0)
    ensures Pending(Replace(table, key, e).0, id)
         == if !Keyed(table, key) then Pending(table, id)
            else Pending(table, id) - (if key == id + 0x10000 then 1 else 0) + (if Names(e, id) then 1 else 0)
  {
    var i := Find(table, key);
    KeyedIsFound(table, key);
    if i < |table| {
      PendingUpdate(table, i, e, id);
      assert EntryOk(table[i]);
    }
  }

  lemma PendingAdvance(table: seq<Entry>, key: nat, id: nat)
    ensures Pending(Advance(table, key).0, id) == Pending(table, id)
  {
    var i := Find(table, key);
    if i < |table| && !table[i].Free? {
      PendingUpdate(table, i, table[i].(received := true), id);
    }
  }

  /** The record of an identifier after one more turn. A QoS 2 publication adds to it, and so does a QoS 1 publication
      whose PUBACK cannot be sent; a PUBREL that is answered takes one away; nothing else matters. */
  ghost function Noted(n: nat, t: Turn, id: nat): nat
  {
    if t.heard.Nothing? || t.heard.value.id != id then n
    else
      match t.heard.value
      case Publish(_, qos, _, _) => if Room(t.client.table) && (qos >= 2 || (qos == 1 && !t.sendOk)) then n + 1 else n
      case PubRel(_) => if t.sendOk && n > 0 then n - 1 else n
      case _ => n
  }

  ghost function Record(n: nat, turns: seq<Turn>, id: nat): nat
    decreases |turns|
  {
    if turns == [] then n else Record(Noted(n, turns[0], id), turns[1..], id)
  }

  lemma DealPending(c: State, m: Wire, sendOk: bool, id: nat)
    requires Sound(c.table) && IsId(m.id)
    ensures Pending(Deal(c, m, sendOk).0.table, id) == Noted(Pending(c.table, id), Turn(c, Just(m), sendOk, []), id)
  {
    hide Keyed, Pending, Find, Replace, Advance, ListStep, IndexOf;
    var key := m.id + 0x10000;
    if m.Publish? {
      KeyedIsFound(c.table, 0);
      var e := EntryFor(key, m.qos != 1);
      PendingReplace(c.table, 0, e, id);
      var table := Replace(c.table, 0, e).0;
      PendingReplace(table, key, Free, id);
      ListedIsKeyed(c.table, e);
    } else if m.PubRec? {
      PendingAdvance(c.table, m.id, id);
    } else if m.PubRel? {
      PendingReplace(c.table, key, Free, id);
      PendingIsKeyed(c.table, m.id);
    } else {
      PendingReplace(c.table, m.id, Free, id);
    }
  }

  lemma ListedIsKeyed(table: seq<Entry>, e: Entry)
    ensures Replace(table, 0, e).1 <==> Room(table)
    ensures Room(table) ==> Keyed(Replace(table, 0, e).0, KeyOf(e))
  {
    KeyedIsFound(table, 0);
    if Room(table) {
      assert KeyOf(Replace(table, 0, e).0[Find(table, 0)]) == KeyOf(e);
    }
  }

  lemma StepPending(s: System, a: Action, lim: Limits, id: nat)
    requires Inv(s) && Enabled(s, a)
    ensures Pending(Next(s, a, lim).client.table, id) == Noted(Pending(s.client.table, id), TurnOf(s, a, lim), id)
  {
    hide UpInv, TokenInv, StoreInv, DoneInv, Times, BrokerInv, FlightInv, Pending, Deal, ListStep;
    assert Sound(s.client.table);
    if a.ClientReceives? {
      assert DownOk(s.down[0], s.sent, s.held, s.log, s.flights);
      DealPending(s.client, s.down[0], a.sendOk, id);
    } else if a.PublishMsg? {
      PendingReplace(s.client.table, 0, EntryFor(a.id, a.qos2), id);
    }
  }

  /** Over every run, the table lists each identifier of the broker as often as the record says: the number of its
      publications that were taken and not answered by PUBACK, less those whose PUBREL was answered. */
  lemma {:induction false} RunPending(s: System, actions: seq<Action>, lim: Limits, id: nat)
    requires Inv(s) && Runs(s, actions, lim)
    ensures Pending(Final(s, actions, lim).client.table, id)
         == Record(Pending(s.client.table, id), Turns(s, actions, lim), id)
    decreases |actions|
  {
    hide Inv, Noted, TurnOf, Pending;
    if actions != [] {
      StepPending(s, actions[0], lim, id);
      StepKeeps(s, actions[0], lim);
      RunPending(Next(s, actions[0], lim), actions[1..], lim, id);
    }
  }

  lemma {:induction false} NothingPending(slots: nat, id: nat)
    ensures Pending(seq(slots, _ => Free), id) == 0
  {
    if slots > 0 {
      NothingPending(slots - 1, id);
      assert seq(slots, _ => Free)[1..] == seq(slots - 1, _ => Free);
    }
  }

  /** The two laws for every run of the client. */
  lemma InboundLedger(slots: nat, actions: seq<Action>, lim: Limits, id: nat)
    requires Runs(Start(slots), actions, lim)
    ensures Pending(Final(Start(slots), actions, lim).client.table, id)
      == Record(0, Turns(Start(slots), actions, lim), id)
    ensures forall i :: 0 <= i < |Turns(Start(slots), actions, lim)| ==>
      WellAnswered(Turns(Start(slots), actions, lim)[i])
  {
    StartHolds(slots);
    NothingPending(slots, id);
    RunPending(Start(slots), actions, lim, id);
    RunAnswered(Start(slots), actions, lim);
  }

  // ----- QoS 1 leaves nothing, QoS 2 stays until its PUBREL -----

  lemma NotKeyedBefore(table: seq<Entry>, i: nat, key: nat)
    requires i <= |table|
    ensures Keyed(table[..i], key) ==> Keyed(table, key)
  {
    if Keyed(table[..i], key) {
      var j :| 0 <= j < i && KeyOf(table[..i][j]) == key;
      assert KeyOf(table[j]) == key;
    }
  }

  /** An answered QoS 1 publication under an identifier that is not listed leaves the table as it was. */
  lemma AnsweredOnceForgotten(s: System, lim: Limits)
    requires Inv(s) && Enabled(s, ClientReceives(true)) && s.down[0].Publish? && s.down[0].qos == 1
    requires Pending(s.client.table, s.down[0].id) == 0
    ensures Next(s, ClientReceives(true), lim).client == s.client
  {
    hide UpInv, TokenInv, StoreInv, DoneInv, Times, BrokerInv, FlightInv, Pending;
    var c, m := s.client, s.down[0];
    var slot := Find(c.table, 0);
    assert Sound(c.table);
    PendingIsKeyed(c.table, m.id);
    if slot < |c.table| {
      FirstIsFound(c.table, 0, slot);
      NotKeyedBefore(c.table, slot, m.id + 0x10000);
      InboundLists(c, m, true, slot, 0);
    }
  }

  /** The packets that may take an entry of an identifier away. */
  predicate Ends(t: Turn, id: nat)
  {
    t.heard.Just? && t.heard.value.id == id
      && (t.heard.value.PubRel? || (t.heard.value.Publish? && t.heard.value.qos == 1))
  }

  lemma DealHolds(c: State, m: Wire, sendOk: bool, slot: nat, e: Entry)
    requires Sound(c.table) && IsId(m.id) && e.In? && slot < |c.table| && c.table[slot] == e
    requires !Ends(Turn(c, Just(m), sendOk, []), e.id)
    ensures slot < |Deal(c, m, sendOk).0.table| && Deal(c, m, sendOk).0.table[slot] == e
  {
    hide Deal, First;
    assert EntryOk(e);
    if m.Publish? && m.qos > 0 {
      var free := Find(c.table, 0);
      if free < |c.table| {
        FirstIsFound(c.table, 0, free);
        var i := Find(c.table, m.id + 0x10000);
        EarlierOrNone(c.table, free, m.id + 0x10000);
        FirstHasKey(c.table, m.id + 0x10000, i);
        InboundLists(c, m, sendOk, free, i);
      } else {
        NoRoomNoChange(c, m, sendOk);
      }
    } else {
      OthersList(c, m, sendOk, slot);
      FirstHasKey(c.table, m.id, slot);
      FirstHasKey(c.table, m.id + 0x10000, slot);
    }
  }

  lemma EarlierOrNone(table: seq<Entry>, n: nat, key: nat)
    requires n < |table|
    ensures if Find(table, key) < n then First(table, key, Find(table, key)) else !Keyed(table[..n], key)
  {
    assert forall j :: 0 <= j < n ==> table[..n][j] == table[j];
    if Find(table, key) < n {
      FirstIsFound(table, key, Find(table, key));
    }
  }

  lemma NoRoomNoChange(c: State, m: Wire, sendOk: bool)
    requires m.Publish? && Find(c.table, 0) == |c.table|
    ensures Deal(c, m, sendOk).0 == c
  {
  }

  lemma FirstHasKey(table: seq<Entry>, key: nat, i: nat)
    ensures First(table, key, i) ==> i < |table| && KeyOf(table[i]) == key
  {
  }

  lemma StepHolds(s: System, a: Action, lim: Limits, slot: nat, e: Entry)
    requires Inv(s) && Enabled(s, a) && e.In? && !Ends(TurnOf(s, a, lim), e.id)
    requires slot < |s.client.table| && s.client.table[slot] == e
    ensures slot < |Next(s, a, lim).client.table| && Next(s, a, lim).client.table[slot] == e
  {
    hide UpInv, TokenInv, StoreInv, DoneInv, Times, BrokerInv, FlightInv, ListStep, Deal;
    if a.ClientReceives? {
      assert DownOk(s.down[0], s.sent, s.held, s.log, s.flights);
      DealHolds(s.client, s.down[0], a.sendOk, slot, e);
    }
  }

  /** Once listed, a QoS 2 publication stays in its slot in every state of every run until its PUBREL arrives, or a QoS
      1 publication with its identifier. */
  lemma {:induction false} HeldUntilReleased(s: System, actions: seq<Action>, lim: Limits, slot: nat, e: Entry)
    requires Inv(s) && Runs(s, actions, lim) && e.In?
    requires forall i :: 0 <= i < |Turns(s, actions, lim)| ==> !Ends(Turns(s, actions, lim)[i], e.id)
    requires slot < |s.client.table| && s.client.table[slot] == e
    ensures slot < |Final(s, actions, lim).client.table| && Final(s, actions, lim).client.table[slot] == e
    decreases |actions|
  {
    hide Inv, Ends, TurnOf;
    if actions != [] {
      var next := Next(s, actions[0], lim);
      assert Turns(s, actions, lim)[0] == TurnOf(s, actions[0], lim);
      StepHolds(s, actions[0], lim, slot, e);
      StepKeeps(s, actions[0], lim);
      assert forall i :: 0 <= i < |Turns(next, actions[1..], lim)| ==>
        Turns(next, actions[1..], lim)[i] == Turns(s, actions, lim)[i + 1];
      HeldUntilReleased(next, actions[1..], lim, slot, e);
    }
  }

  /** Taking a QoS 2 publication lists it: the table names its identifier and QoS in a slot that was free. */
  lemma QoS2IsListed(s: System, sendOk: bool, lim: Limits) returns (slot: nat)
    requires Inv(s) && Enabled(s, ClientReceives(sendOk)) && s.down[0].Publish? && s.down[0].qos >= 2
    requires Room(s.client.table)
    ensures slot < |s.client.table| && s.client.table[slot] == Free
    ensures Next(s, ClientReceives(sendOk), lim).client
         == s.client.(table := s.client.table[slot := In(s.down[0].id, true, false)])
  {
    hide UpInv, TokenInv, StoreInv, DoneInv, Times, BrokerInv, FlightInv;
    slot := Find(s.client.table, 0);
    KeyedIsFound(s.client.table, 0);
    FirstIsFound(s.client.table, 0, slot);
    InboundLists(s.client, s.down[0], sendOk, slot, 0);
  }

  /** An answered PUBREL forgets its identifier exactly when it was listed at most once. */
  lemma ReleaseForgets(s: System, lim: Limits)
    requires Inv(s) && Enabled(s, ClientReceives(true)) && s.down[0].PubRel?
    ensures Pending(Next(s, ClientReceives(true), lim).client.table, s.down[0].id) == 0
        <==> Pending(s.client.table, s.down[0].id) <= 1
  {
    hide Inv, Pending, Next;
    StepPending(s, ClientReceives(true), lim, s.down[0].id);
  }

  /** Over whole runs: after an answered PUBREL the table has forgotten the identifier if and only if the run took it at
      most once since it was last forgotten. */
  lemma ForgottenExactly(slots: nat, actions: seq<Action>, lim: Limits)
    requires Runs(Start(slots), actions, lim)
    requires var s := Final(Start(slots), actions, lim); Enabled(s, ClientReceives(true)) && s.down[0].PubRel?
    ensures var s := Final(Start(slots), actions, lim);
      Pending(Next(s, ClientReceives(true), lim).client.table, s.down[0].id) == 0
      <==> Record(0, Turns(Start(slots), actions, lim), s.down[0].id) <= 1
  {
    hide Inv, Next, Turns, Pending;
    var s := Final(Start(slots), actions, lim);
    InboundLedger(slots, actions, lim, s.down[0].id);
    StartHolds(slots);
    RunKeeps(Start(slots), actions, lim);
    ReleaseForgets(s, lim);
  }

  // ----- one run: a publication that is taken twice -----

  const ROOM: Limits := Limits(100, 4)

  const AGAIN: Wire := Publish(7, 2, [1], 0)

  const LISTED: Entry := In(7, true, false)

  /** The PUBREC is lost with its connection, so the broker publishes again, as section 4.4 of OASIS MQTT 5.0 asks. */
  function Steps(): seq<Action>
  {
    [Connect, BrokerSends(AGAIN), ClientReceives(true), Disconnect, Connect, BrokerSends(AGAIN), ClientReceives(true),
     BrokerReceives(true), BrokerSends(PubRel(7)), ClientReceives(true)]
  }

  function With(table: seq<Entry>, connected: bool, up: seq<Wire>, down: seq<Wire>): System
  {
    System(State([], table), connected, up, down, {}, map[], [], [], map[])
  }

  function Along(i: nat): System
  {
    if i == 0 then Start(2)
    else if i == 1 then With([Free, Free], true, [], [])
    else if i == 2 then With([Free, Free], true, [], [AGAIN])
    else if i == 3 then With([LISTED, Free], true, [PubRec(7)], [])
    else if i == 4 then With([LISTED, Free], false, [], [])
    else if i == 5 then With([LISTED, Free], true, [], [])
    else if i == 6 then With([LISTED, Free], true, [], [AGAIN])
    else if i == 7 then With([LISTED, LISTED], true, [PubRec(7)], [])
    else if i == 8 then With([LISTED, LISTED], true, [], [])
    else if i == 9 then With([LISTED, LISTED], true, [], [PubRel(7)])
    else With([Free, LISTED], true, [PubComp(7)], [])
  }

  lemma AlongStep(i: nat)
    requires i < |Steps()|
    ensures Enabled(Along(i), Steps()[i]) && Next(Along(i), Steps()[i], ROOM) == Along(i + 1)
  {
    assert Find([Free, Free], 0) == 0 && Find([LISTED, LISTED], 7 + 0x10000) == 0;
    FirstFree();
    if i == 0 {
      assert Start(2).client.table == [Free, Free];
    }
  }

  lemma FirstFree()
    ensures Find([LISTED, Free], 0) == 1
  {
    FindFirst([LISTED, Free], 0, 1);
  }

  /** The client lists the second copy in a second slot. The exchange ends with PUBCOMP, nothing is under way, and the
      table keeps an entry that no packet of the exchange will ever free. */
  lemma RepeatLeaks()
    ensures Runs(Start(2), Steps(), ROOM)
    ensures Final(Start(2), Steps(), ROOM) == With([Free, LISTED], true, [PubComp(7)], [])
    ensures Pending(Final(Start(2), Steps(), ROOM).client.table, 7) == 1
  {
    hide Runs, Final, Next, Enabled;
    forall i: nat | i < |Steps()|
      ensures Enabled(Along(i), Steps()[i]) && Next(Along(i), Steps()[i], ROOM) == Along(i + 1)
    {
      AlongStep(i);
    }
    Following(Along, Steps(), ROOM, 0);
    assert Steps()[0..] == Steps();
    PendingUpdate([Free, Free], 1, LISTED, 7);
    assert [Free, Free][1 := LISTED] == [Free, LISTED] && Pending([Free, Free], 7) == 0;
  }
}

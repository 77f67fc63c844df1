/** The order in which the resend loop goes through the slots, against section 4.6 of OASIS MQTT 5.0, which asks for the
    order in which the packets were first sent. */
module ResendOrder {
  import opened Bits
  import opened PacketList
  import opened PacketIds
  import opened Handshake
  import opened Session
  import opened SessionProofs

  /** The messages whose PUBLISH packets the loop sends again, from slot i on, as their numbers in the order of
      publishing. */
  function Pass(c: State, flights: map<nat, Flight>, i: nat): seq<nat>
    requires i <= |c.table|
    decreases |c.table| - i
  {
    if i == |c.table| then []
    else (if Resend(c, i).Bytes? then [StampOf(flights, Resend(c, i).id)] else []) + Pass(c, flights, i + 1)
  }

  predicate Increasing(s: seq<nat>)
  {
    forall i, j :: 0 <= i < j < |s| ==> s[i] < s[j]
  }

  /** The loop would send again in the order of publishing. */
  predicate OrderKept(s: System)
  {
    Increasing(Pass(s.client, s.flights, 0))
  }

  /** An entry whose PUBLISH packet is sent again. */
  predicate Awaits(e: Entry)
  {
    e.Out? && !e.received
  }

  /** The first free slot lies behind every slot whose packet would be sent again. */
  predicate FreeSlotBehind(table: seq<Entry>)
  {
    forall i :: 0 <= i < |table| && Awaits(table[i]) ==> i < Find(table, 0)
  }

  // ----- the order of the slots -----

  predicate SlotsInOrder(table: seq<Entry>, flights: map<nat, Flight>, n: nat)
  {
    forall i, j :: n <= i < j < |table| && Awaits(table[i]) && Awaits(table[j]) ==>
      StampOf(flights, table[i].id) < StampOf(flights, table[j].id)
  }

  lemma ResentAwaits(s: System, i: nat)
    requires Inv(s) && i < |s.client.table|
    ensures Resend(s.client, i).Bytes? <==> Awaits(s.client.table[i])
    ensures Awaits(s.client.table[i]) ==> Resend(s.client, i).id == s.client.table[i].id
  {
    hide UpInv, DownInv, TokenInv, BrokerInv, DoneInv, StoreInv, Resend, FlightInv;
    if s.client.table[i].Out? {
      ResendPossible(s, i);
      assert s.client.table[s.flights[s.client.table[i].id].slot] == s.client.table[i];
    } else {
      NotResent(s.client, i);
    }
  }

  lemma NotResent(c: State, i: nat)
    requires i < |c.table| && !c.table[i].Out?
    ensures Resend(c, i) == Skip
  {
  }

  lemma {:induction false} PassMembers(s: System, n: nat, x: nat)
    requires Inv(s) && n <= |s.client.table|
    ensures x in Pass(s.client, s.flights, n) <==>
      exists i :: n <= i < |s.client.table| && Awaits(s.client.table[i])
        && StampOf(s.flights, s.client.table[i].id) == x
    decreases |s.client.table| - n
  {
    hide Inv, Resend, StampOf;
    if n < |s.client.table| {
      ResentAwaits(s, n);
      PassMembers(s, n + 1, x);
    }
  }

  predicate Below(x: nat, rest: seq<nat>)
  {
    forall j :: 0 <= j < |rest| ==> x < rest[j]
  }

  lemma IncreasingTail(x: nat, rest: seq<nat>, s: seq<nat>)
    requires s == [x] + rest && Increasing(s)
    ensures Below(x, rest) && Increasing(rest)
  {
    forall j | 0 <= j < |rest|
      ensures x < rest[j]
    {
      assert s[0] < s[j + 1];
    }
    forall i, j | 0 <= i < j < |rest|
      ensures rest[i] < rest[j]
    {
      assert s[i + 1] < s[j + 1];
    }
  }

  lemma IncreasingCons(x: nat, rest: seq<nat>, s: seq<nat>)
    requires s == [x] + rest
    ensures Increasing(s) <==> Below(x, rest) && Increasing(rest)
  {
    if Increasing(s) {
      IncreasingTail(x, rest, s);
    }
  }

  /** The loop keeps the order exactly when the slots do. */
  lemma {:induction false} PassInOrder(s: System, n: nat)
    requires Inv(s) && n <= |s.client.table|
    ensures Increasing(Pass(s.client, s.flights, n)) <==> SlotsInOrder(s.client.table, s.flights, n)
    decreases |s.client.table| - n
  {
    hide Inv, Resend, StampOf, Increasing;
    if n == |s.client.table| {
      NothingInOrder();
    } else {
      ResentAwaits(s, n);
      PassInOrder(s, n + 1);
      var rest := Pass(s.client, s.flights, n + 1);
      if Awaits(s.client.table[n]) {
        var x := StampOf(s.flights, s.client.table[n].id);
        IncreasingCons(x, rest, Pass(s.client, s.flights, n));
        BelowSlots(s, n + 1, x);
      } else {
        assert [] + rest == rest;
      }
    }
  }

  lemma BelowSlots(s: System, n: nat, x: nat)
    requires Inv(s) && n <= |s.client.table|
    ensures Below(x, Pass(s.client, s.flights, n)) <==>
      forall i :: n <= i < |s.client.table| && Awaits(s.client.table[i]) ==>
        x < StampOf(s.flights, s.client.table[i].id)
  {
    hide Inv, StampOf, Pass;
    var rest := Pass(s.client, s.flights, n);
    if Below(x, rest) {
      forall i | n <= i < |s.client.table| && Awaits(s.client.table[i])
        ensures x < StampOf(s.flights, s.client.table[i].id)
      {
        PassMembers(s, n, StampOf(s.flights, s.client.table[i].id));
      }
    }
    if forall i :: n <= i < |s.client.table| && Awaits(s.client.table[i]) ==>
      x < StampOf(s.flights, s.client.table[i].id) {
      forall j | 0 <= j < |rest|
        ensures x < rest[j]
      {
        PassMembers(s, n, rest[j]);
      }
    }
  }

  lemma NothingInOrder()
    ensures Increasing([])
  {
  }

  // ----- one step -----

  /** A step in which a publication begins. */
  predicate Begins(s: System, a: Action, lim: Limits)
    requires Enabled(s, a)
  {
    a.PublishMsg? && |Next(s, a, lim).msgs| > |s.msgs|
  }

  /** Beginning a publication keeps the order if and only if its slot lies behind those that await an answer. */
  lemma PublishOrder(s: System, a: Action, lim: Limits)
    requires Inv(s) && Enabled(s, a) && Begins(s, a, lim) && OrderKept(s)
    ensures OrderKept(Next(s, a, lim)) <==> FreeSlotBehind(s.client.table)
  {
    hide OrderKept, Pass, Inv;
    var next := Next(s, a, lim);
    StepKeeps(s, a, lim);
    assert OrderKept(s) <==> SlotsInOrder(s.client.table, s.flights, 0) by {
      OrderOfSlots(s);
    }
    assert OrderKept(next) <==> SlotsInOrder(next.client.table, next.flights, 0) by {
      OrderOfSlots(next);
    }
    var slot := Find(s.client.table, 0);
    assert next.client.table == s.client.table[slot := Out(a.id, a.qos2, false)];
    assert next.flights == s.flights[a.id := Flight(|s.msgs|, slot, a.qos2, false)];
    SlotIsFree(s, a);
    SlotJoins(s.client.table, s.flights, a.id, a.qos2, slot, |s.msgs|);
  }

  lemma OrderOfSlots(s: System)
    requires Inv(s)
    ensures OrderKept(s) <==> SlotsInOrder(s.client.table, s.flights, 0)
  {
    PassInOrder(s, 0);
  }

  lemma SlotIsFree(s: System, a: Action)
    requires Inv(s) && Enabled(s, a) && a.PublishMsg?
    ensures !Awaits(s.client.table[Find(s.client.table, 0)])
    ensures forall i :: 0 <= i < |s.client.table| && Awaits(s.client.table[i]) ==>
      && s.client.table[i].id != a.id && s.client.table[i].id in s.flights
      && s.flights[s.client.table[i].id].stamp < |s.msgs|
  {
    hide UpInv, DownInv, TokenInv, BrokerInv, DoneInv, StoreInv;
  }

  /** The newest message in a slot is in order exactly when no slot behind it awaits an answer. */
  lemma SlotJoins(table: seq<Entry>, flights: map<nat, Flight>, id: nat, qos2: bool, slot: nat, stamp: nat)
    requires slot < |table| && !Awaits(table[slot]) && SlotsInOrder(table, flights, 0)
    requires forall i :: 0 <= i < |table| && Awaits(table[i]) ==>
      table[i].id != id && table[i].id in flights && flights[table[i].id].stamp < stamp
    ensures SlotsInOrder(table[slot := Out(id, qos2, false)], flights[id := Flight(stamp, slot, qos2, false)], 0) <==>
      forall i :: 0 <= i < |table| && Awaits(table[i]) ==> i < slot
  {
    var table', flights' := table[slot := Out(id, qos2, false)], flights[id := Flight(stamp, slot, qos2, false)];
    if i :| 0 <= i < |table| && Awaits(table[i]) && !(i < slot) {
      assert Awaits(table'[slot]) && Awaits(table'[i]) && slot < i;
      assert StampOf(flights', table'[slot].id) >= StampOf(flights', table'[i].id);
    }
  }

  /** No other step puts a packet out of order. */
  lemma OthersKeepOrder(s: System, a: Action, lim: Limits)
    requires Inv(s) && Enabled(s, a) && !Begins(s, a, lim) && OrderKept(s)
    ensures OrderKept(Next(s, a, lim))
  {
    hide OrderKept, Inv;
    var next := Next(s, a, lim);
    StepKeeps(s, a, lim);
    OrderOfSlots(s);
    OrderOfSlots(next);
    assert |next.client.table| == |s.client.table|
        && (forall i :: 0 <= i < |s.client.table| && Awaits(next.client.table[i]) ==>
          next.client.table[i] == s.client.table[i])
        && (forall id :: id in next.flights ==> id in s.flights && next.flights[id].stamp == s.flights[id].stamp) by {
      OthersLeave(s, a, lim);
    }
    AwaitedFlies(next);
    hide Next;
  }

  lemma AwaitedFlies(s: System)
    requires Inv(s)
    ensures forall i :: 0 <= i < |s.client.table| && Awaits(s.client.table[i]) ==> s.client.table[i].id in s.flights
  {
    hide UpInv, DownInv, TokenInv, BrokerInv, DoneInv, StoreInv;
  }

  /** What awaits an answer after such a step awaited it before, in the same slot. */
  lemma OthersLeave(s: System, a: Action, lim: Limits)
    requires Enabled(s, a) && !Begins(s, a, lim)
    ensures var next := Next(s, a, lim);
      && |next.client.table| == |s.client.table|
      && (forall i :: 0 <= i < |s.client.table| && Awaits(next.client.table[i]) ==>
        next.client.table[i] == s.client.table[i])
      && (forall id :: id in next.flights ==> id in s.flights && next.flights[id].stamp == s.flights[id].stamp)
  {
    if a.ClientReceives? {
      ReceiveLeaves(s, a.sendOk);
    }
  }

  lemma ReceiveLeaves(s: System, sendOk: bool)
    requires s.down != []
    ensures var next := AfterReceive(s, sendOk);
      && |next.client.table| == |s.client.table|
      && (forall i :: 0 <= i < |s.client.table| && Awaits(next.client.table[i]) ==>
        next.client.table[i] == s.client.table[i])
      && (forall id :: id in next.flights ==> id in s.flights && next.flights[id].stamp == s.flights[id].stamp)
  {
    hide Find;
  }

  // ----- whole runs -----

  ghost predicate OrderKeptThroughout(s: System, actions: seq<Action>, lim: Limits)
    requires Runs(s, actions, lim)
    decreases |actions|
  {
    OrderKept(s) && (actions == [] || OrderKeptThroughout(Next(s, actions[0], lim), actions[1..], lim))
  }

  /** Every publication of a run began in a slot behind those that awaited an answer. */
  ghost predicate BehindThroughout(s: System, actions: seq<Action>, lim: Limits)
    requires Runs(s, actions, lim)
    decreases |actions|
  {
    actions != [] ==>
      && (Begins(s, actions[0], lim) ==> FreeSlotBehind(s.client.table))
      && BehindThroughout(Next(s, actions[0], lim), actions[1..], lim)
  }

  lemma {:induction false} OrderFromHere(s: System, actions: seq<Action>, lim: Limits)
    requires Inv(s) && Runs(s, actions, lim) && OrderKept(s)
    ensures OrderKeptThroughout(s, actions, lim) <==> BehindThroughout(s, actions, lim)
    decreases |actions|
  {
    hide Inv, OrderKept, Begins, Enabled, Next, FreeSlotBehind;
    if actions != [] {
      var a := actions[0];
      var next := Next(s, a, lim);
      StepKeeps(s, a, lim);
      if Begins(s, a, lim) {
        PublishOrder(s, a, lim);
      } else {
        OthersKeepOrder(s, a, lim);
      }
      if OrderKept(next) {
        OrderFromHere(next, actions[1..], lim);
      } else {
        NotKept(next, actions[1..], lim);
      }
    }
  }

  lemma NotKept(s: System, actions: seq<Action>, lim: Limits)
    requires Runs(s, actions, lim) && !OrderKept(s)
    ensures !OrderKeptThroughout(s, actions, lim)
  {
  }

  /** In every state of a run the packets that await an answer would be resent in the order of publishing, if and only
      if every publication of the run found its slot behind those that awaited an answer. */
  lemma ResendsInOrder(slots: nat, actions: seq<Action>, lim: Limits)
    requires Runs(Start(slots), actions, lim)
    ensures OrderKeptThroughout(Start(slots), actions, lim) <==> BehindThroughout(Start(slots), actions, lim)
  {
    hide OrderKeptThroughout, BehindThroughout, Runs, Inv;
    StartHolds(slots);
    NothingToResend(slots);
    OrderFromHere(Start(slots), actions, lim);
  }

  lemma NothingToResend(slots: nat)
    ensures OrderKept(Start(slots))
  {
    StartHolds(slots);
    PassInOrder(Start(slots), 0);
  }

  // ----- a run out of order -----

  const ROOM: Limits := Limits(100, 4)

  /** The slot of the first message is freed and taken by the third, before the second is answered. */
  function Steps(): seq<Action>
  {
    [Connect, PublishMsg(1, false, [7], true), PublishMsg(2, false, [8], true), BrokerReceives(true),
      ClientReceives(true),
     PublishMsg(3, false, [9], true), Disconnect]
  }

  function One(): Message { Message(false, [7]) }
  function Two(): Message { Message(false, [8]) }

  function Along(i: nat): System
  {
    var first, second, third := Publish(1, 1, [7], 0), Publish(2, 1, [8], 1), Publish(3, 1, [9], 2);
    var p1, p2, p3 := Packet(1, [7]), Packet(2, [8]), Packet(3, [9]);
    var f1, f2, f3 := Flight(0, 0, false, false), Flight(1, 1, false, false), Flight(2, 0, false, false);
    var o1, o2, o3 := Out(1, false, false), Out(2, false, false), Out(3, false, false);
    if i == 0 then Start(2)
    else if i == 1 then System(State([], [Free, Free]), true, [], [], {}, map[], [], [], map[])
    else if i == 2 then System(State([p1], [o1, Free]), true, [first], [], {1}, map[], [], [One()], map[1 := f1])
    else if i == 3 then
      System(State([p1, p2], [o1, o2]), true, [first, second], [], {1, 2}, map[], [], [One(), Two()],
        map[1 := f1, 2 := f2])
    else if i == 4 then
      System(State([p1, p2], [o1, o2]), true, [second], [PubAck(1)], {1, 2}, map[], [(0, [7])], [One(), Two()],
        map[1 := f1, 2 := f2])
    else if i == 5 then
      System(State([p2], [Free, o2]), true, [second], [], {1, 2}, map[], [(0, [7])], [One(), Two()], map[2 := f2])
    else if i == 6 then
      System(State([p2, p3], [o3, o2]), true, [second, third], [], {1, 2, 3}, map[], [(0, [7])],
             [One(), Two(), Message(false, [9])], map[2 := f2, 3 := f3])
    else
      System(State([p2, p3], [o3, o2]), false, [], [], {}, map[], [(0, [7])], [One(), Two(), Message(false, [9])],
        map[2 := f2, 3 := f3])
  }

  lemma Stored(ps: seq<Packet>, id: nat, b: byte)
    requires Used(ps) <= 10 && |ps| < 3
    ensures ListStep(ps, SaveOp(id, [b]), 100, 4) == (ps + [Packet(id, [b])], true)
  {
  }

  lemma AlongStep(i: nat)
    requires i < |Steps()|
    ensures Enabled(Along(i), Steps()[i]) && Next(Along(i), Steps()[i], ROOM) == Along(i + 1)
  {
    if i == 1 || i == 2 || i == 5 {
      PublishStep(i);
    } else if i == 0 {
      assert Start(2).client.table == [Free, Free];
    } else if i == 4 {
      ReceiveStep();
    }
  }

  lemma PublishStep(i: nat)
    requires i == 1 || i == 2 || i == 5
    ensures Enabled(Along(i), Steps()[i]) && Next(Along(i), Steps()[i], ROOM) == Along(i + 1)
  {
    if i == 1 {
      FindInTwo(Free, Free);
      Stored([], 1, 7);
    } else if i == 2 {
      FindInTwo(Out(1, false, false), Free);
      Stored([Packet(1, [7])], 2, 8);
    } else {
      FindInTwo(Free, Out(2, false, false));
      Stored([Packet(2, [8])], 3, 9);
    }
    hide Find, ListStep;
  }

  lemma ReceiveStep()
    ensures Enabled(Along(4), Steps()[4]) && Next(Along(4), Steps()[4], ROOM) == Along(5)
  {
    FindInTwo(Out(1, false, false), Out(2, false, false));
    var ps := [Packet(1, [7]), Packet(2, [8])];
    assert ps[0].id == 1 && IndexOf(ps, 1) == 0 && Without(ps, 0) == [Packet(2, [8])];
    assert map[1 := Flight(0, 0, false, false), 2 := Flight(1, 1, false, false)] - {1}
      == map[2 := Flight(1, 1, false, false)];
    hide Find, IndexOf, Without;
  }

  lemma FindInTwo(a: Entry, b: Entry)
    ensures forall key :: Find([a, b], key) == if KeyOf(a) == key then 0 else if KeyOf(b) == key then 1 else 2
  {
    forall key: nat
      ensures Find([a, b], key) == if KeyOf(a) == key then 0 else if KeyOf(b) == key then 1 else 2
    {
      FindFirst([a, b], key, if KeyOf(a) == key then 0 else if KeyOf(b) == key then 1 else 2);
    }
  }

  /** After this run the third message would be sent again before the second. */
  lemma OutOfOrder()
    ensures Runs(Start(2), Steps(), ROOM)
    ensures var s := Final(Start(2), Steps(), ROOM); Pass(s.client, s.flights, 0) == [2, 1] && !OrderKept(s)
  {
    hide Runs, Final, Next, Enabled;
    forall i: nat | i < |Steps()|
      ensures Enabled(Along(i), Steps()[i]) && Next(Along(i), Steps()[i], ROOM) == Along(i + 1)
    {
      AlongStep(i);
    }
    Following(Along, Steps(), ROOM, 0);
    assert Steps()[0..] == Steps();
    LastPass();
  }

  lemma LastPass()
    ensures Pass(Along(7).client, Along(7).flights, 0) == [2, 1] && !OrderKept(Along(7))
  {
    var c := Along(7).client;
    assert c.store[0].id == 2 && c.store[1].id == 3;
    assert Pass(c, Along(7).flights, 2) == [];
    assert Pass(c, Along(7).flights, 1) == [1];
    assert [2, 1][0] >= [2, 1][1];
  }
}

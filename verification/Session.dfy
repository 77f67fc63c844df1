/** Runs of the client against a broker that follows sections 4.3.2, 4.3.3 and 4.4 of OASIS MQTT 5.0 and keeps its
    session, over channels that lose their contents when the connection drops. */
module Session {
  import opened Bits
  import opened Options
  import opened PacketList
  import opened PacketIds
  import opened Handshake

  datatype Message = Message(qos2: bool, bytes: seq<byte>)

  /** An outgoing publication that has not been freed yet: the message it carries, its slot and its step. */
  datatype Flight = Flight(stamp: nat, slot: nat, qos2: bool, received: bool)

  /** What the broker remembers of a QoS 2 packet identifier until its PUBREL. */
  datatype Held = Held(stamp: nat, bytes: seq<byte>, delivered: bool)

  datatype System = System(
    client: State,
    connected: bool,
    up: seq<Wire>,
    down: seq<Wire>,
    sent: set<nat>,             // identifiers whose PUBLISH or PUBREL went out on this connection
    held: map<nat, Held>,       // the broker's session
    log: seq<(nat, seq<byte>)>, // what the broker delivered onward
    msgs: seq<Message>,         // every message publish has stored
    flights: map<nat, Flight>)  // bookkeeping: a resent packet takes its stamp from it, no step branches on it

  datatype Action =
    | PublishMsg(id: nat, qos2: bool, bytes: seq<byte>, sendOk: bool)
    | ResendSlot(slot: nat, sendOk: bool)
    | ClientReceives(sendOk: bool)
    | BrokerReceives(early: bool)
    | BrokerSends(wire: Wire)
    | Connect
    | Disconnect

  /** PUBLISH and PUBREL carry the client's publications up, their three answers come down. */
  predicate Upward(m: Wire) { m.Publish? || m.PubRel? }
  predicate Downward(m: Wire) { m.PubAck? || m.PubRec? || m.PubComp? }

  predicate Enabled(s: System, a: Action)
  {
    match a
    case PublishMsg(id, _, bytes, _) =>
      && s.connected && IsId(id) && |bytes| > 0
      && Find(s.client.table, id) == |s.client.table|       // not in flight
      && Find(s.client.table, 0) < |s.client.table|         // a free slot
    case ResendSlot(slot, _) =>
      && s.connected && slot < |s.client.table|
      && s.client.table[slot].Out? && s.client.table[slot].id !in s.sent
    case ClientReceives(sendOk) => s.connected && s.down != [] && (s.down[0].PubRec? ==> sendOk)
    case BrokerReceives(_) => s.connected && s.up != []
    case BrokerSends(wire) => s.connected && !Downward(wire) && IsId(wire.id)
    case Connect => !s.connected
    case Disconnect => s.connected
  }

  // ----- the client's steps -----

  /** A publication begins once it is stored, whether or not its first send succeeds. */
  function AfterPublish(s: System, id: nat, qos2: bool, bytes: seq<byte>, lim: Limits, sendOk: bool): System
  {
    var qos := if qos2 then 2 else 1;
    var (client, err) := Send(s.client, id, qos, bytes, lim, sendOk);
    if err == StorageError then s.(client := client)
    else
      var stamp := |s.msgs|;
      var begun := s.(client := client,
        msgs := s.msgs + [Message(qos2, bytes)],
        flights := s.flights[id := Flight(stamp, Find(s.client.table, 0), qos2, false)]);
      if err == Success then begun.(up := s.up + [Publish(id, qos, bytes, stamp)], sent := s.sent + {id}) else begun
  }

  /** The number of the message an identifier carries, for the bookkeeping. */
  function StampOf(flights: map<nat, Flight>, id: nat): nat
  {
    if id in flights then flights[id].stamp else 0
  }

  function AfterResend(s: System, slot: nat, sendOk: bool): System
    requires slot < |s.client.table|
  {
    if !sendOk then s
    else
      match Resend(s.client, slot)
      case Rel(id) => s.(up := s.up + [PubRel(id)], sent := s.sent + {id})
      case Bytes(id, bytes) =>
        var qos := if s.client.table[slot].Out? && s.client.table[slot].qos2 then 2 else 1;
        s.(up := s.up + [Publish(id, qos, bytes, StampOf(s.flights, id))], sent := s.sent + {id})
      case _ => s
  }

  function AfterReceive(s: System, sendOk: bool): System
    requires s.down != []
  {
    var m := s.down[0];
    var (client, answer, err) := Deal(s.client, m, sendOk);
    s.(client := client,
       down := s.down[1..],
       up := if answer.Just? then s.up + [answer.value] else s.up,
       flights := if err != TranscientPacket || m.id !in s.flights then s.flights
                  else if m.PubAck? || m.PubComp? then s.flights - {m.id}
                  else if m.PubRec? then s.flights[m.id := s.flights[m.id].(received := true)]
                  else s.flights)
  }

  // ----- the broker's step -----

  /** QoS 1 messages are delivered at each PUBLISH. A QoS 2 message is delivered once, either when its PUBLISH first
      arrives (early) or when its PUBREL does; until then further PUBLISH packets with its identifier only earn
      another PUBREC. */
  function AfterBroker(s: System, early: bool): System
    requires s.up != []
  {
    var m, t := s.up[0], s.(up := s.up[1..]);
    match m
    case Publish(id, qos, bytes, stamp) =>
      if qos != 2 then t.(log := s.log + [(stamp, bytes)], down := s.down + [PubAck(id)])
      else if id in s.held then t.(down := s.down + [PubRec(id)])
      else t.(held := s.held[id := Held(stamp, bytes, early)],
              log := if early then s.log + [(stamp, bytes)] else s.log,
              down := s.down + [PubRec(id)])
    case PubRel(id) =>
      t.(held := s.held - {id},
         log := if id in s.held && !s.held[id].delivered then s.log + [(s.held[id].stamp, s.held[id].bytes)] else s.log,
         down := s.down + [PubComp(id)])
    case _ => t
  }

  function Next(s: System, a: Action, lim: Limits): System
    requires Enabled(s, a)
  {
    match a
    case PublishMsg(id, qos2, bytes, sendOk) => AfterPublish(s, id, qos2, bytes, lim, sendOk)
    case ResendSlot(slot, sendOk) => AfterResend(s, slot, sendOk)
    case ClientReceives(sendOk) => AfterReceive(s, sendOk)
    case BrokerReceives(early) => AfterBroker(s, early)
    case BrokerSends(wire) => s.(down := s.down + [wire])
    case Connect => s.(connected := true)
    case Disconnect => s.(connected := false, up := [], down := [], sent := {})
  }

  function Start(slots: nat): System
  {
    System(State([], seq(slots, _ => Free)), false, [], [], {}, map[], [], [], map[])
  }

  // ----- what every reachable state satisfies -----

  function Times(log: seq<(nat, seq<byte>)>, stamp: nat): nat
  {
    if log == [] then 0
    else Times(log[..|log| - 1], stamp) + (if log[|log| - 1].0 == stamp then 1 else 0)
  }

  /** The table's outgoing entries are the flights, one slot each. */
  ghost predicate TableInv(table: seq<Entry>, flights: map<nat, Flight>)
  {
    && (forall i :: 0 <= i < |table| ==> EntryOk(table[i]))
    && (forall i :: 0 <= i < |table| && table[i].Out? ==> table[i].id in flights && flights[table[i].id].slot == i)
    && (forall id :: id in flights ==>
          flights[id].slot < |table| && table[flights[id].slot] == Out(id, flights[id].qos2, flights[id].received))
  }

  /** A packet is stored exactly for each flight that has not seen PUBREC, with the message's bytes. */
  ghost predicate StoreInv(store: seq<Packet>, msgs: seq<Message>, flights: map<nat, Flight>)
  {
    && InFlight(store)
    && (forall id :: HasId(store, id) <==> id in flights && !flights[id].received)
    && (forall i :: 0 <= i < |store| ==>
          store[i].id in flights && flights[store[i].id].stamp < |msgs|
          && store[i].bytes == msgs[flights[store[i].id].stamp].bytes)
  }

  ghost predicate FlightInv(msgs: seq<Message>, flights: map<nat, Flight>)
  {
    && (forall id :: id in flights ==>
          IsId(id) && flights[id].stamp < |msgs| && msgs[flights[id].stamp].qos2 == flights[id].qos2
          && (flights[id].received ==> flights[id].qos2))
    && (forall id, id' :: id in flights && id' in flights && id != id' ==> flights[id].stamp != flights[id'].stamp)
  }

  /** A packet going up matches the step its flight is at. */
  ghost predicate UpOk(m: Wire, sent: set<nat>, msgs: seq<Message>, flights: map<nat, Flight>)
  {
    Upward(m) ==>
      && m.id in flights && m.id in sent
      && var f := flights[m.id];
      if m.Publish? then
        !f.received && m.stamp == f.stamp && f.stamp < |msgs| && m.bytes == msgs[f.stamp].bytes
        && m.qos == (if f.qos2 then 2 else 1)
      else f.received
  }

  /** An answer coming down matches the step its flight is at, and what the broker has done for it. */
  ghost predicate DownOk(m: Wire, sent: set<nat>, held: map<nat, Held>, log: seq<(nat, seq<byte>)>,
                         flights: map<nat, Flight>)
  {
    && IsId(m.id)
    && (Downward(m) ==>
          && m.id in flights && m.id in sent
          && var f := flights[m.id];
          match m
          case PubAck(id) => !f.qos2 && Times(log, f.stamp) >= 1
          case PubRec(id) => f.qos2 && !f.received && id in held
          case _ => f.received && m.id !in held)
  }

  /** At most one packet of a flight is under way. */
  ghost predicate TokenInv(up: seq<Wire>, down: seq<Wire>)
  {
    && (forall i, j :: 0 <= i < j < |up| && Upward(up[i]) && Upward(up[j]) ==> up[i].id != up[j].id)
    && (forall i, j :: 0 <= i < j < |down| && Downward(down[i]) && Downward(down[j]) ==> down[i].id != down[j].id)
    && (forall i, j :: 0 <= i < |up| && 0 <= j < |down| && Upward(up[i]) && Downward(down[j]) ==>
      up[i].id != down[j].id)
  }

  ghost predicate UpInv(up: seq<Wire>, sent: set<nat>, msgs: seq<Message>, flights: map<nat, Flight>)
  {
    forall i :: 0 <= i < |up| ==> UpOk(up[i], sent, msgs, flights)
  }

  ghost predicate DownInv(down: seq<Wire>, sent: set<nat>, held: map<nat, Held>, log: seq<(nat, seq<byte>)>,
                          flights: map<nat, Flight>)
  {
    forall i :: 0 <= i < |down| ==> DownOk(down[i], sent, held, log, flights)
  }

  /** The broker's session and deliveries. */
  ghost predicate BrokerInv(held: map<nat, Held>, log: seq<(nat, seq<byte>)>, msgs: seq<Message>,
                            flights: map<nat, Flight>)
  {
    && (forall id :: id in held ==>
          && id in flights && flights[id].qos2 && held[id].stamp == flights[id].stamp < |msgs|
          && held[id].bytes == msgs[held[id].stamp].bytes
          && Times(log, held[id].stamp) == if held[id].delivered then 1 else 0)
    && (forall id :: id in flights && flights[id].qos2 && id !in held ==>
          Times(log, flights[id].stamp) == if flights[id].received then 1 else 0)
    && (forall i :: 0 <= i < |log| ==> log[i].0 < |msgs| && log[i].1 == msgs[log[i].0].bytes)
  }

  ghost predicate Flying(flights: map<nat, Flight>, stamp: nat)
  {
    exists id :: id in flights && flights[id].stamp == stamp
  }

  /** A message whose identifier has been freed was delivered: exactly once with QoS 2, at least once with QoS 1. */
  ghost predicate DoneInv(log: seq<(nat, seq<byte>)>, msgs: seq<Message>, flights: map<nat, Flight>)
  {
    forall stamp :: 0 <= stamp < |msgs| && !Flying(flights, stamp) ==>
      if msgs[stamp].qos2 then Times(log, stamp) == 1 else Times(log, stamp) >= 1
  }

  ghost predicate Inv(s: System)
  {
    && TableInv(s.client.table, s.flights)
    && StoreInv(s.client.store, s.msgs, s.flights)
    && FlightInv(s.msgs, s.flights)
    && (!s.connected ==> s.up == [] && s.down == [] && s.sent == {})
    && UpInv(s.up, s.sent, s.msgs, s.flights)
    && DownInv(s.down, s.sent, s.held, s.log, s.flights)
    && TokenInv(s.up, s.down)
    && BrokerInv(s.held, s.log, s.msgs, s.flights)
    && DoneInv(s.log, s.msgs, s.flights)
  }
}

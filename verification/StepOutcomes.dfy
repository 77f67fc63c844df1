/** What Send and Deal answer, case by case: which packet gets which answer, which result is returned, and what is left
    of the table and the storage. Nothing here is stated through Send, Deal or the search of the table. */
module StepOutcomes {
  import opened Bits
  import opened Options
  import opened PacketList
  import opened PacketIds
  import opened Handshake

  /** Some entry of the table has the key. */
  ghost predicate Keyed(table: seq<Entry>, key: nat)
  {
    exists i :: 0 <= i < |table| && KeyOf(table[i]) == key
  }

  /** A free slot, which is an entry whose key is 0. */
  ghost predicate Room(table: seq<Entry>)
  {
    Keyed(table, 0)
  }

  lemma KeyedIsFound(table: seq<Entry>, key: nat)
    ensures Keyed(table, key) <==> Find(table, key) < |table|
  {
  }

  /** The answers of figures 4.3 and 4.4 of OASIS MQTT 5.0: QoS 1 earns PUBACK, QoS 2 earns PUBREC, PUBREC earns PUBREL
      and PUBREL earns PUBCOMP, each with the identifier of what it answers. */
  predicate Answers(answer: Wire, m: Wire)
  {
    && answer.id == m.id
    && match answer
       case PubAck(_) => m.Publish? && m.qos == 1
       case PubRec(_) => m.Publish? && m.qos >= 2
       case PubRel(_) => m.PubRec?
       case PubComp(_) => m.PubRel?
       case Publish(_, _, _, _) => false
  }

  predicate AsksAnswer(m: Wire)
  {
    (m.Publish? && m.qos > 0) || m.PubRec? || m.PubRel?
  }

  /** The step at which a packet is refused before any answer: no slot for a publication, no stored packet for PUBACK
      and PUBREC, no entry for PUBACK and PUBCOMP. */
  ghost predicate Refused(c: State, m: Wire)
  {
    match m
    case Publish(_, qos, _, _) => qos > 0 && !Room(c.table)
    case PubAck(id) => !HasId(c.store, id) || !Keyed(c.table, id)
    case PubRec(id) => !HasId(c.store, id)
    case PubComp(id) => !Keyed(c.table, id)
    case PubRel(_) => false
  }

  /** The identifier the answer belongs to is not in the table. */
  ghost predicate Unknown(c: State, m: Wire)
  {
    (m.PubRec? && !Keyed(c.table, m.id)) || (m.PubRel? && !Keyed(c.table, m.id + 0x10000))
  }

  /** An answer and a result are those of the case the packet is in. */
  ghost predicate Settled(c: State, m: Wire, sendOk: bool, answer: Maybe<Wire>, err: ErrorType)
  {
    && (answer.Just? <==> AsksAnswer(m) && !Refused(c, m) && sendOk)
    && (answer.Just? ==> Answers(answer.value, m))
    && (err == NetworkError <==> AsksAnswer(m) && !Refused(c, m) && !sendOk)
    && (err == StorageError <==> Refused(c, m) || (sendOk && Unknown(c, m)))
    && (err == TranscientPacket <==> !Refused(c, m) && (AsksAnswer(m) ==> sendOk && !Unknown(c, m)))
  }

  /** The results of dealWithNoise, and when it answers. */
  lemma DealResults(c: State, m: Wire, sendOk: bool)
    ensures Settled(c, m, sendOk, Deal(c, m, sendOk).1, Deal(c, m, sendOk).2)
  {
    hide Keyed, Find, HasId;
    if m.Publish? {
      InboundResults(c, m, sendOk);
    } else {
      KeyedIsFound(c.table, m.id);
      KeyedIsFound(c.table, m.id + 0x10000);
    }
  }

  lemma InboundResults(c: State, m: Wire, sendOk: bool)
    requires m.Publish?
    ensures Settled(c, m, sendOk, Deal(c, m, sendOk).1, Deal(c, m, sendOk).2)
  {
    hide Find;
    var key := m.id + 0x10000;
    KeyedIsFound(c.table, 0);
    if m.qos == 1 && Room(c.table) {
      var table := c.table[Find(c.table, 0) := EntryFor(key, false)];
      assert KeyOf(table[Find(c.table, 0)]) == key;
      KeyedIsFound(table, key);
    }
  }

  /** What dealWithNoise does to the storage: PUBACK and PUBREC take their packet out, whatever happens next. */
  lemma DealStores(c: State, m: Wire, sendOk: bool)
    requires InFlight(c.store)
    ensures AsMap(Deal(c, m, sendOk).0.store) == if m.PubAck? || m.PubRec? then AsMap(c.store) - {m.id}
      else AsMap(c.store)
  {
    hide AsMap, InFlight, Off, Find;
    ReleaseOnMap(c.store, m.id, 0, 0);
  }

  /** The first entry with the key is at i. */
  ghost predicate First(table: seq<Entry>, key: nat, i: nat)
  {
    i < |table| && KeyOf(table[i]) == key && !Keyed(table[..i], key)
  }

  lemma FirstIsFound(table: seq<Entry>, key: nat, i: nat)
    requires i < |table|
    ensures First(table, key, i) <==> Find(table, key) == i
  {
    assert forall j :: 0 <= j < i ==> table[..i][j] == table[j];
  }

  /** What a publication of the broker does to the table. The first free slot takes it; once a QoS 1 publication is
      answered the first entry with its identifier goes, which is another one if the identifier was listed before. */
  lemma InboundLists(c: State, m: Wire, sendOk: bool, slot: nat, i: nat)
    requires m.Publish? && m.qos > 0 && First(c.table, 0, slot) && EntryOk(c.table[slot])
    ensures var table := Deal(c, m, sendOk).0.table;
      && (m.qos >= 2 ==> table == c.table[slot := In(m.id, true, false)])
      && (m.qos == 1 && !sendOk ==> table == c.table[slot := In(m.id, false, false)])
      && (m.qos == 1 && sendOk && !Keyed(c.table[..slot], m.id + 0x10000) ==> table == c.table)
      && (m.qos == 1 && sendOk && First(c.table, m.id + 0x10000, i) && i < slot ==>
            table == c.table[slot := In(m.id, false, false)][i := Free])
  {
    FirstIsFound(c.table, 0, slot);
    var key := m.id + 0x10000;
    var listed := c.table[slot := EntryFor(key, m.qos != 1)];
    if m.qos == 1 && sendOk {
      assert listed[..slot] == c.table[..slot];
      if !Keyed(c.table[..slot], key) {
        FirstIsFound(listed, key, slot);
        assert c.table[slot] == Free && listed[slot := Free] == c.table;
      } else if First(c.table, key, i) && i < slot {
        assert listed[..i] == c.table[..i];
        FirstIsFound(listed, key, i);
      }
    }
  }

  /** What every other packet does to the table: the first entry it names is freed, or marked as received. */
  lemma OthersList(c: State, m: Wire, sendOk: bool, i: nat)
    requires i < |c.table| && (m.Publish? ==> m.qos == 0) && m.id > 0
    ensures var table := Deal(c, m, sendOk).0.table;
      |table| == |c.table|
      && table[i] ==
           match m
           case PubAck(id) => if HasId(c.store, id) && First(c.table, id, i) then Free else c.table[i]
           case PubRec(id) =>
             if HasId(c.store, id) && sendOk && First(c.table, id, i) then c.table[i].(received := true) else c.table[i]
           case PubComp(id) => if First(c.table, id, i) then Free else c.table[i]
           case PubRel(id) => if sendOk && First(c.table, id + 0x10000, i) then Free else c.table[i]
           case _ => c.table[i]
  {
    FirstIsFound(c.table, m.id, i);
    FirstIsFound(c.table, m.id + 0x10000, i);
  }

  /** The results of prepareSAR for a PUBLISH: it succeeds only if the packet was sent, QoS 0 touches nothing, and with
      QoS the packet stays stored and listed when the send fails. */
  lemma SendResults(c: State, id: nat, qos: nat, bytes: seq<byte>, lim: Limits, sendOk: bool)
    requires id < 0x10000
    ensures var (d, err) := Send(c, id, qos, bytes, lim, sendOk);
      var fits := Used(c.store) + |bytes| <= lim.budget && |c.store| < lim.marks;
      var ready := qos == 0 || (fits && (Room(c.table) || qos > 2));
      && (err == Success <==> sendOk && ready)
      && (err == NetworkError <==> !sendOk && ready)
      && (err == StorageError <==> !ready)
      && d.store == (if qos > 0 && fits then c.store + [Packet(id, bytes)] else c.store)
      && |d.table| == |c.table|
      && forall i :: 0 <= i < |c.table| ==>
           d.table[i] == if 0 < qos <= 2 && fits && First(c.table, 0, i) then Out(id, qos == 2, false) else c.table[i]
  {
    KeyedIsFound(c.table, 0);
    forall i | 0 <= i < |c.table|
      ensures First(c.table, 0, i) <==> Find(c.table, 0) == i
    {
      FirstIsFound(c.table, 0, i);
    }
  }

  /** What the resend loop sends for a slot: nothing for free slots and the broker's publications, PUBREL for a message
      past PUBREC, else the bytes stored under its identifier, and an error without them. */
  lemma ResendResults(c: State, i: nat, j: nat)
    requires InFlight(c.store) && i < |c.table| && j < |c.store|
    ensures var e, sent := c.table[i], Resend(c, i);
      && (sent == Skip <==> e.Free? || e.In?)
      && (e.Out? ==>
            && (sent == Rel(e.id) <==> e.received)
            && (sent == Lost <==> !e.received && !HasId(c.store, e.id))
            && (!e.received && c.store[j].id == e.id ==> sent == Bytes(e.id, c.store[j].bytes)))
  {
  }
}

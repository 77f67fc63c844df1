/** The publish handshake of the client: what prepareSAR, dealWithNoise and one slot of the resend loop do to the
    stored packets and to the identifier table. */
module Handshake {
  import opened Bits
  import opened Options
  import opened PacketList
  import opened PacketIds
  import Ring

  /** Control packets of the publish exchange. The stamp numbers the application message a PUBLISH carries; it is not
      on the wire and no step looks at it. */
  datatype Wire =
    | Publish(id: nat, qos: nat, bytes: seq<byte>, stamp: nat)
    | PubAck(id: nat)
    | PubRec(id: nat)
    | PubRel(id: nat)
    | PubComp(id: nat)

  datatype ErrorType = Success | TranscientPacket | StorageError | NetworkError

  datatype State = State(store: seq<Packet>, table: seq<Entry>)

  /** Sizes fixed when the client is built: bytes and bookmarks of the ring buffer. */
  datatype Limits = Limits(budget: nat, marks: nat)

  /** getNextPacketType, on the packets themselves. */
  function NextPacket(p: Wire): Maybe<Wire>
  {
    match p
    case Publish(id, _, _, _) => Just(PubAck(id))
    case PubRec(id) => Just(PubRel(id))
    case PubRel(id) => Just(PubComp(id))
    case _ => Nothing
  }

  /** prepareSAR for a PUBLISH: with QoS, the packet and its identifier are stored before it is sent. */
  function Send(c: State, id: nat, qos: nat, bytes: seq<byte>, lim: Limits, sendOk: bool): (State, ErrorType)
  {
    if qos == 0 then (c, if sendOk then Success else NetworkError)
    else
      var (store, saved) := ListStep(c.store, SaveOp(id, bytes), lim.budget, lim.marks);
      if !saved then (c, StorageError)
      else
        var (table, stored) := if qos <= 2 then Replace(c.table, 0, EntryFor(id, qos == 2)) else (c.table, true);
        (State(store, table), if !stored then StorageError else if sendOk then Success else NetworkError)
  }

  /** The packets that free a stored packet: PUBACK and PUBREC. */
  predicate ReleasesBuffer(p: Wire) { p.PubAck? || p.PubRec? }

  /** The packets that free an identifier: PUBACK and PUBCOMP. */
  predicate ReleasesId(p: Wire) { p.PubAck? || p.PubComp? }

  /** dealWithNoise on a packet of the publish exchange: new state, answer sent, result. */
  function Deal(c: State, p: Wire, sendOk: bool): (State, Maybe<Wire>, ErrorType)
  {
    if p.Publish? then DealPublish(c, p, sendOk)
    else
      var (store, released) := if ReleasesBuffer(p) then ListStep(c.store, ReleaseOp(p.id), 0, 0) else (c.store, true);
      if !released then (c, Nothing, StorageError)
      else if ReleasesId(p) then
        var (table, ok) := Replace(c.table, p.id, Free);
        (State(store, table), Nothing, if ok then TranscientPacket else StorageError)
      else if !sendOk then (State(store, c.table), Nothing, NetworkError)
      else if p.PubRec? then
        var (table, ok) := Advance(c.table, p.id);
        (State(store, table), Just(PubRel(p.id)), if ok then TranscientPacket else StorageError)
      else
        var (table, ok) := Replace(c.table, p.id + 0x10000, Free);
        (State(store, table), Just(PubComp(p.id)), if ok then TranscientPacket else StorageError)
  }

  function DealPublish(c: State, p: Wire, sendOk: bool): (State, Maybe<Wire>, ErrorType)
    requires p.Publish?
  {
    if p.qos == 0 then (c, Nothing, TranscientPacket)
    else
      var (table, stored) := Replace(c.table, 0, EntryFor(p.id + 0x10000, p.qos != 1));
      if !stored then (c, Nothing, StorageError)
      else if !sendOk then (State(c.store, table), Nothing, NetworkError)
      else if p.qos == 1 then
        var (table', ok) := Replace(table, p.id + 0x10000, Free);
        (State(c.store, table'), Just(PubAck(p.id)), if ok then TranscientPacket else StorageError)
      else (State(c.store, table), Just(PubRec(p.id)), TranscientPacket)
  }

  datatype Resent = Skip | Rel(id: nat) | Bytes(id: nat, bytes: seq<byte>) | Lost

  /** What the resend loop of handleConnACK sends for one slot. */
  function Resend(c: State, i: nat): Resent
    requires i < |c.table|
  {
    match c.table[i]
    case Out(id, _, received) =>
      if received then Rel(id)
      else if IndexOf(c.store, id) < |c.store| then Bytes(id, c.store[IndexOf(c.store, id)].bytes)
      else Lost
    case _ => Skip
  }

  class Client {
    const storage: Ring.RingBuffer
    const buffers: Buffers

    ghost predicate Valid()
      reads this, storage, storage.buffer, storage.packets, buffers, buffers.packetsID
    {
      && storage.Valid() && buffers.Valid()
      && storage.buffer as object != buffers.packetsID as object
      && storage.packets as object != buffers.packetsID as object
    }

    ghost function Abs(): State
      reads this, storage, buffers
    {
      State(storage.contents, buffers.entries)
    }

    ghost function Lim(): Limits
      reads this, storage
    {
      Limits(storage.sm1, storage.packets.Length)
    }

    constructor (ghost log: nat, size: nat, packetsCount: nat, maxID: nat)
      requires size == Pow2(log) && size <= 0x8000_0000 && maxID <= 255
      ensures Valid() && Abs() == State([], seq(maxID, _ => Free)) && Lim() == Limits(size - 1, packetsCount)
    {
      storage := new Ring.RingBuffer(log, size, packetsCount);
      buffers := new Buffers(maxID);
    }

    method PrepareSAR(id: nat, qos: nat, bytes: seq<byte>, sendOk: bool) returns (err: ErrorType)
      requires Valid()
      requires qos > 0 ==> IsId(id) && |bytes| > 0 && !HasId(Abs().store, id)
      modifies storage, storage.buffer, storage.packets, buffers, buffers.packetsID
      ensures Valid() && (Abs(), err) == Send(old(Abs()), id, qos, bytes, Lim(), sendOk)
    {
      if qos > 0 {
        var saved := storage.Save(id, bytes);
        if !saved {
          return StorageError;
        }
        var stored := true;
        if qos == 1 {
          stored := buffers.StoreQoS1ID(id);
        } else if qos == 2 {
          stored := buffers.StoreQoS2ID(id);
        }
        if !stored {
          return StorageError;
        }
      }
      return if sendOk then Success else NetworkError;
    }

    method DealWithNoise(p: Wire, sendOk: bool) returns (answer: Maybe<Wire>, err: ErrorType)
      requires Valid() && (IsId(p.id) || (p.Publish? && p.qos == 0))
      modifies storage, storage.buffer, storage.packets, buffers, buffers.packetsID
      ensures Valid() && (Abs(), answer, err) == Deal(old(Abs()), p, sendOk)
    {
      hide Find, IndexOf, Pack, And, Or, Off;
      answer := Nothing;
      var next := Nothing;
      if p.Publish? {
        if p.qos == 0 {
          return Nothing, TranscientPacket;
        }
        PackNew(p.id + 0x10000);
        var store := false;
        if p.qos == 1 {
          store := buffers.StoreQoS1ID(p.id + 0x10000);
        } else {
          store := buffers.StoreQoS2ID(p.id + 0x10000);
        }
        if !store {
          return Nothing, StorageError;
        }
        next := Just(if p.qos == 1 then PubAck(p.id) else PubRec(p.id));
      } else {
        if p.PubAck? || p.PubRec? {
          var released := storage.Release(p.id);
          if !released {
            return Nothing, StorageError;
          }
        }
        if p.PubAck? || p.PubComp? {
          var released := buffers.ReleaseID(p.id);
          if !released {
            return Nothing, StorageError;
          }
        } else {
          next := NextPacket(p);
        }
      }
      if next.Just? {
        if !sendOk {
          return Nothing, NetworkError;
        }
        answer := next;
        next := NextPacket(next.value);
        if p.PubRec? {
          var advanced := buffers.AvanceQoS2(p.id);
          if !advanced {
            return answer, StorageError;
          }
        } else if next.Nothing? {
          var released := buffers.ReleaseID(p.id + 0x10000);
          if !released {
            return answer, StorageError;
          }
        }
      }
      return answer, TranscientPacket;
    }

    /** One slot of the resend loop; the packet is sent as the two parts of the ring buffer. */
    method ResendSlot(i: nat) returns (sent: Resent)
      requires Valid() && i < |Abs().table|
      ensures sent == Resend(Abs(), i)
    {
      var packetID := buffers.packetsID[i];
      PackBits(buffers.entries[i]);
      if And(packetID, 0x10000) == 0 && packetID != 0 {
        var id := And(packetID, 0xFFFF);
        if And(packetID, 0x4000_0000) != 0 {
          return Rel(id);
        }
        var ok, head, tail := storage.Load(id);
        if !ok {
          return Lost;
        }
        return Bytes(id, head + tail);
      }
      return Skip;
    }
  }
}

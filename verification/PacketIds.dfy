/** Buffers: the packed table of packet identifiers. Each word holds an identifier in its low 16 bits, the direction
    in bit 16, the publish step in bit 30 and the QoS level in bit 31; a zero word is a free slot. */
module PacketIds {
  import opened Bits

  datatype Entry =
    | Free
    | Out(id: nat, qos2: bool, received: bool)   // sent by the client; received: PUBREC seen
    | In(id: nat, qos2: bool, received: bool)    // sent by the broker

  predicate IsId(id: int)
  {
    0 < id < 0x10000
  }

  predicate EntryOk(e: Entry)
  {
    e.Free? || IsId(e.id)
  }

  function Pack(e: Entry): nat
  {
    match e
    case Free => 0
    case Out(id, qos2, received) => id + (if received then 0x4000_0000 else 0) + (if qos2 then 0x8000_0000 else 0)
    case In(id, qos2, received) =>
      id + 0x10000 + (if received then 0x4000_0000 else 0) + (if qos2 then 0x8000_0000 else 0)
  }

  /** What findID compares: the identifier with its direction bit. */
  function KeyOf(e: Entry): nat
  {
    match e
    case Free => 0
    case Out(id, _, _) => id
    case In(id, _, _) => id + 0x10000
  }

  function EntryFor(key: nat, qos2: bool): Entry
  {
    if key < 0x10000 then Out(key, qos2, false) else In(key - 0x10000, qos2, false)
  }

  predicate IsKey(key: nat)
  {
    IsId(if key < 0x10000 then key else key - 0x10000)
  }

  function IsSending(w: nat): bool { And(w, 0x10000) == 0 && w != 0 }
  function IsQoS1(w: nat): bool { And(w, 0x8000_0000) == 0 }
  function IsQoS2Step2(w: nat): bool { And(w, 0x4000_0000) != 0 }

  lemma Masks(w: nat)
    ensures And(w, 0x1FFFF) == w % 0x20000 && And(w, 0xFFFF) == w % 0x10000
    ensures And(w, 0x10000) == 0 <==> w / 0x10000 % 2 == 0
    ensures And(w, 0x4000_0000) == 0 <==> w / 0x4000_0000 % 2 == 0
    ensures And(w, 0x8000_0000) == 0 <==> w / 0x8000_0000 % 2 == 0
  {
    hide And;
    Powers();
    MaskIsMod(w, 17);
    MaskIsMod(w, 16);
    AndBit(w, 16);
    AndBit(w, 30);
    AndBit(w, 31);
  }

  /** The bit tests of the source read back what was packed. */
  lemma PackBits(e: Entry)
    requires EntryOk(e)
    ensures And(Pack(e), 0x1FFFF) == KeyOf(e)
    ensures And(Pack(e), 0xFFFF) == if e.Free? then 0 else e.id
    ensures IsSending(Pack(e)) <==> e.Out?
    ensures IsQoS1(Pack(e)) <==> e.Free? || !e.qos2
    ensures IsQoS2Step2(Pack(e)) <==> !e.Free? && e.received
    ensures Pack(e) < 0x1_0000_0000
  {
    hide And;
    Masks(Pack(e));
  }

  /** Packing loses nothing. */
  lemma PackInjective(e: Entry, f: Entry)
    requires EntryOk(e) && EntryOk(f) && Pack(e) == Pack(f)
    ensures e == f
  {
    PackBits(e);
    PackBits(f);
  }

  lemma PackAdvance(e: Entry)
    requires EntryOk(e) && !e.Free?
    ensures Or(Pack(e), 0x4000_0000) == Pack(e.(received := true))
  {
    Powers();
    OrBit(Pack(e), 30);
    PackBits(e);
    AndBit(Pack(e), 30);
  }

  lemma PackNew(key: nat)
    requires IsKey(key) && key < 0x20000
    ensures EntryOk(EntryFor(key, true)) && Pack(EntryFor(key, false)) == key
    ensures Pack(EntryFor(key, true)) == Or(key, 0x8000_0000)
    ensures KeyOf(EntryFor(key, true)) == KeyOf(EntryFor(key, false)) == key
  {
    Powers();
    OrBit(key, 31);
  }

  // ----- the table as a list of entries -----

  function Find(t: seq<Entry>, key: nat): (i: nat)
    ensures i <= |t|
    ensures i < |t| ==> KeyOf(t[i]) == key
    ensures forall j :: 0 <= j < i ==> KeyOf(t[j]) != key
  {
    if t == [] || KeyOf(t[0]) == key then 0
    else
      assert forall j :: 1 <= j < |t| ==> t[j] == t[1..][j - 1];
      1 + Find(t[1..], key)
  }

  /** clearSetID: the first entry with the key is overwritten. */
  function Replace(t: seq<Entry>, key: nat, e: Entry): (seq<Entry>, bool)
  {
    var i := Find(t, key);
    if i < |t| then (t[i := e], true) else (t, false)
  }

  /** avanceQoS2. */
  function Advance(t: seq<Entry>, key: nat): (seq<Entry>, bool)
  {
    var i := Find(t, key);
    if i < |t| && !t[i].Free? then (t[i := t[i].(received := true)], true) else (t, i < |t|)
  }

  lemma FindFirst(t: seq<Entry>, key: nat, i: nat)
    requires i <= |t| && (forall j :: 0 <= j < i ==> KeyOf(t[j]) != key) && (i < |t| ==> KeyOf(t[i]) == key)
    ensures Find(t, key) == i
  {
  }

  class Buffers {
    const packetsID: array<nat>
    ghost var entries: seq<Entry>

    ghost predicate Valid()
      reads this, packetsID
    {
      && |entries| == packetsID.Length <= 255
      && (forall i :: 0 <= i < |entries| ==> EntryOk(entries[i]) && packetsID[i] == Pack(entries[i]))
    }

    constructor (maxID: nat)
      requires maxID <= 255
      ensures Valid() && fresh(packetsID) && |entries| == maxID
      ensures forall i :: 0 <= i < maxID ==> entries[i] == Free
    {
      packetsID := new nat[maxID](_ => 0);
      entries := seq(maxID, _ => Free);
    }

    method FindID(id: nat) returns (i: nat)
      requires Valid()
      ensures i == Find(entries, id)
    {
      i := 0;
      while i < packetsID.Length
        invariant i <= packetsID.Length
        invariant forall j :: 0 <= j < i ==> KeyOf(entries[j]) != id
      {
        PackBits(entries[i]);
        if And(packetsID[i], 0x1FFFF) == id {
          break;
        }
        i := i + 1;
      }
      FindFirst(entries, id, i);
    }

    method ClearSetID(set_: nat, clear: nat, ghost e: Entry) returns (ok: bool)
      requires Valid() && EntryOk(e) && set_ == Pack(e)
      modifies this, packetsID
      ensures Valid() && (entries, ok) == Replace(old(entries), clear, e)
    {
      var i := FindID(clear);
      if i == packetsID.Length {
        return false;
      }
      packetsID[i] := set_;
      entries := entries[i := e];
      return true;
    }

    method StoreQoS1ID(id: nat) returns (ok: bool)
      requires Valid() && IsKey(id) && id < 0x20000
      modifies this, packetsID
      ensures Valid() && (entries, ok) == Replace(old(entries), 0, EntryFor(id, false))
    {
      PackNew(id);
      ok := ClearSetID(id, 0, EntryFor(id, false));
    }

    method StoreQoS2ID(id: nat) returns (ok: bool)
      requires Valid() && IsKey(id) && id < 0x20000
      modifies this, packetsID
      ensures Valid() && (entries, ok) == Replace(old(entries), 0, EntryFor(id, true))
    {
      PackNew(id);
      ok := ClearSetID(Or(id, 0x8000_0000), 0, EntryFor(id, true));
    }

    method AvanceQoS2(id: nat) returns (ok: bool)
      requires Valid() && IsKey(id)
      modifies this, packetsID
      ensures Valid() && (entries, ok) == Advance(old(entries), id)
    {
      var p := FindID(id);
      if p == packetsID.Length {
        return false;
      }
      PackAdvance(entries[p]);
      packetsID[p] := Or(packetsID[p], 0x4000_0000);
      entries := entries[p := entries[p].(received := true)];
      return true;
    }

    method ReleaseID(id: nat) returns (ok: bool)
      requires Valid()
      modifies this, packetsID
      ensures Valid() && (entries, ok) == Replace(old(entries), id, Free)
    {
      ok := ClearSetID(0, id, Free);
    }

    /** The number of unfinished outgoing publications. */
    method CountSentID() returns (count: nat)
      requires Valid()
      ensures count == |set i | 0 <= i < |entries| && entries[i].Out?|
    {
      count := 0;
      var i := 0;
      ghost var seen: set<int> := {};
      while i < packetsID.Length
        invariant i <= packetsID.Length
        invariant seen == set j | 0 <= j < i && entries[j].Out?
        invariant count == |seen|
      {
        PackBits(entries[i]);
        if And(packetsID[i], 0x10000) == 0 && packetsID[i] != 0 {
          count := count + 1;
          seen := seen + {i};
        }
        i := i + 1;
      }
    }
  }
}

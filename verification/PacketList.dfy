/** The ordered list of unacknowledged packets, and the simpler store it amounts to. */
module PacketList {
  import opened Bits

  datatype Packet = Packet(id: nat, bytes: seq<byte>)

  // ----- the list of packets -----

  /** Where the i-th packet starts, counted from the oldest byte. */
  function Off(ps: seq<Packet>, i: nat): nat
    requires i <= |ps|
  {
    if i == 0 then 0 else Off(ps, i - 1) + |ps[i - 1].bytes|
  }

  /** The number of bytes the packets occupy. */
  function Used(ps: seq<Packet>): nat
  {
    Off(ps, |ps|)
  }

  ghost predicate HasId(ps: seq<Packet>, id: nat)
  {
    exists i :: 0 <= i < |ps| && ps[i].id == id
  }

  /** Packets in flight: nonzero, pairwise different identifiers and nonempty bytes. */
  ghost predicate InFlight(ps: seq<Packet>)
  {
    && (forall i :: 0 <= i < |ps| ==> ps[i].id != 0 && |ps[i].bytes| > 0)
    && (forall i, j :: 0 <= i < j < |ps| ==> ps[i].id != ps[j].id)
  }

  /** The position of the packet with an identifier, or the number of packets. */
  function IndexOf(ps: seq<Packet>, id: nat): (i: nat)
    ensures i <= |ps|
    ensures i < |ps| ==> ps[i].id == id
    ensures i == |ps| <==> !HasId(ps, id)
  {
    if ps == [] then 0
    else if ps[0].id == id then 0
    else
      assert forall j :: 0 <= j < |ps| - 1 ==> ps[1..][j] == ps[j + 1];
      assert forall j :: 1 <= j < |ps| ==> ps[j] == ps[1..][j - 1];
      1 + IndexOf(ps[1..], id)
  }

  function Without(ps: seq<Packet>, i: nat): (rest: seq<Packet>)
    requires i < |ps|
    ensures |rest| == |ps| - 1
    ensures forall m :: 0 <= m < |rest| ==> rest[m] == ps[if m < i then m else m + 1]
  {
    ps[..i] + ps[i + 1..]
  }

  lemma {:induction false} OffPrefix(ps: seq<Packet>, qs: seq<Packet>, i: nat)
    requires i <= |ps| && i <= |qs| && ps[..i] == qs[..i]
    ensures Off(ps, i) == Off(qs, i)
  {
    if i > 0 {
      assert ps[i - 1] == ps[..i][i - 1] == qs[i - 1];
      assert ps[..i - 1] == ps[..i][..i - 1] == qs[..i - 1];
      OffPrefix(ps, qs, i - 1);
    }
  }

  lemma {:induction false} OffMonotone(ps: seq<Packet>, i: nat, j: nat)
    requires i <= j <= |ps|
    ensures Off(ps, i) <= Off(ps, j)
    ensures i < j ==> Off(ps, i) + |ps[i].bytes| <= Off(ps, j)
    decreases j - i
  {
    if i < j {
      OffMonotone(ps, i, j - 1);
    }
  }

  lemma {:induction false} OffWithout(ps: seq<Packet>, i: nat, m: nat)
    requires i < |ps| && m < |ps|
    ensures Off(Without(ps, i), m) == if m <= i then Off(ps, m) else Off(ps, m + 1) - |ps[i].bytes|
  {
    if m > 0 {
      OffWithout(ps, i, m - 1);
      if m <= i {
      } else {
        assert Without(ps, i)[m - 1] == ps[m];
      }
    }
  }

  lemma {:induction false} OffAppend(ps: seq<Packet>, p: Packet)
    ensures forall i :: 0 <= i <= |ps| ==> Off(ps + [p], i) == Off(ps, i)
    ensures Used(ps + [p]) == Used(ps) + |p.bytes|
  {
    forall i | 0 <= i <= |ps|
      ensures Off(ps + [p], i) == Off(ps, i)
    {
      OffPrefix(ps + [p], ps, i);
    }
  }

  lemma OffLastWithout(ps: seq<Packet>, m: nat)
    requires m < |ps|
    ensures Used(Without(ps, m)) == Used(ps) - |ps[m].bytes|
  {
    OffWithout(ps, m, |ps| - 1);
  }

  lemma OffEnds(ps: seq<Packet>, m: nat)
    requires InFlight(ps) && m < |ps|
    ensures 0 < |ps[m].bytes| && Off(ps, m + 1) == Off(ps, m) + |ps[m].bytes| <= Used(ps)
    ensures Off(ps, m) == 0 <==> m == 0
    ensures Off(ps, m + 1) == Used(ps) <==> m + 1 == |ps|
  {
    OffMonotone(ps, 0, m);
    OffMonotone(ps, m + 1, |ps|);
  }

  // ----- whole runs: the buffer is a map with a budget of bytes and of bookmarks -----

  datatype Op = SaveOp(id: nat, bytes: seq<byte>) | ReleaseOp(id: nat)

  /** What the client guarantees: identifiers are nonzero and not already in flight, packets are not empty. */
  ghost predicate Legal(ps: seq<Packet>, op: Op)
  {
    op.id != 0 && (op.SaveOp? ==> |op.bytes| > 0 && !HasId(ps, op.id))
  }

  function ListStep(ps: seq<Packet>, op: Op, budget: nat, marks: nat): (seq<Packet>, bool)
  {
    match op
    case SaveOp(id, bytes) =>
      if Used(ps) + |bytes| <= budget && |ps| < marks then (ps + [Packet(id, bytes)], true) else (ps, false)
    case ReleaseOp(id) =>
      if IndexOf(ps, id) < |ps| then (Without(ps, IndexOf(ps, id)), true) else (ps, false)
  }

  function AsMap(ps: seq<Packet>): map<nat, seq<byte>>
  {
    if ps == [] then map[] else AsMap(ps[..|ps| - 1])[ps[|ps| - 1].id := ps[|ps| - 1].bytes]
  }

  lemma {:induction false} AsMapLookup(ps: seq<Packet>, id: nat)
    requires InFlight(ps)
    ensures id in AsMap(ps) <==> HasId(ps, id)
    ensures HasId(ps, id) ==> AsMap(ps)[id] == ps[IndexOf(ps, id)].bytes
    ensures |AsMap(ps)| == |ps|
  {
    if ps != [] {
      var last := |ps| - 1;
      AsMapLookup(ps[..last], id);
      AsMapLookup(ps[..last], ps[last].id);
      assert HasId(ps, id) <==> HasId(ps[..last], id) || ps[last].id == id;
    }
  }

  lemma AsMapAppend(ps: seq<Packet>, p: Packet)
    ensures AsMap(ps + [p]) == AsMap(ps)[p.id := p.bytes]
  {
    assert (ps + [p])[..|ps|] == ps;
  }

  lemma UpdateAway<K, V>(m: map<K, V>, k: K, v: V, x: K)
    ensures k != x ==> (m - {x})[k := v] == m[k := v] - {x}
    ensures k !in m ==> m == m[k := v] - {k}
  {
  }

  lemma {:induction false} AsMapWithout(ps: seq<Packet>, m: nat)
    requires InFlight(ps) && m < |ps|
    ensures AsMap(Without(ps, m)) == AsMap(ps) - {ps[m].id}
  {
    var last := |ps| - 1;
    var front, p := ps[..last], ps[last];
    AsMapLookup(front, p.id);
    UpdateAway(AsMap(front), p.id, p.bytes, ps[m].id);
    if m == last {
      assert Without(ps, m) == front;
    } else {
      AsMapWithout(front, m);
      AsMapAppend(Without(front, m), p);
      assert Without(ps, m) == Without(front, m) + [p];
    }
  }

  lemma InFlightKept(ps: seq<Packet>, op: Op, budget: nat, marks: nat)
    requires InFlight(ps) && Legal(ps, op)
    ensures InFlight(ListStep(ps, op, budget, marks).0)
  {
  }

  /** The effect of a save on the map and on the bytes in use. */
  lemma SaveOnMap(ps: seq<Packet>, id: nat, bytes: seq<byte>, budget: nat, marks: nat)
    requires InFlight(ps)
    ensures var (qs, ok) := ListStep(ps, SaveOp(id, bytes), budget, marks);
      && (ok <==> Used(ps) + |bytes| <= budget && |AsMap(ps)| < marks)
      && AsMap(qs) == (if ok then AsMap(ps)[id := bytes] else AsMap(ps))
      && Used(qs) == Used(ps) + (if ok then |bytes| else 0)
  {
    hide InFlight, HasId;
    AsMapLookup(ps, id);
    OffAppend(ps, Packet(id, bytes));
    AsMapAppend(ps, Packet(id, bytes));
  }

  /** The effect of a release on the map and on the bytes in use. */
  lemma ReleaseOnMap(ps: seq<Packet>, id: nat, budget: nat, marks: nat)
    requires InFlight(ps)
    ensures var (qs, ok) := ListStep(ps, ReleaseOp(id), budget, marks);
      && (ok <==> id in AsMap(ps))
      && AsMap(qs) == AsMap(ps) - {id}
      && Used(qs) == Used(ps) - (if ok then |AsMap(ps)[id]| else 0)
  {
    hide InFlight, AsMap;
    AsMapLookup(ps, id);
    var m := IndexOf(ps, id);
    if m < |ps| {
      AsMapWithout(ps, m);
      OffLastWithout(ps, m);
    }
  }

  /** The simple store: what is kept under each identifier, and how many bytes that is. */
  datatype Store = Store(kept: map<nat, seq<byte>>, used: int)

  function MapStep(st: Store, op: Op, budget: nat, marks: nat): Store
  {
    match op
    case SaveOp(id, bytes) =>
      if st.used + |bytes| <= budget && |st.kept| < marks then Store(st.kept[id := bytes], st.used + |bytes|) else st
    case ReleaseOp(id) =>
      if id in st.kept then Store(st.kept - {id}, st.used - |st.kept[id]|) else st
  }

  function RunList(ps: seq<Packet>, ops: seq<Op>, budget: nat, marks: nat): seq<Packet>
    decreases |ops|
  {
    if ops == [] then ps else RunList(ListStep(ps, ops[0], budget, marks).0, ops[1..], budget, marks)
  }

  function RunMap(st: Store, ops: seq<Op>, budget: nat, marks: nat): Store
    decreases |ops|
  {
    if ops == [] then st else RunMap(MapStep(st, ops[0], budget, marks), ops[1..], budget, marks)
  }

  ghost predicate LegalRun(st: Store, ops: seq<Op>, budget: nat, marks: nat)
    decreases |ops|
  {
    ops != [] ==>
      && ops[0].id != 0
      && (ops[0].SaveOp? ==> |ops[0].bytes| > 0 && ops[0].id !in st.kept)
      && LegalRun(MapStep(st, ops[0], budget, marks), ops[1..], budget, marks)
  }

  /** After any run, the buffer holds what the simple store holds: neither the order in which packets are released
      nor where they lie ever costs a byte or a packet. */
  lemma {:induction false} RunIsMap(ps: seq<Packet>, ops: seq<Op>, budget: nat, marks: nat)
    requires InFlight(ps) && LegalRun(Store(AsMap(ps), Used(ps)), ops, budget, marks)
    ensures var qs := RunList(ps, ops, budget, marks);
      InFlight(qs) && Store(AsMap(qs), Used(qs)) == RunMap(Store(AsMap(ps), Used(ps)), ops, budget, marks)
    decreases |ops|
  {
    hide InFlight, AsMap, Used, HasId;
    if ops != [] {
      var op := ops[0];
      AsMapLookup(ps, op.id);
      LegalInMap(ps, op);
      InFlightKept(ps, op, budget, marks);
      match op {
        case SaveOp(id, bytes) => SaveOnMap(ps, id, bytes, budget, marks);
        case ReleaseOp(id) => ReleaseOnMap(ps, id, budget, marks);
      }
      RunIsMap(ListStep(ps, op, budget, marks).0, ops[1..], budget, marks);
    }
  }

  lemma LegalInMap(ps: seq<Packet>, op: Op)
    requires InFlight(ps) && op.id != 0 && (op.SaveOp? ==> |op.bytes| > 0 && op.id !in AsMap(ps))
    ensures Legal(ps, op)
  {
    AsMapLookup(ps, op.id);
  }
}

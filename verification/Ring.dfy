/** RingBufferStorage: the circular buffer that keeps unacknowledged packets, and the ordered list of packets it
    stands for. */
module Ring {
  import opened Bits
  import opened Circular
  import opened Counting
  import Memory
  import opened PacketList

  datatype Bookmark = Bookmark(id: nat, size: nat, pos: nat)

  // ----- circular positions -----

  /** Masking with the capacity minus one wraps, because the capacity is a power of two. */
  lemma MaskWraps(x: nat, k: nat)
    requires x < 2 * Pow2(k)
    ensures And(x, Pow2(k) - 1) == Wrap(x, Pow2(k))
  {
    MaskIsMod(x, k);
    ModWraps(x, Pow2(k));
  }

  // ----- what the fields mean -----

  /** A bookmark describes the i-th packet. */
  ghost predicate MarkOf(mark: Bookmark, s: nat, r: nat, ps: seq<Packet>, i: nat)
    requires i < |ps|
  {
    mark.id == ps[i].id && mark.size == |ps[i].bytes| && mark.pos == Wrap(r + Off(ps, i), s)
  }

  /** The bookmark of every packet is in its slot, one packet starting where the previous one ends. */
  ghost predicate Tiled(marks: seq<Bookmark>, s: nat, r: nat, ps: seq<Packet>, slots: seq<nat>)
  {
    && r < s && Used(ps) < s
    && |slots| == |ps|
    && (forall i :: 0 <= i < |slots| ==> slots[i] < |marks|)
    && (forall i :: 0 <= i < |slots| ==> MarkOf(marks[slots[i]], s, r, ps, i))
  }

  ghost predicate Distinct(slots: seq<nat>)
  {
    forall i, j :: 0 <= i < j < |slots| ==> slots[i] != slots[j]
  }

  /** A slot that holds no packet has identifier and size zero; its position is left over. */
  ghost predicate OthersFree(marks: seq<Bookmark>, s: nat, slots: seq<nat>)
  {
    forall j :: 0 <= j < |marks| && j !in slots ==> marks[j].id == 0 && marks[j].size == 0 && marks[j].pos < s
  }

  /** The k-th byte of the i-th packet is in its cell. */
  ghost predicate ByteAt(buf: seq<byte>, r: nat, ps: seq<Packet>, i: nat, k: nat)
    requires i < |ps| && k < |ps[i].bytes|
  {
    var cell := Wrap(r + Off(ps, i) + k, |buf|);
    0 <= cell < |buf| && buf[cell] == ps[i].bytes[k]
  }

  /** Every packet's bytes are in the buffer, wrapped or not. */
  ghost predicate Stored(buf: seq<byte>, r: nat, ps: seq<Packet>)
  {
    forall i, k :: 0 <= i < |ps| && 0 <= k < |ps[i].bytes| ==> ByteAt(buf, r, ps, i, k)
  }

  /** The whole invariant, on the values of the fields. */
  ghost predicate Layout(buf: seq<byte>, marks: seq<Bookmark>, r: nat, w: int, ps: seq<Packet>, slots: seq<nat>)
  {
    && InFlight(ps)
    && Tiled(marks, |buf|, r, ps, slots)
    && Distinct(slots)
    && OthersFree(marks, |buf|, slots)
    && Stored(buf, r, ps)
    && w == Wrap(r + Used(ps), |buf|)
  }

  // ----- counting slots -----

  ghost function SetOf(slots: seq<nat>): set<nat>
  {
    set j | j in slots
  }

  lemma {:induction false} DistinctSize(slots: seq<nat>)
    requires Distinct(slots)
    ensures |SetOf(slots)| == |slots|
  {
    if slots != [] {
      var last := |slots| - 1;
      var before := SetOf(slots[..last]);
      DistinctSize(slots[..last]);
      assert slots[last] !in before;
      assert SetOf(slots) == before + {slots[last]};
    }
  }

  lemma SlotsLeft(slots: seq<nat>, n: nat)
    requires Distinct(slots) && forall i :: 0 <= i < |slots| ==> slots[i] < n
    ensures (exists j: nat :: j < n && j !in slots) <==> |slots| < n
  {
    DistinctSize(slots);
    var taken := SetOf(slots);
    SubsetSize(taken, Range(n));
    if j: nat :| j < n && j !in slots {
      assert j in Range(n) && j !in taken;
    }
    if |slots| < n {
      assert taken != Range(n);
      var j :| j in Range(n) && j !in taken;
      assert j !in slots;
    }
  }

  /** A free bookmark exists exactly when fewer packets are stored than there are bookmarks. */
  lemma FreeBookmark(marks: seq<Bookmark>, s: nat, ps: seq<Packet>, slots: seq<nat>, r: nat)
    requires InFlight(ps) && Tiled(marks, s, r, ps, slots) && Distinct(slots) && OthersFree(marks, s, slots)
    ensures (exists j :: 0 <= j < |marks| && marks[j].id == 0) <==> |ps| < |marks|
    ensures forall j :: 0 <= j < |marks| && marks[j].id == 0 ==> j !in slots
  {
    SlotsLeft(slots, |marks|);
    forall j | 0 <= j < |marks| && j in slots
      ensures marks[j].id != 0
    {
      var i :| 0 <= i < |slots| && slots[i] == j;
      assert ps[i].id != 0;
    }
  }

  // ----- writing -----

  /** The cells of size bytes from position at on, wrapped. */
  predicate InArc(j: nat, at: nat, size: nat, s: nat)
  {
    at <= j < at + size || j + s < at + size
  }

  ghost predicate Written(buf: seq<byte>, buf': seq<byte>, at: nat, data: seq<byte>)
  {
    && |buf'| == |buf| && at < |buf| && |data| < |buf|
    && (forall k :: 0 <= k < |data| ==> buf'[Wrap(at + k, |buf|)] == data[k])
    && (forall j :: 0 <= j < |buf| && !InArc(j, at, |data|, |buf|) ==> buf'[j] == buf[j])
  }

  lemma StoredAppend(buf: seq<byte>, buf': seq<byte>, r: nat, ps: seq<Packet>, p: Packet)
    requires r < |buf| && Used(ps) + |p.bytes| < |buf|
    requires Stored(buf, r, ps) && Written(buf, buf', Wrap(r + Used(ps), |buf|), p.bytes)
    ensures Stored(buf', r, ps + [p])
  {
    OffAppend(ps, p);
    var qs := ps + [p];
    forall i, k | 0 <= i < |qs| && 0 <= k < |qs[i].bytes|
      ensures ByteAt(buf', r, qs, i, k)
    {
      if i < |ps| {
        OffMonotone(ps, i, |ps|);
        assert ByteAt(buf, r, ps, i, k);
        assert !InArc(Wrap(r + Off(ps, i) + k, |buf|), Wrap(r + Used(ps), |buf|), |p.bytes|, |buf|);
      } else {
        assert buf'[Wrap(Wrap(r + Used(ps), |buf|) + k, |buf|)] == p.bytes[k];
      }
    }
    assert Stored(buf', r, qs);
  }

  /** A write that reaches the end of the buffer continues at its start. */
  lemma WrittenInTwo(buf: seq<byte>, b1: seq<byte>, b2: seq<byte>, at: nat, data: seq<byte>, part1: nat)
    requires at < |buf| && |data| < |buf| && part1 == if |data| < |buf| - at then |data| else |buf| - at
    requires b1 == Memory.Overwritten(buf, at, data[..part1]) && b2 == Memory.Overwritten(b1, 0, data[part1..])
    ensures Written(buf, b2, at, data)
  {
    hide Memory.Overwritten;
    forall k | 0 <= k < |data|
      ensures b2[Wrap(at + k, |buf|)] == data[k]
    {
      if k < part1 {
        assert b2[at + k] == b1[at + k];
      } else {
        assert b2[k - part1] == data[part1..][k - part1];
      }
    }
    forall j | 0 <= j < |buf| && !InArc(j, at, |data|, |buf|)
      ensures b2[j] == buf[j]
    {
      assert b2[j] == b1[j];
    }
  }

  lemma TiledAppend(marks: seq<Bookmark>, s: nat, r: nat, ps: seq<Packet>, slots: seq<nat>, p: Packet, i: nat)
    requires Tiled(marks, s, r, ps, slots) && Used(ps) + |p.bytes| < s && i < |marks| && i !in slots
    ensures Tiled(marks[i := Bookmark(p.id, |p.bytes|, Wrap(r + Used(ps), s))], s, r, ps + [p], slots + [i])
  {
    OffAppend(ps, p);
    var marks' := marks[i := Bookmark(p.id, |p.bytes|, Wrap(r + Used(ps), s))];
    forall m | 0 <= m < |slots + [i]|
      ensures MarkOf(marks'[(slots + [i])[m]], s, r, ps + [p], m)
    {
      if m < |slots| {
        assert MarkOf(marks[slots[m]], s, r, ps, m);
      }
    }
  }

  lemma AppendKeepsOrder(marks: seq<Bookmark>, s: nat, ps: seq<Packet>, slots: seq<nat>, p: Packet, i: nat, m: Bookmark)
    requires InFlight(ps) && Distinct(slots) && OthersFree(marks, s, slots)
    requires p.id != 0 && |p.bytes| > 0 && !HasId(ps, p.id) && i < |marks| && i !in slots
    ensures InFlight(ps + [p]) && Distinct(slots + [i]) && OthersFree(marks[i := m], s, slots + [i])
  {
    assert forall j :: 0 <= j < |slots| ==> slots[j] in slots && (slots + [i])[j] == slots[j];
    assert forall j :: j in slots + [i] <==> j in slots || j == i;
  }

  lemma LayoutAppend(buf: seq<byte>, buf': seq<byte>, marks: seq<Bookmark>, r: nat, w: nat, ps: seq<Packet>,
                     slots: seq<nat>, p: Packet, i: nat)
    requires Layout(buf, marks, r, w, ps, slots)
    requires p.id != 0 && |p.bytes| > 0 && !HasId(ps, p.id) && Used(ps) + |p.bytes| < |buf|
    requires i < |marks| && marks[i].id == 0
    requires Written(buf, buf', w, p.bytes)
    ensures w + |p.bytes| < 2 * |buf|
    ensures Layout(buf', marks[i := Bookmark(p.id, |p.bytes|, w)], r, Wrap(w + |p.bytes|, |buf|), ps + [p], slots + [i])
  {
    FreeBookmark(marks, |buf|, ps, slots, r);
    StoredAppend(buf, buf', r, ps, p);
    TiledAppend(marks, |buf|, r, ps, slots, p, i);
    AppendKeepsOrder(marks, |buf|, ps, slots, p, i, Bookmark(p.id, |p.bytes|, w));
    OffAppend(ps, p);
  }

  // ----- finding -----

  /** A nonzero identifier found in a bookmark is that packet's, and one that is not found is not stored. */
  lemma FoundIsStored(marks: seq<Bookmark>, s: nat, r: nat, ps: seq<Packet>, slots: seq<nat>, id: nat)
    requires InFlight(ps) && Tiled(marks, s, r, ps, slots) && OthersFree(marks, s, slots) && id != 0
    ensures forall j :: 0 <= j < |marks| && marks[j].id == id ==> IndexOf(ps, id) < |ps| && slots[IndexOf(ps, id)] == j
    ensures IndexOf(ps, id) < |ps| ==> slots[IndexOf(ps, id)] < |marks| && marks[slots[IndexOf(ps, id)]].id == id
  {
    var m := IndexOf(ps, id);
    forall j | 0 <= j < |marks| && marks[j].id == id
      ensures m < |ps| && slots[m] == j
    {
      assert j in slots;
      var q :| 0 <= q < |slots| && slots[q] == j;
      assert MarkOf(marks[slots[q]], s, r, ps, q);
    }
    if m < |ps| {
      assert MarkOf(marks[slots[m]], s, r, ps, m);
    }
  }

  // ----- removing -----

  function WithoutSlot(slots: seq<nat>, m: nat): (rest: seq<nat>)
    requires m < |slots|
    ensures |rest| == |slots| - 1
    ensures forall q :: 0 <= q < |rest| ==> rest[q] == slots[if q < m then q else q + 1]
  {
    slots[..m] + slots[m + 1..]
  }

  lemma RemoveKeepsOrder(ps: seq<Packet>, slots: seq<nat>, m: nat)
    requires InFlight(ps) && Distinct(slots) && |slots| == |ps| && m < |ps|
    ensures InFlight(Without(ps, m)) && Distinct(WithoutSlot(slots, m))
    ensures forall j :: j in WithoutSlot(slots, m) <==> j in slots && j != slots[m]
  {
    var rest := WithoutSlot(slots, m);
    forall j | j in slots && j != slots[m]
      ensures j in rest
    {
      var q :| 0 <= q < |slots| && slots[q] == j;
      assert rest[if q < m then q else q - 1] == j;
    }
  }

  /** Where the q-th packet starts once the m-th is gone. */
  function OffLess(ps: seq<Packet>, m: nat, q: nat): int
    requires m < |ps| && q < |ps|
  {
    if q < m then Off(ps, q) else Off(ps, q) - |ps[m].bytes|
  }

  ghost predicate MarkLess(mark: Bookmark, s: nat, r: nat, ps: seq<Packet>, m: nat, q: nat)
    requires m < |ps| && q < |ps|
  {
    mark.id == ps[q].id && mark.size == |ps[q].bytes| && mark.pos == Wrap(r + OffLess(ps, m, q), s)
  }

  ghost predicate ByteLess(buf: seq<byte>, r: nat, ps: seq<Packet>, m: nat, q: nat, k: nat)
    requires m < |ps| && q < |ps| && k < |ps[q].bytes|
  {
    var cell := Wrap(r + OffLess(ps, m, q) + k, |buf|);
    0 <= cell < |buf| && buf[cell] == ps[q].bytes[k]
  }

  lemma TiledWithout(marks: seq<Bookmark>, s: nat, r: nat, ps: seq<Packet>, slots: seq<nat>, m: nat)
    requires m < |ps| == |slots| && r < s && Used(ps) < s
    requires forall q :: 0 <= q < |slots| ==> slots[q] < |marks|
    requires forall q :: 0 <= q < |slots| && q != m ==> MarkLess(marks[slots[q]], s, r, ps, m, q)
    ensures Tiled(marks, s, r, Without(ps, m), WithoutSlot(slots, m))
  {
    OffLastWithout(ps, m);
    var qs, rest := Without(ps, m), WithoutSlot(slots, m);
    forall q | 0 <= q < |rest|
      ensures MarkOf(marks[rest[q]], s, r, qs, q)
    {
      OffWithout(ps, m, q);
      assert MarkLess(marks[slots[if q < m then q else q + 1]], s, r, ps, m, if q < m then q else q + 1);
    }
  }

  lemma StoredWithout(buf: seq<byte>, r: nat, ps: seq<Packet>, m: nat)
    requires m < |ps|
    requires forall q, k :: 0 <= q < |ps| && q != m && 0 <= k < |ps[q].bytes| ==> ByteLess(buf, r, ps, m, q, k)
    ensures Stored(buf, r, Without(ps, m))
  {
    var qs := Without(ps, m);
    forall q, k | 0 <= q < |qs| && 0 <= k < |qs[q].bytes|
      ensures ByteAt(buf, r, qs, q, k)
    {
      OffWithout(ps, m, q);
      assert ByteLess(buf, r, ps, m, if q < m then q else q + 1, k);
    }
  }

  /** The bookmark of the m-th packet is cleared; positions left in free bookmarks may have moved. */
  ghost predicate FreeBut(marks: seq<Bookmark>, s: nat, slots: seq<nat>, m: nat)
    requires m < |slots|
  {
    forall j :: 0 <= j < |marks| && (j !in slots || j == slots[m]) ==>
      marks[j].id == 0 && marks[j].size == 0 && marks[j].pos < s
  }

  lemma OrderWithout(marks: seq<Bookmark>, s: nat, ps: seq<Packet>, slots: seq<nat>, m: nat)
    requires InFlight(ps) && Distinct(slots) && |slots| == |ps| && m < |ps| && FreeBut(marks, s, slots, m)
    ensures InFlight(Without(ps, m)) && Distinct(WithoutSlot(slots, m)) && OthersFree(marks, s, WithoutSlot(slots, m))
  {
    RemoveKeepsOrder(ps, slots, m);
  }

  lemma ClearMark(marks: seq<Bookmark>, s: nat, slots: seq<nat>, m: nat)
    requires Distinct(slots) && OthersFree(marks, s, slots) && m < |slots| && slots[m] < |marks| && s > 0
    ensures FreeBut(marks[slots[m] := Bookmark(0, 0, 0)], s, slots, m)
    ensures forall q :: 0 <= q < |slots| && q != m ==> slots[q] != slots[m]
  {
  }

  lemma TiledDropFirst(marks: seq<Bookmark>, s: nat, r: nat, ps: seq<Packet>, slots: seq<nat>)
    requires Tiled(marks, s, r, ps, slots) && |ps| > 0
    requires forall q :: 0 < q < |slots| ==> slots[q] != slots[0]
    ensures 0 <= Wrap(r + |ps[0].bytes|, s) < s
    ensures Tiled(marks[slots[0] := Bookmark(0, 0, 0)], s, Wrap(r + |ps[0].bytes|, s), Without(ps, 0),
      WithoutSlot(slots, 0))
  {
    var marks', r' := marks[slots[0] := Bookmark(0, 0, 0)], Wrap(r + |ps[0].bytes|, s);
    OffMonotone(ps, 0, |ps|);
    forall q | 0 < q < |ps|
      ensures MarkLess(marks'[slots[q]], s, r', ps, 0, q)
    {
      OffMonotone(ps, 0, q);
      OffMonotone(ps, q, |ps|);
      assert MarkOf(marks[slots[q]], s, r, ps, q);
    }
    TiledWithout(marks', s, r', ps, slots, 0);
  }

  lemma StoredDropFirst(buf: seq<byte>, r: nat, ps: seq<Packet>)
    requires Stored(buf, r, ps) && |ps| > 0 && r < |buf| && Used(ps) < |buf|
    ensures 0 <= Wrap(r + |ps[0].bytes|, |buf|)
    ensures Stored(buf, Wrap(r + |ps[0].bytes|, |buf|), Without(ps, 0))
  {
    var r' := Wrap(r + |ps[0].bytes|, |buf|);
    OffMonotone(ps, 0, |ps|);
    forall q, k | 0 < q < |ps| && 0 <= k < |ps[q].bytes|
      ensures ByteLess(buf, r', ps, 0, q, k)
    {
      OffMonotone(ps, 0, q);
      OffMonotone(ps, q, |ps|);
      assert ByteAt(buf, r, ps, q, k);
    }
    StoredWithout(buf, r', ps, 0);
  }

  /** Dropping the oldest packet only moves the read position. */
  lemma DropFirst(buf: seq<byte>, marks: seq<Bookmark>, r: nat, w: nat, ps: seq<Packet>, slots: seq<nat>)
    requires Layout(buf, marks, r, w, ps, slots) && |ps| > 0
    ensures r + |ps[0].bytes| < 2 * |buf| && slots[0] < |marks|
    ensures 0 <= Wrap(r + |ps[0].bytes|, |buf|)
    ensures Layout(buf, marks[slots[0] := Bookmark(0, 0, 0)], Wrap(r + |ps[0].bytes|, |buf|), w,
                   Without(ps, 0), WithoutSlot(slots, 0))
  {
    hide Distinct, OthersFree, Stored, InFlight, FreeBut;
    ClearMark(marks, |buf|, slots, 0);
    TiledDropFirst(marks, |buf|, r, ps, slots);
    StoredDropFirst(buf, r, ps);
    OrderWithout(marks[slots[0] := Bookmark(0, 0, 0)], |buf|, ps, slots, 0);
    OffMonotone(ps, 0, |ps|);
    OffLastWithout(ps, 0);
  }

  lemma TiledDropLast(marks: seq<Bookmark>, s: nat, r: nat, ps: seq<Packet>, slots: seq<nat>, m: nat)
    requires Tiled(marks, s, r, ps, slots) && m + 1 == |ps|
    requires forall q :: 0 <= q < m ==> slots[q] != slots[m]
    ensures Tiled(marks[slots[m] := Bookmark(0, 0, 0)], s, r, Without(ps, m), WithoutSlot(slots, m))
  {
    var marks' := marks[slots[m] := Bookmark(0, 0, 0)];
    forall q | 0 <= q < m
      ensures MarkLess(marks'[slots[q]], s, r, ps, m, q)
    {
      assert MarkOf(marks[slots[q]], s, r, ps, q);
    }
    TiledWithout(marks', s, r, ps, slots, m);
  }

  lemma StoredDropLast(buf: seq<byte>, r: nat, ps: seq<Packet>, m: nat)
    requires Stored(buf, r, ps) && m + 1 == |ps|
    ensures Stored(buf, r, Without(ps, m))
  {
    forall q, k | 0 <= q < m && 0 <= k < |ps[q].bytes|
      ensures ByteLess(buf, r, ps, m, q, k)
    {
      assert ByteAt(buf, r, ps, q, k);
    }
    StoredWithout(buf, r, ps, m);
  }

  /** Dropping the newest packet only moves the write position. */
  lemma DropLast(buf: seq<byte>, marks: seq<Bookmark>, r: nat, w: nat, ps: seq<Packet>, slots: seq<nat>, m: nat)
    requires Layout(buf, marks, r, w, ps, slots) && m + 1 == |ps|
    ensures slots[m] < |marks|
    ensures Layout(buf, marks[slots[m] := Bookmark(0, 0, 0)], r, Wrap(r + Off(ps, m), |buf|),
                   Without(ps, m), WithoutSlot(slots, m))
  {
    hide Distinct, OthersFree, Stored, InFlight, FreeBut;
    ClearMark(marks, |buf|, slots, m);
    TiledDropLast(marks, |buf|, r, ps, slots, m);
    StoredDropLast(buf, r, ps, m);
    OrderWithout(marks[slots[m] := Bookmark(0, 0, 0)], |buf|, ps, slots, m);
    OffLastWithout(ps, m);
  }

  ghost predicate SlidByte(buf: seq<byte>, buf': seq<byte>, pos: nat, size: nat, u: nat)
  {
    var to, from := Wrap(pos + u, |buf|), Wrap(pos + u + size, |buf|);
    0 <= to < |buf'| && 0 <= from < |buf| && buf'[to] == buf[from]
  }

  /** The n bytes behind a hole at pos have slid down over it. */
  ghost predicate Slid(buf: seq<byte>, buf': seq<byte>, pos: nat, size: nat, n: int)
  {
    && |buf'| == |buf| && pos < |buf| && n + size < |buf|
    && (forall u :: 0 <= u < n ==> SlidByte(buf, buf', pos, size, u))
    && (forall j :: 0 <= j < |buf| && !(pos <= j < pos + n || j + |buf| < pos + n) ==> buf'[j] == buf[j])
  }

  lemma StoredSlid(buf: seq<byte>, buf': seq<byte>, r: nat, ps: seq<Packet>, m: nat)
    requires m < |ps| && r < |buf| && Used(ps) < |buf| && Stored(buf, r, ps)
    requires Slid(buf, buf', Wrap(r + Off(ps, m), |buf|), |ps[m].bytes|, Used(ps) - Off(ps, m + 1))
    ensures Stored(buf', r, Without(ps, m))
  {
    forall q, k | 0 <= q < |ps| && q != m && 0 <= k < |ps[q].bytes|
      ensures ByteLess(buf', r, ps, m, q, k)
    {
      assert ByteAt(buf, r, ps, q, k);
      OffMonotone(ps, q, |ps|);
      if q < m {
        OffMonotone(ps, q, m);
      } else {
        OffMonotone(ps, m + 1, q);
        var u := Off(ps, q) + k - Off(ps, m + 1);
        assert SlidByte(buf, buf', Wrap(r + Off(ps, m), |buf|), |ps[m].bytes|, u);
      }
    }
    StoredWithout(buf', r, ps, m);
  }

  /** Dropping a packet in the middle: its successors' bytes and bookmarks move down by its size. */
  lemma DropMiddle(buf: seq<byte>, buf': seq<byte>, marks: seq<Bookmark>, marks': seq<Bookmark>, r: nat, w: nat,
                   ps: seq<Packet>, slots: seq<nat>, m: nat)
    requires Layout(buf, marks, r, w, ps, slots) && m < |ps| && |marks'| == |marks|
    requires Slid(buf, buf', Wrap(r + Off(ps, m), |buf|), |ps[m].bytes|, Used(ps) - Off(ps, m + 1))
    requires forall q :: 0 <= q < |ps| && q != m ==> MarkLess(marks'[slots[q]], |buf|, r, ps, m, q)
    requires FreeBut(marks', |buf|, slots, m)
    ensures Layout(buf', marks', r, Wrap(r + Used(ps) - |ps[m].bytes|, |buf|), Without(ps, m), WithoutSlot(slots, m))
  {
    hide Slid, Stored, FreeBut;
    OffLastWithout(ps, m);
    TiledWithout(marks', |buf|, r, ps, slots, m);
    StoredSlid(buf, buf', r, ps, m);
    OrderWithout(marks', |buf|, ps, slots, m);
    SlidLength(buf, buf', Wrap(r + Off(ps, m), |buf|), |ps[m].bytes|, Used(ps) - Off(ps, m + 1));
  }

  lemma SlidLength(buf: seq<byte>, buf': seq<byte>, pos: nat, size: nat, n: int)
    requires Slid(buf, buf', pos, size, n)
    ensures |buf'| == |buf|
  {
  }

  lemma Bounds(buf: seq<byte>, marks: seq<Bookmark>, r: nat, w: nat, ps: seq<Packet>, slots: seq<nat>)
    requires Layout(buf, marks, r, w, ps, slots)
    ensures r < |buf| && w < |buf| && Used(ps) < |buf| && |slots| == |ps|
  {
  }

  // ----- moving the bookmarks -----

  /** The bookmarks behind the hole left by packet m, up to packet n, have moved down; the others have not. */
  ghost predicate Shifted(marks: seq<Bookmark>, s: nat, r: nat, ps: seq<Packet>, slots: seq<nat>, m: nat, n: nat)
    requires m < |ps| == |slots|
  {
    && (forall q :: 0 <= q < |slots| ==> slots[q] < |marks|)
    && (forall q :: 0 <= q < |ps| && q < n && q != m ==> MarkLess(marks[slots[q]], s, r, ps, m, q))
    && (forall q :: n <= q < |ps| ==> MarkOf(marks[slots[q]], s, r, ps, q))
  }

  /** How many free bookmarks have their left-over position at end. */
  function Stale(marks: seq<Bookmark>, end: int): nat
  {
    if marks == [] then 0
    else
      var last := |marks| - 1;
      Stale(marks[..last], end) + (if marks[last].size == 0 && marks[last].pos == end then 1 else 0)
  }

  lemma {:induction false} StaleMoved(marks: seq<Bookmark>, j: nat, pos: nat, end: nat)
    requires j < |marks| && marks[j].size == 0 && marks[j].pos == end && pos != end
    ensures Stale(marks[j := marks[j].(pos := pos)], end) < Stale(marks, end)
  {
    var last := |marks| - 1;
    if j < last {
      StaleMoved(marks[..last], j, pos, end);
      assert marks[j := marks[j].(pos := pos)][..last] == marks[..last][j := marks[j].(pos := pos)];
    } else {
      assert marks[j := marks[j].(pos := pos)][..last] == marks[..last];
    }
  }

  lemma WrapInjective(r: nat, s: nat, x: int, y: int)
    requires r < s && 0 <= x < s && 0 <= y < s && Wrap(r + x, s) == Wrap(r + y, s)
    ensures x == y
  {
  }

  /** A packet's bookmark found at the end of the hole is the next packet's. */
  lemma NextInLine(marks: seq<Bookmark>, s: nat, r: nat, ps: seq<Packet>, slots: seq<nat>, m: nat, n: nat, q: nat)
    requires r < s && Used(ps) < s && InFlight(ps) && m < n <= |ps| == |slots| && q < |ps| && q != m
    requires Shifted(marks, s, r, ps, slots, m, n)
    ensures n < |ps| && q == n ==> marks[slots[q]].pos == Wrap(r + Off(ps, n), s)
    ensures marks[slots[q]].pos == Wrap(r + Off(ps, n), s) ==> q == n
  {
    hide Wrap, Off;
    OffMonotone(ps, n, |ps|);
    OffMonotone(ps, q, |ps|);
    if m < q {
      OffMonotone(ps, m, q);
    }
    var x := if q < n then OffLess(ps, m, q) else Off(ps, q);
    if q < n {
      assert MarkLess(marks[slots[q]], s, r, ps, m, q);
      OffMonotone(ps, q, n);
    } else {
      assert MarkOf(marks[slots[q]], s, r, ps, q);
      OffMonotone(ps, n, q);
    }
    if marks[slots[q]].pos == Wrap(r + Off(ps, n), s) {
      WrapInjective(r, s, x, Off(ps, n));
    }
  }

  /** Moving the next packet's bookmark extends the shifted range. */
  lemma ShiftNext(marks: seq<Bookmark>, s: nat, r: nat, ps: seq<Packet>, slots: seq<nat>, m: nat, n: nat, pos: nat)
    requires m < n < |ps| == |slots| && Distinct(slots) && Shifted(marks, s, r, ps, slots, m, n)
    requires pos == Wrap(r + Off(ps, n) - |ps[m].bytes|, s) && FreeBut(marks, s, slots, m)
    ensures Shifted(marks[slots[n] := marks[slots[n]].(pos := pos)], s, r, ps, slots, m, n + 1)
    ensures FreeBut(marks[slots[n] := marks[slots[n]].(pos := pos)], s, slots, m)
  {
    var marks' := marks[slots[n] := marks[slots[n]].(pos := pos)];
    assert MarkOf(marks[slots[n]], s, r, ps, n);
    assert slots[n] in slots;
    forall q | 0 <= q < |ps| && q != n
      ensures marks'[slots[q]] == marks[slots[q]]
    {
    }
  }

  /** Moving a free bookmark disturbs no packet. */
  lemma ShiftStale(marks: seq<Bookmark>, s: nat, r: nat, ps: seq<Packet>, slots: seq<nat>, m: nat, n: nat, pos: nat,
                   j: nat)
    requires m < n <= |ps| == |slots| && Distinct(slots) && Shifted(marks, s, r, ps, slots, m, n)
    requires j < |marks| && (j !in slots || j == slots[m]) && pos < s && FreeBut(marks, s, slots, m)
    ensures Shifted(marks[j := marks[j].(pos := pos)], s, r, ps, slots, m, n)
    ensures FreeBut(marks[j := marks[j].(pos := pos)], s, slots, m)
  {
    var marks' := marks[j := marks[j].(pos := pos)];
    forall q | 0 <= q < |ps| && q != m
      ensures marks'[slots[q]] == marks[slots[q]]
    {
      assert slots[q] in slots;
    }
  }

  lemma LoadedPart(buf: seq<byte>, marks: seq<Bookmark>, r: nat, w: nat, ps: seq<Packet>, slots: seq<nat>, m: nat)
    requires Layout(buf, marks, r, w, ps, slots) && m < |ps|
    ensures var mark := marks[slots[m]];
      && mark.size == |ps[m].bytes| && mark.size < |buf| && 0 <= mark.pos < |buf|
      && var head := if mark.size < |buf| - mark.pos then mark.size else |buf| - mark.pos;
      && head <= mark.size && buf[mark.pos..mark.pos + head] + buf[..mark.size - head] == ps[m].bytes
  {
    assert MarkOf(marks[slots[m]], |buf|, r, ps, m);
    OffMonotone(ps, m, |ps|);
    var mark := marks[slots[m]];
    var head := if mark.size < |buf| - mark.pos then mark.size else |buf| - mark.pos;
    var whole := buf[mark.pos..mark.pos + head] + buf[..mark.size - head];
    forall k | 0 <= k < mark.size
      ensures whole[k] == ps[m].bytes[k]
    {
      assert ByteAt(buf, r, ps, m, k);
    }
  }

  lemma SlideStep(buf: seq<byte>, b: seq<byte>, b': seq<byte>, pos: nat, size: nat, u: nat)
    requires Slid(buf, b, pos, size, u) && 0 < size && u + 1 + size < |buf|
    requires 0 <= Wrap(pos + u, |buf|) < |buf| && 0 <= Wrap(pos + u + size, |buf|) < |buf|
    requires b' == b[Wrap(pos + u, |buf|) := b[Wrap(pos + u + size, |buf|)]]
    ensures Slid(buf, b', pos, size, u + 1)
  {
    forall v | 0 <= v < u + 1
      ensures SlidByte(buf, b', pos, size, v)
    {
      if v < u {
        assert SlidByte(buf, b, pos, size, v);
      }
    }
  }

  /** What the search at the end of the hole finds: the next packet, or a free bookmark. */
  lemma ChainStep(marks: seq<Bookmark>, s: nat, r: nat, ps: seq<Packet>, slots: seq<nat>, m: nat, n: nat, j: nat)
    requires r < s && Used(ps) < s && InFlight(ps) && Distinct(slots) && m < n <= |ps| == |slots| && j < |marks|
    requires Shifted(marks, s, r, ps, slots, m, n) && FreeBut(marks, s, slots, m)
    requires marks[j].pos == Wrap(r + Off(ps, n), s)
    ensures Off(ps, m + 1) <= Off(ps, n) <= Used(ps)
    ensures if j in slots && j != slots[m]
      then n < |ps| && j == slots[n] && marks[j].size == |ps[n].bytes| && Off(ps, n + 1) <= Used(ps)
      else marks[j].size == 0
  {
    OffMonotone(ps, m + 1, n);
    OffMonotone(ps, n, |ps|);
    if j in slots && j != slots[m] {
      var q :| 0 <= q < |slots| && slots[q] == j;
      NextInLine(marks, s, r, ps, slots, m, n, q);
      assert MarkOf(marks[slots[n]], s, r, ps, n);
      OffMonotone(ps, n + 1, |ps|);
    }
  }

  /** Where the search stands: bookmarks up to packet n have moved, and the hole now lies between pos and end. */
  ghost predicate Chase(marks: seq<Bookmark>, s: nat, r: nat, ps: seq<Packet>, slots: seq<nat>, m: nat, n: nat,
                        pos: int, end: int)
  {
    && r < s && Used(ps) < s && InFlight(ps) && Distinct(slots) && m < n <= |ps| == |slots|
    && Shifted(marks, s, r, ps, slots, m, n) && FreeBut(marks, s, slots, m)
    && 0 <= pos < s && 0 <= end < s
    && pos == Wrap(r + Off(ps, n) - |ps[m].bytes|, s) && end == Wrap(r + Off(ps, n), s)
  }

  lemma ChaseStep(marks: seq<Bookmark>, s: nat, r: nat, ps: seq<Packet>, slots: seq<nat>, m: nat, n: nat,
                  pos: nat, end: nat, j: nat) returns (n': nat)
    requires Chase(marks, s, r, ps, slots, m, n, pos, end) && j < |marks| && marks[j].pos == end
    ensures end + marks[j].size < 2 * s && pos + marks[j].size < 2 * s
    ensures Chase(marks[j := marks[j].(pos := pos)], s, r, ps, slots, m, n',
                  Wrap(pos + marks[j].size, s), Wrap(end + marks[j].size, s))
    ensures n < n' <= |ps|
         || (n' == n && Wrap(end + marks[j].size, s) == end
           && Stale(marks[j := marks[j].(pos := pos)], end) < Stale(marks, end))
  {
    ChainStep(marks, s, r, ps, slots, m, n, j);
    if j in slots && j != slots[m] {
      ShiftNext(marks, s, r, ps, slots, m, n, pos);
      n' := n + 1;
    } else {
      ShiftStale(marks, s, r, ps, slots, m, n, pos, j);
      StaleMoved(marks, j, pos, end);
      n' := n;
    }
  }

  /** When nothing starts at the end of the hole, every packet behind it has been moved. */
  lemma ChaseDone(marks: seq<Bookmark>, s: nat, r: nat, ps: seq<Packet>, slots: seq<nat>, m: nat, n: nat, pos: nat,
                  end: nat)
    requires Chase(marks, s, r, ps, slots, m, n, pos, end)
    requires forall j :: 0 <= j < |marks| ==> marks[j].pos != end
    ensures n == |ps|
  {
    if n < |ps| {
      NextInLine(marks, s, r, ps, slots, m, n, n);
    }
  }

  /** Where a packet of size bytes, a bytes after r, lies when u bytes are used. */
  lemma Places(s: nat, r: nat, a: nat, size: nat, u: nat)
    requires r < s && u < s && 0 < size && a + size <= u
    ensures var pos, end, w := Wrap(r + a, s), Wrap(r + a + size, s), Wrap(r + u, s);
      && 0 <= pos < s && 0 <= end < s && end == Wrap(pos + size, s)
      && (pos == r <==> a == 0)
      && (end == w <==> a + size == u)
      && var W, E := if w < pos then w + s else w, if end < pos then end + s else end;
      && (0 < a && a + size < u ==>
            W - E == u - a - size && 0 <= W - size < 2 * s && Wrap(W - size, s) == Wrap(r + u - size, s))
  {
  }

  lemma HoleMark(marks: seq<Bookmark>, s: nat, r: nat, ps: seq<Packet>, slots: seq<nat>, m: nat)
    requires Tiled(marks, s, r, ps, slots) && m < |ps|
    ensures slots[m] < |marks|
    ensures marks[slots[m]].size == |ps[m].bytes| && marks[slots[m]].pos == Wrap(r + Off(ps, m), s)
  {
    assert MarkOf(marks[slots[m]], s, r, ps, m);
  }

  /** Clearing the packet's bookmark starts the search. */
  lemma ChaseStart(buf: seq<byte>, marks: seq<Bookmark>, r: nat, w: nat, ps: seq<Packet>, slots: seq<nat>, m: nat)
    requires Layout(buf, marks, r, w, ps, slots) && m < |ps|
    ensures Chase(marks[slots[m] := Bookmark(0, 0, 0)], |buf|, r, ps, slots, m, m + 1,
                  Wrap(r + Off(ps, m), |buf|), Wrap(r + Off(ps, m + 1), |buf|))
  {
    hide Stored;
    ClearMark(marks, |buf|, slots, m);
    OffMonotone(ps, m + 1, |ps|);
    var marks' := marks[slots[m] := Bookmark(0, 0, 0)];
    forall q | 0 <= q < |ps| && q != m
      ensures if q < m then MarkLess(marks'[slots[q]], |buf|, r, ps, m, q)
        else MarkOf(marks'[slots[q]], |buf|, r, ps, q)
    {
      assert MarkOf(marks[slots[q]], |buf|, r, ps, q);
    }
  }

  lemma ChaseResult(buf: seq<byte>, buf': seq<byte>, marks: seq<Bookmark>, marks': seq<Bookmark>, r: nat, w: nat,
                    ps: seq<Packet>, slots: seq<nat>, m: nat, pos: int, end: int)
    requires Layout(buf, marks, r, w, ps, slots) && m < |ps| && |marks'| == |marks|
    requires Slid(buf, buf', Wrap(r + Off(ps, m), |buf|), |ps[m].bytes|, Used(ps) - Off(ps, m + 1))
    requires Chase(marks', |buf|, r, ps, slots, m, |ps|, pos, end)
    ensures Layout(buf', marks', r, Wrap(r + Used(ps) - |ps[m].bytes|, |buf|), Without(ps, m), WithoutSlot(slots, m))
  {
    DropMiddle(buf, buf', marks, marks', r, w, ps, slots, m);
  }

  /** What the bookmark of a packet says: where it lies, and whether it is the oldest or the newest. */
  lemma FoundAt(buf: seq<byte>, marks: seq<Bookmark>, r: nat, w: nat, ps: seq<Packet>, slots: seq<nat>, id: nat, i: nat)
    requires Layout(buf, marks, r, w, ps, slots) && id != 0 && i < |marks| && marks[i].id == id
    ensures IndexOf(ps, id) < |ps| == |slots| && i == slots[IndexOf(ps, id)]
    ensures var m, mark, s := IndexOf(ps, id), marks[i], |buf|;
      && 0 <= mark.pos < s && 0 < mark.size == |ps[m].bytes| < s
      && mark.pos == Wrap(r + Off(ps, m), s) && Wrap(mark.pos + mark.size, s) == Wrap(r + Off(ps, m + 1), s)
      && (mark.pos == r <==> m == 0)
      && (Wrap(mark.pos + mark.size, s) == w <==> m + 1 == |ps|)
  {
    hide InFlight, Tiled, Distinct, OthersFree, Stored;
    Bounds(buf, marks, r, w, ps, slots);
    FoundIsStored(marks, |buf|, r, ps, slots, id);
    var m := IndexOf(ps, id);
    HoleMark(marks, |buf|, r, ps, slots, m);
    OffEnds(ps, m);
    Places(|buf|, r, Off(ps, m), |ps[m].bytes|, Used(ps));
  }

  lemma NotFound(buf: seq<byte>, marks: seq<Bookmark>, r: nat, w: nat, ps: seq<Packet>, slots: seq<nat>, id: nat)
    requires Layout(buf, marks, r, w, ps, slots) && id != 0 && forall j :: 0 <= j < |marks| ==> marks[j].id != id
    ensures !HasId(ps, id)
  {
    FoundIsStored(marks, |buf|, r, ps, slots, id);
  }

  /** The distances release computes for a packet in the middle. */
  lemma MiddleAt(buf: seq<byte>, marks: seq<Bookmark>, r: nat, w: nat, ps: seq<Packet>, slots: seq<nat>, m: nat)
    requires Layout(buf, marks, r, w, ps, slots) && 0 < m && m + 1 < |ps|
    ensures var s, size := |buf|, |ps[m].bytes|;
      var pos, end := Wrap(r + Off(ps, m), s), Wrap(r + Off(ps, m + 1), s);
      var W, E := if w < pos then w + s else w, if end < pos then end + s else end;
      && |slots| == |ps| && 0 <= pos < s && 0 <= end && 0 < size
      && 0 <= W - E == Used(ps) - Off(ps, m + 1) && W - E + size < s
      && 0 <= W - size < 2 * s && Wrap(W - size, s) == Wrap(r + Used(ps) - size, s)
  {
    hide InFlight, Tiled, Distinct, OthersFree, Stored;
    Bounds(buf, marks, r, w, ps, slots);
    OffEnds(ps, m);
    Places(|buf|, r, Off(ps, m), |ps[m].bytes|, Used(ps));
  }

  class RingBuffer {
    var r: nat
    var w: nat
    const sm1: nat
    const buffer: array<byte>
    const packets: array<Bookmark>
    ghost const log: nat
    ghost var contents: seq<Packet>
    ghost var slots: seq<nat>

    ghost predicate Valid()
      reads this, buffer, packets
    {
      && buffer.Length == sm1 + 1 == Pow2(log)
      && buffer.Length <= 0x8000_0000
      && Layout(buffer[..], packets[..], r, w, contents, slots)
    }

    constructor (ghost log: nat, size: nat, packetsCount: nat)
      requires size == Pow2(log) && size <= 0x8000_0000
      ensures Valid() && contents == [] && sm1 == size - 1 && packets.Length == packetsCount
      ensures fresh(buffer) && fresh(packets)
    {
      this.log := log;
      sm1 := size - 1;
      buffer := new byte[size](_ => 0);
      packets := new Bookmark[packetsCount](_ => Bookmark(0, 0, 0));
      r, w := 0, 0;
      contents, slots := [], [];
    }

    /** The consumed size, from the two positions alone: the sum of the sizes of the stored packets. */
    function GetSize(): (size: nat)
      requires Valid()
      reads this, buffer, packets
      ensures size == Used(contents) <= sm1
    {
      Bounds(buffer[..], packets[..], r, w, contents, slots);
      if w >= r then w - r else sm1 - r + w + 1
    }

    method FindID(id: nat) returns (i: nat)
      ensures i <= packets.Length
      ensures i < packets.Length ==> packets[i].id == id
      ensures forall j :: 0 <= j < i ==> packets[j].id != id
    {
      i := 0;
      while i < packets.Length && packets[i].id != id
        invariant i <= packets.Length
        invariant forall j :: 0 <= j < i ==> packets[j].id != id
      {
        i := i + 1;
      }
    }

    /** The two block copies of save. */
    method Write(at: nat, data: seq<byte>)
      requires at < buffer.Length == sm1 + 1 && |data| <= sm1
      modifies buffer
      ensures Written(old(buffer[..]), buffer[..], at, data)
    {
      var part1 := if |data| < sm1 - at + 1 then |data| else sm1 - at + 1;
      Memory.Copy(buffer, at, data[..part1]);
      ghost var b1 := buffer[..];
      Memory.Copy(buffer, 0, data[part1..]);
      WrittenInTwo(old(buffer[..]), b1, buffer[..], at, data, part1);
    }

    /** Appends a packet, exactly when it fits in the free bytes and a bookmark is free. */
    method Save(packetID: nat, packet: seq<byte>) returns (ok: bool)
      requires Valid()
      requires packetID != 0 && |packet| > 0 && !HasId(contents, packetID)
      modifies this, buffer, packets
      ensures Valid()
      ensures ok <==> |packet| <= sm1 - Used(old(contents)) && |old(contents)| < packets.Length
      ensures contents == if ok then old(contents) + [Packet(packetID, packet)] else old(contents)
    {
      hide Tiled, Distinct, OthersFree, Stored, InFlight;
      var size := |packet|;
      Bounds(buffer[..], packets[..], r, w, contents, slots);
      FreeBookmark(packets[..], buffer.Length, contents, slots, r);
      if size > sm1 || sm1 - GetSize() < size {
        return false;
      }
      var i := FindID(0);
      if i == packets.Length {
        assert forall j :: 0 <= j < packets.Length ==> packets[..][j].id != 0;
        return false;
      }
      assert packets[..][i].id == 0;
      ghost var p := Packet(packetID, packet);
      Write(w, packet);
      LayoutAppend(old(buffer[..]), buffer[..], packets[..], r, w, contents, slots, p, i);
      packets[i] := Bookmark(packetID, size, w);
      assert packets[..] == old(packets[..])[i := Bookmark(packetID, size, w)];
      MaskWraps(w + size, log);
      w := And(w + size, sm1);
      contents := contents + [p];
      slots := slots + [i];
      return true;
    }

    /** The two parts in which a stored packet can be sent again. */
    method Load(packetID: nat) returns (ok: bool, head: seq<byte>, tail: seq<byte>)
      requires Valid() && packetID != 0
      ensures ok <==> HasId(contents, packetID)
      ensures ok ==> head + tail == contents[IndexOf(contents, packetID)].bytes
    {
      head, tail := [], [];
      var i := FindID(packetID);
      FoundIsStored(packets[..], buffer.Length, r, contents, slots, packetID);
      if i == packets.Length {
        return false, head, tail;
      }
      assert packets[..][i].id == packetID;
      ghost var m := IndexOf(contents, packetID);
      LoadedPart(buffer[..], packets[..], r, w, contents, slots, m);
      var pos, size := packets[i].pos, packets[i].size;
      var sizeHead := if size < sm1 - pos + 1 then size else sm1 - pos + 1;
      var sizeTail := size - sizeHead;
      head, tail := buffer[pos..pos + sizeHead], buffer[..sizeTail];
      assert head == buffer[..][pos..pos + sizeHead] && tail == buffer[..][..sizeTail];
      return true, head, tail;
    }

    /** Closes the hole of size bytes at pos by moving the n bytes behind it. */
    method Slide(pos: nat, size: nat, n: nat)
      requires buffer.Length == sm1 + 1 == Pow2(log) && pos <= sm1 && 0 < size && n + size <= sm1
      modifies buffer
      ensures Slid(old(buffer[..]), buffer[..], pos, size, n)
    {
      var u := 0;
      while u < n
        invariant u <= n
        invariant Slid(old(buffer[..]), buffer[..], pos, size, u)
      {
        MaskWraps(u + pos, log);
        MaskWraps(u + pos + size, log);
        ghost var before := buffer[..];
        buffer[And(u + pos, sm1)] := buffer[And(u + pos + size, sm1)];
        SlideStep(old(buffer[..]), before, buffer[..], pos, size, u);
        u := u + 1;
      }
    }

    method FindPos(pos: int) returns (j: nat)
      ensures j <= packets.Length
      ensures j < packets.Length ==> packets[j].pos == pos
      ensures forall i :: 0 <= i < j ==> packets[i].pos != pos
    {
      j := 0;
      while j < packets.Length && packets[j].pos != pos
        invariant j <= packets.Length
        invariant forall i :: 0 <= i < j ==> packets[i].pos != pos
      {
        j := j + 1;
      }
    }

    /** Chases the bookmarks that start where the hole ends, whatever slots they are in. */
    method MoveBookmarks(pos0: nat, end0: nat, ghost m: nat) returns (ghost pos': int, ghost end': int)
      requires sm1 + 1 == Pow2(log) && m < |contents|
      requires Chase(packets[..], sm1 + 1, r, contents, slots, m, m + 1, pos0, end0)
      modifies packets
      ensures Chase(packets[..], sm1 + 1, r, contents, slots, m, |contents|, pos', end')
    {
      hide Chase, Stale;
      ghost var s, n := sm1 + 1, m + 1;
      var pos: nat, end: nat := pos0, end0;
      var continueSearching := true;
      while continueSearching
        invariant n <= |contents|
        invariant Chase(packets[..], s, r, contents, slots, m, n, pos, end)
        invariant !continueSearching ==> n == |contents|
        decreases |contents| - n, Stale(packets[..], end), continueSearching
      {
        ghost var marks := packets[..];
        var j := FindPos(end);
        continueSearching := j < packets.Length;
        if j < packets.Length {
          var iter := packets[j];
          assert marks[j] == iter;
          n := ChaseStep(marks, s, r, contents, slots, m, n, pos, end, j);
          MaskWraps(end + iter.size, log);
          MaskWraps(pos + iter.size, log);
          end := And(iter.pos + iter.size, sm1);
          packets[j] := iter.(pos := pos);
          assert packets[..] == marks[j := iter.(pos := pos)];
          pos := And(pos + iter.size, sm1);
        } else {
          ChaseDone(marks, s, r, contents, slots, m, n, pos, end);
        }
      }
      pos', end' := pos, end;
    }

    /** The last part of release: the packet is strictly between r and w. */
    method CloseHole(ghost buf: seq<byte>, ghost marks: seq<Bookmark>, pos: nat, size: nat, end: nat, ghost m: nat)
      requires buffer.Length == sm1 + 1 == Pow2(log) && buffer[..] == buf
      requires Layout(buf, marks, r, w, contents, slots) && 0 < m && m + 1 < |contents| && slots[m] < |marks|
      requires packets[..] == marks[slots[m] := Bookmark(0, 0, 0)]
      requires pos == Wrap(r + Off(contents, m), sm1 + 1) && size == |contents[m].bytes|
      requires end == Wrap(r + Off(contents, m + 1), sm1 + 1)
      modifies buffer, packets, this`w
      ensures Layout(buffer[..], packets[..], r, w, Without(contents, m), WithoutSlot(slots, m))
    {
      hide Layout, Slid, Chase, Wrap, Off, Used;
      MiddleAt(buf, marks, r, w, contents, slots, m);
      assert |marks| == packets.Length;
      ChaseStart(buf, marks, r, w, contents, slots, m);
      var s := sm1 + 1;
      var W, E := if w < pos then w + s else w, if end < pos then end + s else end;
      Slide(pos, size, W - E);
      MaskWraps(W - size, log);
      w := And(W - size, sm1);
      ghost var p, e := MoveBookmarks(pos, end, m);
      ChaseResult(buf, buffer[..], marks, packets[..], r, old(w), contents, slots, m, p, e);
    }

    /** Removes a packet, from wherever it is in the buffer. */
    method Release(packetID: nat) returns (ok: bool)
      requires Valid() && packetID != 0
      modifies this, buffer, packets
      ensures Valid()
      ensures ok <==> HasId(old(contents), packetID)
      ensures contents == if ok then Without(old(contents), IndexOf(old(contents), packetID)) else old(contents)
    {
      hide Layout, Wrap, Off, HasId;
      ghost var buf, marks := buffer[..], packets[..];
      var i := FindID(packetID);
      if i == packets.Length {
        assert forall j :: 0 <= j < |marks| ==> marks[j].id != packetID;
        NotFound(buf, marks, r, w, contents, slots, packetID);
        return false;
      }
      ghost var m := IndexOf(contents, packetID);
      FoundAt(buf, marks, r, w, contents, slots, packetID, i);
      var pos, size := packets[i].pos, packets[i].size;
      MaskWraps(pos + size, log);
      var end := And(pos + size, sm1);
      packets[i] := Bookmark(0, 0, 0);
      assert packets[..] == marks[i := Bookmark(0, 0, 0)];
      if pos == r {
        DropFirst(buf, marks, r, w, contents, slots);
        MaskWraps(r + size, log);
        r := And(r + size, sm1);
      } else if end == w {
        DropLast(buf, marks, r, w, contents, slots, m);
        w := pos;
      } else {
        CloseHole(buf, marks, pos, size, end, m);
      }
      contents := Without(contents, m);
      slots := WithoutSlot(slots, m);
      return true;
    }

    /** One call of either kind does what it does to the list of packets. */
    method Apply(op: Op) returns (ok: bool)
      requires Valid() && Legal(contents, op)
      modifies this, buffer, packets
      ensures Valid() && (contents, ok) == ListStep(old(contents), op, sm1, packets.Length)
    {
      match op {
        case SaveOp(id, bytes) => ok := Save(id, bytes);
        case ReleaseOp(id) => ok := Release(id);
      }
    }
  }
}

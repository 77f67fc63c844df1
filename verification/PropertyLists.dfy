/** Property lists: the owned list that is written and read back reversed, and the view that visits the bytes in
    place. */
module PropertyLists {
  import opened Bits
  import opened Options
  import opened VarInt
  import opened PropertyCodec
  import Memory

  const USER_PROPERTY: byte := 0x26
  const BAD_PROPERTY: byte := 0
  const MAX_SIZE_T: nat := 0xFFFF_FFFF_FFFF_FFFF

  predicate Writable(ps: seq<Property>)
  {
    forall i :: 0 <= i < |ps| ==> InRange(ps[i].value)
  }

  predicate AllTyped(ps: seq<Property>)
  {
    forall i :: 0 <= i < |ps| ==> WellTyped(ps[i])
  }

  function Reversed(ps: seq<Property>): (r: seq<Property>)
    ensures |r| == |ps| && forall i :: 0 <= i < |r| ==> r[i] == ps[|ps| - 1 - i]
  {
    if ps == [] then [] else Reversed(ps[1..]) + [ps[0]]
  }

  /** The length header and the properties behind it. */
  function EncodeProperties(ps: seq<Property>): seq<byte>
    requires Writable(ps)
  {
    Encode(|EncodeList(ps)|) + EncodeList(ps)
  }

  // ----- reading a whole list into memory -----

  /** unserialize: the registered type decides how the bytes are read. */
  function Unserialize(b: seq<byte>): (r: (Read, Property))
    ensures r.0.Used? ==> 1 < r.0.n <= |b|
  {
    if |b| < 1 then (NotEnoughData, Property(0, U8(0)))
    else if DeclaredKind(b[0]).Nothing? then (BadData, Property(0, U8(0)))
    else
      var (r, v) := ReadProperty(DeclaredKind(b[0]).value, b[0], b);
      (r, Property(b[0], v))
  }

  /** The properties of a block, in the order of the wire, if every one is readable. */
  function ReadAll(b: seq<byte>): (r: (Read, seq<Property>))
    ensures r.0.Used? ==> r.0.n == |b|
    decreases |b|
  {
    if b == [] then (Used(0), [])
    else
      var (r, p) := Unserialize(b);
      if !r.Used? then (r, [])
      else
        var (s, ps) := ReadAll(b[r.n..]);
        if s.Used? then (Used(r.n + s.n), [p] + ps) else (s, [])
  }

  /** A written list is read back, property by property. */
  lemma {:induction false} ListReads(ps: seq<Property>)
    requires AllTyped(ps) && Writable(ps)
    ensures ReadAll(EncodeList(ps)) == (Used(|EncodeList(ps)|), ps)
  {
    hide EncodeProperty, ReadProperty, WellTyped;
    if ps != [] {
      var b, head, rest := EncodeList(ps), EncodeProperty(ps[0]), EncodeList(ps[1..]);
      assert WellTyped(ps[0]) && AllTyped(ps[1..]);
      FirstReads(ps[0], rest);
      assert b[|head|..] == rest;
      ListReads(ps[1..]);
      assert [ps[0]] + ps[1..] == ps;
    }
  }

  lemma FirstReads(p: Property, rest: seq<byte>)
    requires WellTyped(p)
    ensures Unserialize(EncodeProperty(p) + rest) == (Used(|EncodeProperty(p)|), p)
  {
    PropertyReads(p, rest);
    assert (EncodeProperty(p) + rest)[0] == p.kind;
  }

  // ----- visiting the bytes in place -----

  /** One visited property and the bytes it takes, its type included. */
  datatype Record = Record(property: Property, size: nat)

  /** One step of the view at the start of the remaining bytes. */
  function VisitOne(b: seq<byte>): (r: Maybe<Record>)
    ensures r.Just? ==> 2 <= r.value.size <= |b|
  {
    if b == [] || VisitorKind(b[0]).Nothing? then Nothing
    else
      var (r, v) := Accept(VisitorKind(b[0]).value, b[1..]);
      if r.Used? then Just(Record(Property(b[0], v), r.n + 1)) else Nothing
  }

  /** Visiting until nothing more is shown. */
  function Visit(b: seq<byte>): seq<Record>
    decreases |b|
  {
    var r := VisitOne(b);
    if r.Nothing? then [] else [r.value] + Visit(b[r.value.size..])
  }

  function Consumed(rs: seq<Record>): nat
  {
    if rs == [] then 0 else rs[0].size + Consumed(rs[1..])
  }

  function Shown(rs: seq<Record>): (ps: seq<Property>)
    ensures |ps| == |rs| && forall i :: 0 <= i < |rs| ==> ps[i] == rs[i].property
  {
    if rs == [] then [] else [rs[0].property] + Shown(rs[1..])
  }

  lemma {:induction false} ConsumedTo(rs: seq<Record>, i: nat)
    requires i < |rs|
    ensures Consumed(rs[..i + 1]) == Consumed(rs[..i]) + rs[i].size
  {
    if i == 0 {
      assert rs[..1] == [rs[0]];
      assert Consumed([rs[0]]) == rs[0].size + Consumed([]);
    } else {
      ConsumedTo(rs[1..], i - 1);
      assert rs[..i + 1][1..] == rs[1..][..i] && rs[..i][1..] == rs[1..][..i - 1];
    }
  }

  /** On arbitrary bytes the visited records lie end to end from the start, at least two bytes each, never past the end,
      and the visit goes on until no record can be shown; and each record is where the one before it ends. */
  lemma {:induction false} VisitTiles(b: seq<byte>)
    ensures 2 * |Visit(b)| <= Consumed(Visit(b)) <= |b|
    ensures VisitOne(b[Consumed(Visit(b))..]) == Nothing
  {
    var r := VisitOne(b);
    if r.Just? {
      var rest := b[r.value.size..];
      VisitTiles(rest);
      assert Visit(b)[1..] == Visit(rest);
      assert b[Consumed(Visit(b))..] == rest[Consumed(Visit(rest))..];
    } else {
      assert b[0..] == b;
    }
  }

  lemma {:induction false} VisitedAt(b: seq<byte>, i: nat)
    requires i < |Visit(b)|
    ensures Consumed(Visit(b)[..i]) <= |b|
    ensures VisitOne(b[Consumed(Visit(b)[..i])..]) == Just(Visit(b)[i])
  {
    var r := VisitOne(b);
    var rest := b[r.value.size..];
    assert Visit(b)[1..] == Visit(rest);
    if i == 0 {
      assert b[0..] == b;
    } else {
      VisitedAt(rest, i - 1);
      assert Visit(b)[..i][1..] == Visit(rest)[..i - 1];
      assert b[Consumed(Visit(b)[..i])..] == rest[Consumed(Visit(rest)[..i - 1])..];
    }
  }

  /** A record shows a property that could have been written, and its bytes are that property's encoding, exactly when a
      variable byte integer in it is neither unfinished nor padded. */
  lemma RecordIsEncoding(b: seq<byte>)
    requires VisitOne(b).Just?
    ensures var Record(p, size) := VisitOne(b).value;
      WellTyped(p) && EncodeProperty(p) == b[..size] <==> (p.value.Var? ==> EndsTight(b[1..size]))
  {
    hide Accept, EncodeValue, EndsTight;
    var kind := VisitorKind(b[0]).value;
    var Record(p, size) := VisitOne(b).value;
    RegistriesAgree(b[0]);
    assert KindOf(Accept(kind, b[1..]).1) == kind;
    AcceptedIsEncoding(kind, b[1..]);
    assert b[1..][..size - 1] == b[1..size] && b[..size] == [b[0]] + b[1..size];
    assert InRange(p.value) ==> EncodeProperty(p)[1..] == EncodeValue(p.value);
  }

  /** A variable byte integer in the record ends within it. */
  predicate Ended(b: seq<byte>, r: Record)
    requires 2 <= r.size <= |b|
  {
    r.property.value.Var? ==> b[r.size - 1] < 128
  }

  /** The owned reader takes exactly the records the view shows, except variable byte integers that do not end; of what
      it does not take, unknown types and overlong integers are refused, and the rest is too short. */
  lemma OwnedAndViewAgree(b: seq<byte>)
    ensures Unserialize(b).0.Used? <==> VisitOne(b).Just? && Ended(b, VisitOne(b).value)
    ensures Unserialize(b).0.Used? ==> VisitOne(b) == Just(Record(Unserialize(b).1, Unserialize(b).0.n))
    ensures Unserialize(b).0 == BadData <==>
      b != [] && (DeclaredKind(b[0]).Nothing? || (DeclaredKind(b[0]) == Just(VarKind) && |b| >= 5
                                                  && b[1] >= 128 && b[2] >= 128 && b[3] >= 128 && b[4] >= 128))
    ensures !Unserialize(b).0.Used? ==> Unserialize(b).0 == BadData || Unserialize(b).0 == NotEnoughData
  {
    if b != [] {
      hide Unserialize, VisitOne, Accept, DeclaredKind, VisitorKind;
      OwnedStart(b);
      if DeclaredKind(b[0]).Just? {
        var kind := DeclaredKind(b[0]).value;
        AcceptsExactly(kind, b[1..]);
        VarAgrees(b[1..]);
      }
    }
  }

  /** Both readers of a known type, in terms of its visitor. */
  lemma OwnedStart(b: seq<byte>)
    requires b != []
    ensures DeclaredKind(b[0]).Nothing? ==> Unserialize(b).0 == BadData && VisitOne(b).Nothing?
    ensures DeclaredKind(b[0]).Just? ==>
      var kind := DeclaredKind(b[0]).value;
      var r := if kind == VarKind then Extent(b[1..], 0) else Accept(kind, b[1..]).0;
      && (VisitOne(b).Just? <==> Accept(kind, b[1..]).0.Used?)
      && (VisitOne(b).Just? ==>
            VisitOne(b).value == Record(Property(b[0], Accept(kind, b[1..]).1), Accept(kind, b[1..]).0.n + 1))
      && (|b| < Least(kind) ==> Unserialize(b).0 == NotEnoughData)
      && (|b| >= Least(kind) && !r.Used? ==> Unserialize(b).0 == r)
      && (|b| >= Least(kind) && r.Used? ==>
            Unserialize(b) == if Accept(kind, b[1..]).0.Used?
              then (Used(Accept(kind, b[1..]).0.n + 1), Property(b[0], Accept(kind, b[1..]).1))
              else (Accept(kind, b[1..]).0, Property(b[0], Accept(kind, b[1..]).1)))
  {
    hide Accept, And, DeclaredKind, VisitorKind, Extent, Least;
    RegistriesAgree(b[0]);
    if DeclaredKind(b[0]).Just? {
      KnownType(b[0]);
    }
  }

  lemma KnownType(t: byte)
    requires DeclaredKind(t).Just?
    ensures VisitorKind(t) == DeclaredKind(t) && And(t, 0x80) == 0
  {
    RegistriesAgree(t);
    Powers();
    AndBit(t, 7);
  }

  /** The strict reader and the visitor on a variable byte integer. */
  lemma VarAgrees(c: seq<byte>)
    ensures Accept(VarKind, c).0 == Accepted(c) && Accept(VarKind, c).1.Var?
    ensures Extent(c, 0).Used? <==> Accepted(c).Used? && c[Accepted(c).n - 1] < 128
    ensures Extent(c, 0).Used? ==> Accepted(c) == Extent(c, 0)
    ensures Extent(c, 0) == BadData <==> |c| >= 4 && c[0] >= 128 && c[1] >= 128 && c[2] >= 128 && c[3] >= 128
    ensures !Extent(c, 0).Used? ==> Extent(c, 0) == BadData || Extent(c, 0) == NotEnoughData
  {
    VisitorAgrees(c);
    ReaderSucceeds(c, 0);
    if Extent(c, 0).Used? {
      ExtentPrefix(c, 0);
    }
  }

  /** What the owned reader takes is a property that could have been written, from its own encoding exactly when a
      variable byte integer in it is not padded; a padded one is longer than the encoding. */
  lemma UnserializedIsEncoding(b: seq<byte>)
    requires Unserialize(b).0.Used?
    ensures var (Used(n), p) := Unserialize(b);
      && WellTyped(p) && |EncodeProperty(p)| <= n
      && (EncodeProperty(p) == b[..n] <==> (p.value.Var? ==> EndsTight(b[1..n])))
      && (EncodeProperty(p) == b[..n] <==> |EncodeProperty(p)| == n)
  {
    hide Unserialize, VisitOne, EndsTight;
    OwnedAndViewAgree(b);
    RecordIsEncoding(b);
    var (Used(n), p) := Unserialize(b);
    if p.value.Var? {
      VarRecord(b);
    } else {
      assert |b[..n]| == n;
    }
  }

  /** An ended variable byte integer is in range, and no shorter than its encoding. */
  lemma VarRecord(b: seq<byte>)
    requires VisitOne(b).Just? && VisitOne(b).value.property.value.Var? && Ended(b, VisitOne(b).value)
    ensures var Record(p, size) := VisitOne(b).value;
      WellTyped(p) && |EncodeProperty(p)| <= size && (|EncodeProperty(p)| == size ==> EndsTight(b[1..size]))
  {
    hide Value, Encode;
    var Record(p, size) := VisitOne(b).value;
    var c := b[1..];
    RegistriesAgree(b[0]);
    VarAgrees(c);
    var n := size - 1;
    DecodedIsValue(c, n);
    assert p.value == Var(Value(c[..n]));
    ExtentPrefix(c, 0);
    Minimal(c[..n]);
    EncodeLength(Value(c[..n]));
    assert b[1..size] == c[..n];
    PaddingCosts(c[..n]);
  }

  /** Padding costs a byte. */
  lemma {:induction false} PaddingCosts(c: seq<byte>)
    requires c != [] && c[|c| - 1] < 128
    ensures !EndsTight(c) ==> |Encode(Value(c))| < |c|
  {
    if |c| > 1 {
      var rest := c[1..];
      assert rest[|rest| - 1] == c[|c| - 1];
      assert Value(c) / 128 == Value(rest);
      assert |rest| == 1 ==> Value(rest) == rest[0] % 128 + 128 * Value(rest[1..]) == rest[0];
      assert |Encode(Value(c))| == if Value(c) < 128 then 1 else 1 + |Encode(Value(rest))|;
      PaddingCosts(rest);
    }
  }

  /** No integer in the visited records goes on behind its record. */
  predicate AllEnded(b: seq<byte>)
    decreases |b|
  {
    VisitOne(b).Just? ==> Ended(b, VisitOne(b).value) && AllEnded(b[VisitOne(b).value.size..])
  }

  /** A block is read whole exactly when its visit reaches the end and every variable byte integer in it ends; then it
      is the list the visit shows. */
  lemma {:induction false} ReadAllIsVisit(b: seq<byte>)
    ensures ReadAll(b).0.Used? <==> Consumed(Visit(b)) == |b| && AllEnded(b)
    ensures ReadAll(b).0.Used? ==> ReadAll(b).1 == Shown(Visit(b))
    decreases |b|
  {
    hide VisitOne, Unserialize, Ended;
    OwnedAndViewAgree(b);
    if b == [] {
      NothingToShow();
    } else if VisitOne(b).Just? {
      var size := VisitOne(b).value.size;
      var rest := b[size..];
      VisitTiles(rest);
      assert Visit(b)[0] == VisitOne(b).value && Visit(b)[1..] == Visit(rest);
      ReadAllIsVisit(rest);
    }
  }

  /** What is read whole could have been written: every property has its declared type, and writing the list again gives
      the bytes back exactly when it takes as many, which padded integers alone prevent. */
  lemma {:induction false} ReadAllIsEncoding(b: seq<byte>)
    requires ReadAll(b).0.Used?
    ensures AllTyped(ReadAll(b).1) && Writable(ReadAll(b).1)
    ensures |EncodeList(ReadAll(b).1)| <= |b|
    ensures EncodeList(ReadAll(b).1) == b <==> |EncodeList(ReadAll(b).1)| == |b|
    decreases |b|
  {
    hide Unserialize, EncodeProperty, WellTyped;
    if b != [] {
      var (Used(n), p) := Unserialize(b);
      var ps := ReadAll(b[n..]).1;
      UnserializedIsEncoding(b);
      ReadAllIsEncoding(b[n..]);
      TypedInRange(p);
      Prepended(ps, p);
      assert b == b[..n] + b[n..];
    }
  }

  lemma TypedInRange(p: Property)
    requires WellTyped(p)
    ensures InRange(p.value)
  {
  }

  /** A written property is shown as it was, in its own bytes. */
  lemma PropertyShown(p: Property, rest: seq<byte>)
    requires WellTyped(p)
    ensures VisitOne(EncodeProperty(p) + rest) == Just(Record(p, |EncodeProperty(p)|))
  {
    hide Accept, EncodeValue;
    var b := EncodeProperty(p) + rest;
    assert b[0] == p.kind && b[1..] == EncodeValue(p.value) + rest;
    RegistriesAgree(p.kind);
    ValueReads(p.value, rest);
  }

  /** A written list is visited in order, with its types and values, and the visit stops exactly at its end. */
  lemma {:induction false} ListShown(ps: seq<Property>)
    requires AllTyped(ps) && Writable(ps)
    ensures Shown(Visit(EncodeList(ps))) == ps
    ensures Consumed(Visit(EncodeList(ps))) == |EncodeList(ps)|
  {
    hide EncodeProperty, VisitOne, WellTyped;
    if ps == [] {
      assert VisitOne([]) == Nothing by {
        NothingToShow();
      }
    } else {
      var b, head, rest := EncodeList(ps), EncodeProperty(ps[0]), EncodeList(ps[1..]);
      assert WellTyped(ps[0]) && AllTyped(ps[1..]);
      PropertyShown(ps[0], rest);
      assert b[|head|..] == rest;
      ListShown(ps[1..]);
      assert Visit(b)[1..] == Visit(rest);
      assert [ps[0]] + ps[1..] == ps;
    }
  }

  lemma NothingToShow()
    ensures VisitOne([]) == Nothing
  {
  }

  // ----- the owned list -----

  lemma {:induction false} ReadAllStep(b: seq<byte>, done: seq<Property>, rest: seq<byte>)
    requires rest != [] && Unserialize(rest).0.Used?
    requires ReadAll(b).0.Used? <==> ReadAll(rest).0.Used?
    requires ReadAll(b).0.Used? ==> ReadAll(b).1 == done + ReadAll(rest).1
    requires !ReadAll(b).0.Used? ==> ReadAll(b).0 == ReadAll(rest).0
    ensures var (r, p) := Unserialize(rest); var next := rest[r.n..];
      && (ReadAll(b).0.Used? <==> ReadAll(next).0.Used?)
      && (ReadAll(b).0.Used? ==> ReadAll(b).1 == done + [p] + ReadAll(next).1)
      && (!ReadAll(b).0.Used? ==> ReadAll(b).0 == ReadAll(next).0)
  {
  }

  lemma {:induction false} ReversedAppend(ps: seq<Property>, p: Property)
    ensures Reversed(ps + [p]) == [p] + Reversed(ps)
  {
    if ps != [] {
      assert (ps + [p])[1..] == ps[1..] + [p];
      ReversedAppend(ps[1..], p);
    } else {
      assert Reversed([p]) == Reversed([]) + [p];
    }
  }

  lemma {:induction false} EncodeListAppend(ps: seq<Property>, p: Property)
    requires Writable(ps) && InRange(p.value)
    ensures Writable(ps + [p]) && EncodeList(ps + [p]) == EncodeList(ps) + EncodeProperty(p)
  {
    hide EncodeProperty;
    var whole := ps + [p];
    assert forall i :: 0 <= i < |whole| ==> whole[i] == if i < |ps| then ps[i] else p;
    if ps == [] {
      assert whole[1..] == [];
    } else {
      assert Writable(ps[1..]);
      assert whole[1..] == ps[1..] + [p];
      EncodeListAppend(ps[1..], p);
    }
  }

  /** What a pointer into the list points at: nothing past its end. */
  function Pointee(u: seq<Property>): Maybe<Property>
  {
    if u == [] then Nothing else Just(u[0])
  }

  /** The properties and the length that counts their bytes. */
  class Properties {
    const length: VBInt
    var list: seq<Property>

    ghost predicate Shape()
      reads this, length
    {
      length.Valid()
    }

    /** The length is the number of bytes of the members, in its shortest encoding. */
    ghost predicate Valid()
      reads this, length, length.value
    {
      && Shape()
      && Writable(list) && |EncodeList(list)| <= MAX_POSSIBLE
      && length.Bytes() == Encode(|EncodeList(list)|)
    }

    constructor ()
      ensures Valid() && list == [] && fresh(length) && fresh(length.value)
    {
      length := new VBInt();
      list := [];
    }

    /** The i-th property: the walk ends at a null pointer, or leaves the index wrapped below zero and not null. */
    method GetPropertyAt(index0: nat) returns (found: Maybe<Property>)
      requires index0 <= MAX_SIZE_T
      ensures found == Nothing
    {
      var index, u := index0, list;
      while u != []
        invariant 0 <= index <= MAX_SIZE_T
        decreases |u|
      {
        var was := index;
        index := if index == 0 then MAX_SIZE_T else index - 1;
        if was == 0 {
          break;
        }
        u := u[1..];
      }
      return if index == 0 then Pointee(u) else Nothing;
    }

    /** append: the property goes to the front and its bytes into the length, unless the length would no longer have an
        encoding. A second property of a type is taken like the first, because the search for one finds nothing. */
    method Append(property: Property) returns (ok: bool)
      requires Valid() && InRange(property.value)
      modifies this, length, length.value
      ensures Valid()
      ensures ok <==> |EncodeList(old(list))| + |EncodeProperty(property)| <= MAX_POSSIBLE
      ensures list == if ok then [property] + old(list) else old(list)
      ensures !ok ==> length.Bytes() == old(length.Bytes())
    {
      hide EncodeProperty, Decoded, Encode, And;
      var taken := Nothing;
      if property.kind != USER_PROPERTY {
        taken := GetPropertyAt(property.kind);
      }
      HoldsEncoding(length.value[..], length.size, |EncodeList(list)|);
      var l := new VBInt();
      var sum := length.Get() + |EncodeProperty(property)|;
      l.Assign(sum);
      if sum <= MAX_POSSIBLE {
        HoldsEncoding(l.value[..], l.size, sum);
      }
      ok := taken.Nothing? && l.CheckImpl();
      if ok {
        ghost var was := list;
        length.Set(l);
        list := [property] + list;
        Prepended(was, property);
        assert length.Bytes() == l.Bytes() by {
          assert length.value[..][..length.size] == l.value[..][..l.size];
        }
      }
    }

    function GetSize(): nat
      requires Shape()
      reads this, length, length.value
    {
      length.GetSize() + length.Get()
    }

    /** copyInto: the length, then every property from the head. */
    method CopyInto(buffer: array<byte>, at: nat) returns (o: nat)
      requires Valid() && buffer != length.value && at + |EncodeProperties(list)| <= buffer.Length
      modifies buffer
      ensures o == |EncodeProperties(list)| == GetSize()
      ensures buffer[..] == Memory.Overwritten(old(buffer[..]), at, EncodeProperties(list))
    {
      hide EncodeProperty, Decoded, Encode, Memory.Overwritten, And;
      HoldsEncoding(length.value[..], length.size, |EncodeList(list)|);
      ghost var header, body := length.Bytes(), EncodeList(list);
      o := length.CopyInto(buffer, at);
      var c := 0;
      assert list[..0] == [] && header + EncodeList(list[..0]) == header;
      while c < |list|
        invariant 0 <= c <= |list| && Writable(list[..c])
        invariant o == |header| + |EncodeList(list[..c])| <= |header| + |body|
        invariant buffer[..] == Memory.Overwritten(old(buffer[..]), at, header + EncodeList(list[..c]))
      {
        ghost var done := EncodeList(list[..c]);
        EncodeListAppend(list[..c], list[c]);
        assert list[..c + 1] == list[..c] + [list[c]];
        EncodeListPrefix(list, c + 1);
        assert header + done + EncodeProperty(list[c]) == header + EncodeList(list[..c + 1]);
        Memory.OverwrittenTwice(old(buffer[..]), at, header + done, EncodeProperty(list[c]));
        Memory.Copy(buffer, at + o, EncodeProperty(list[c]));
        o := o + |EncodeProperty(list[c])|;
        c := c + 1;
      }
      assert list[..c] == list;
    }

    /** readFrom: the properties are put in front of each other as they are read. */
    method ReadFrom(buffer0: seq<byte>) returns (r: Read)
      requires Shape()
      modifies this, length, length.value
      ensures Shape()
      ensures Extent(buffer0, 0).Used? ==> length.Bytes() == buffer0[..Extent(buffer0, 0).n]
      ensures r == ReadProperties(buffer0).0
      ensures r.Used? ==> list == Reversed(ReadProperties(buffer0).1)
    {
      hide Unserialize, Decoded, Value, ReadAll;
      r := length.ReadFrom(buffer0);
      if !r.Used? {
        return;
      }
      if length.Get() > |buffer0| - length.GetSize() {
        return NotEnoughData;
      }
      var o := r.n;
      r := ReadMembers(buffer0[o..][..length.Get()]);
      if r.Used? {
        r := Used(o + r.n);
      }
    }

    /** The loop of readFrom, over the bytes the length announces. */
    method ReadMembers(block: seq<byte>) returns (r: Read)
      modifies this`list
      ensures r == ReadAll(block).0
      ensures r.Used? ==> list == Reversed(ReadAll(block).1)
    {
      hide Unserialize, ReadAll;
      var buffer, cumSize := block, |block|;
      list := [];
      ghost var done := [];
      assert buffer[..cumSize] == block;
      while cumSize > 0
        invariant 0 <= cumSize <= |buffer|
        invariant list == Reversed(done)
        invariant ReadAll(block).0.Used? <==> ReadAll(buffer[..cumSize]).0.Used?
        invariant ReadAll(block).0.Used? ==> ReadAll(block).1 == done + ReadAll(buffer[..cumSize]).1
        invariant !ReadAll(block).0.Used? ==> ReadAll(block).0 == ReadAll(buffer[..cumSize]).0
      {
        var (s, property) := Unserialize(buffer[..cumSize]);
        if !s.Used? {
          ReadAllStops(buffer[..cumSize]);
          return s;
        }
        ReadAllStep(block, done, buffer[..cumSize]);
        assert buffer[..cumSize][s.n..] == buffer[s.n..][..cumSize - s.n];
        ReversedAppend(done, property);
        done := done + [property];
        list := [property] + list;
        buffer, cumSize := buffer[s.n..], cumSize - s.n;
      }
      ReadAllNothing();
      return Used(|block|);
    }
  }

  lemma Prepended(ps: seq<Property>, p: Property)
    requires Writable(ps) && InRange(p.value)
    ensures Writable([p] + ps) && EncodeList([p] + ps) == EncodeProperty(p) + EncodeList(ps)
  {
    assert ([p] + ps)[1..] == ps;
  }

  lemma {:induction false} EncodeListPrefix(ps: seq<Property>, c: nat)
    requires Writable(ps) && c <= |ps|
    ensures Writable(ps[..c]) && |EncodeList(ps[..c])| <= |EncodeList(ps)|
  {
    hide EncodeProperty;
    if c > 0 {
      assert ps[..c][1..] == ps[1..][..c - 1];
      EncodeListPrefix(ps[1..], c - 1);
    }
  }

  lemma ReadAllStops(b: seq<byte>)
    requires b != [] && !Unserialize(b).0.Used?
    ensures ReadAll(b).0 == Unserialize(b).0
  {
  }

  lemma ReadAllNothing()
    ensures ReadAll([]) == (Used(0), [])
  {
  }

  /** What readFrom makes of a buffer: the length header, then a whole block of that many bytes. */
  function ReadProperties(b: seq<byte>): (r: (Read, seq<Property>))
    ensures r.0.Used? ==> r.0.n <= |b|
  {
    var e := Extent(b, 0);
    if !e.Used? then (e, [])
    else
      var length := Value(b[..e.n]);
      if length > |b| - e.n then (NotEnoughData, [])
      else
        var (s, ps) := ReadAll(b[e.n..][..length]);
        if s.Used? then (Used(e.n + length), ps) else (s, [])
  }

  /** A written list is read back with its length, and nothing behind it is touched. The list in memory is the reverse
      of the one that was written. */
  lemma PropertiesRead(ps: seq<Property>, rest: seq<byte>)
    requires AllTyped(ps) && Writable(ps) && |EncodeList(ps)| <= MAX_POSSIBLE
    ensures ReadProperties(EncodeProperties(ps) + rest) == (Used(|EncodeProperties(ps)|), ps)
  {
    hide Encode, Extent, Value, EncodeList, ReadAll;
    var body := EncodeList(ps);
    var head := Encode(|body|);
    var b := EncodeProperties(ps) + rest;
    assert b == head + (body + rest);
    RoundTrip(|body|, body + rest);
    assert b[|head|..][..|body|] == body;
    ListReads(ps);
  }

  // ----- the view -----

  /** The visitor: the type it was mutated to, the property it shows and the offset of the next one. */
  class VisitorVariant {
    var kind: Maybe<Kind>
    var propType: byte
    var offset: nat
    var value: PropertyValue

    constructor ()
      ensures propType == BAD_PROPERTY && offset == 0
    {
      kind, propType, offset, value := Nothing, BAD_PROPERTY, 0, U8(0);
    }
  }

  class PropertiesView {
    const length: VBInt
    var buffer: seq<byte>

    ghost predicate Shape()
      reads this, length
    {
      length.Valid()
    }

    /** The view covers at least the bytes its length announces. */
    ghost predicate Valid()
      reads this, length, length.value
    {
      Shape() && length.Get() <= |buffer|
    }

    ghost function Block(): seq<byte>
      requires Valid()
      reads this, length, length.value
    {
      buffer[..length.Get()]
    }

    constructor ()
      ensures Valid() && Block() == [] && fresh(length) && fresh(length.value)
    {
      length := new VBInt();
      buffer := [];
      new;
      HoldsEncoding(length.value[..], length.size, 0);
    }

    /** getProperty: shows the record at the visitor's offset and moves the offset behind it, or shows nothing. */
    method GetProperty(visitor: VisitorVariant) returns (ok: bool)
      requires Valid()
      modifies visitor
      ensures ok <==> old(visitor.offset) <= |Block()| && VisitOne(Block()[old(visitor.offset)..]).Just?
      ensures ok ==>
        var r := VisitOne(Block()[old(visitor.offset)..]).value;
        && visitor.propType == r.property.kind && visitor.value == r.property.value
        && visitor.kind == Just(KindOf(r.property.value)) && visitor.offset == old(visitor.offset) + r.size
      ensures !ok ==> visitor.offset == old(visitor.offset)
    {
      hide Decoded;
      visitor.propType := BAD_PROPERTY;
      var offset := visitor.offset;
      ghost var block := Block();
      if offset >= length.Get() {
        return false;
      }
      var t := buffer[offset];
      assert block[offset..][0] == t;
      var kind := VisitorKind(t);
      if kind.Nothing? {
        return false;
      }
      visitor.kind, visitor.propType := kind, t;
      var (r, v) := Accept(kind.value, buffer[offset + 1..length.Get()]);
      assert block[offset..][1..] == buffer[offset + 1..length.Get()];
      visitor.value := v;
      if !r.Used? {
        return false;
      }
      visitor.offset := offset + r.n + 1;
      return true;
    }

    /** The loop of every reader of a view: visit until nothing is shown. */
    method VisitAll() returns (shown: seq<Property>, visitor: VisitorVariant)
      requires Valid()
      ensures fresh(visitor)
      ensures shown == Shown(Visit(Block())) && visitor.offset == Consumed(Visit(Block()))
    {
      hide Visit, VisitOne, Shown, Consumed, Decoded;
      visitor := new VisitorVariant();
      shown := [];
      ghost var block := Block();
      assert block[0..] == block;
      var ok := GetProperty(visitor);
      ghost var from := 0;
      while ok
        invariant fresh(visitor) && Valid() && block == Block()
        invariant from <= visitor.offset <= |block| && ok == VisitOne(block[from..]).Just?
        invariant ok ==>
          Record(Property(visitor.propType, visitor.value), visitor.offset - from) == VisitOne(block[from..]).value
        invariant !ok ==> visitor.offset == from
        invariant Shown(Visit(block)) == shown + Shown(Visit(block[from..]))
        invariant Consumed(Visit(block)) == from + Consumed(Visit(block[from..]))
        decreases |block| - from, ok
      {
        VisitStep(block, from, shown);
        shown := shown + [Property(visitor.propType, visitor.value)];
        from := visitor.offset;
        ok := GetProperty(visitor);
      }
      VisitUnfold(block[from..]);
    }

    function GetSize(): nat
      requires Shape()
      reads this, length, length.value
    {
      length.GetSize() + length.Get()
    }

    method ReadFrom(buffer0: seq<byte>) returns (r: Read)
      requires Shape()
      modifies this, length, length.value
      ensures Shape() && r == ReadView(buffer0)
      ensures r.Used? ==> Valid() && GetSize() == r.n && length.Bytes() + Block() == buffer0[..r.n]
      ensures r.Used? ==> Block() == buffer0[Extent(buffer0, 0).n..r.n]
    {
      hide Decoded, Value;
      r := length.ReadFrom(buffer0);
      if !r.Used? {
        return;
      }
      var n := length.Get();
      if n > |buffer0| - length.GetSize() {
        return NotEnoughData;
      }
      buffer := buffer0[r.n..];
      assert length.Get() == n && buffer[..n] == buffer0[r.n..r.n + n];
      r := Used(r.n + n);
    }
  }

  /** What readFrom of a view returns: only the length header is looked at. */
  function ReadView(b: seq<byte>): (r: Read)
    ensures r.Used? ==> Extent(b, 0).Used? && Extent(b, 0).n <= r.n <= |b|
  {
    var e := Extent(b, 0);
    if !e.Used? then e
    else if Value(b[..e.n]) > |b| - e.n then NotEnoughData
    else Used(e.n + Value(b[..e.n]))
  }

  lemma VisitStep(block: seq<byte>, from: nat, shown: seq<Property>)
    requires from <= |block| && VisitOne(block[from..]).Just?
    requires Shown(Visit(block)) == shown + Shown(Visit(block[from..]))
    requires Consumed(Visit(block)) == from + Consumed(Visit(block[from..]))
    ensures var r := VisitOne(block[from..]).value;
      && Shown(Visit(block)) == shown + [r.property] + Shown(Visit(block[from + r.size..]))
      && Consumed(Visit(block)) == from + r.size + Consumed(Visit(block[from + r.size..]))
  {
    hide VisitOne, Visit, Shown, Consumed;
    var r := VisitOne(block[from..]).value;
    VisitUnfold(block[from..]);
    assert block[from..][r.size..] == block[from + r.size..];
  }

  lemma VisitUnfold(b: seq<byte>)
    ensures var r := VisitOne(b);
      if r.Just? then
        && Shown(Visit(b)) == [r.value.property] + Shown(Visit(b[r.value.size..]))
        && Consumed(Visit(b)) == r.value.size + Consumed(Visit(b[r.value.size..]))
      else Shown(Visit(b)) == [] && Consumed(Visit(b)) == 0
  {
    hide VisitOne;
    if VisitOne(b).Just? {
      var rest := Visit(b[VisitOne(b).value.size..]);
      assert Visit(b)[0] == VisitOne(b).value && Visit(b)[1..] == rest;
    }
  }

  /** A written list is viewed whole: the view takes exactly the written bytes and its visit shows the list in order, to
      the end. */
  lemma PropertiesViewed(ps: seq<Property>, rest: seq<byte>)
    requires AllTyped(ps) && Writable(ps) && |EncodeList(ps)| <= MAX_POSSIBLE
    ensures ReadView(EncodeProperties(ps) + rest) == Used(|EncodeProperties(ps)|)
    ensures Extent(EncodeProperties(ps) + rest, 0) == Used(|EncodeProperties(ps)| - |EncodeList(ps)|)
    ensures Shown(Visit(EncodeList(ps))) == ps && Consumed(Visit(EncodeList(ps))) == |EncodeList(ps)|
  {
    hide Encode, Extent, Value, EncodeList, Visit;
    var body := EncodeList(ps);
    assert EncodeProperties(ps) + rest == Encode(|body|) + (body + rest);
    RoundTrip(|body|, body + rest);
    ListShown(ps);
  }

  /** A list that stops short asks for more, from the reader and from the view. */
  lemma PropertiesTruncated(ps: seq<Property>, k: nat)
    requires Writable(ps) && |EncodeList(ps)| <= MAX_POSSIBLE && k < |EncodeProperties(ps)|
    ensures ReadProperties(EncodeProperties(ps)[..k]).0 == NotEnoughData
    ensures ReadView(EncodeProperties(ps)[..k]) == NotEnoughData
  {
    hide Encode, Extent, Value, EncodeList, ReadAll;
    var body := EncodeList(ps);
    var head := Encode(|body|);
    var b := EncodeProperties(ps)[..k];
    if k < |head| {
      assert b == head[..k];
      PartialEncode(|body|, k);
    } else {
      var part := body[..k - |head|];
      assert b == head + part;
      RoundTrip(|body|, part);
    }
  }

  /** The header of a list is a variable byte integer that counts the bytes behind it. */
  predicate Counts(head: seq<byte>, block: seq<byte>)
  {
    Extent(head, 0) == Used(|head|) && Value(head) == |block|
  }

  /** The reader stops where the header ends, with or without the bytes behind it. */
  lemma {:induction false} ExtentTake(b: seq<byte>, i: nat)
    requires i < 4 && Extent(b, i).Used?
    ensures Extent(b[..Extent(b, i).n], i) == Extent(b, i)
    decreases 4 - i
  {
    if b[i] >= 128 {
      ExtentTake(b, i + 1);
    }
  }

  /** Whatever bytes are read as a list, or viewed as one, are a header and the block it counts. */
  lemma PropertiesTile(b: seq<byte>) returns (head: seq<byte>, block: seq<byte>)
    ensures ReadView(b).Used? ==> Counts(head, block) && b[..ReadView(b).n] == head + block
    ensures ReadProperties(b).0.Used? ==>
      && Counts(head, block) && b[..ReadProperties(b).0.n] == head + block
      && ReadAll(block) == (Used(|block|), ReadProperties(b).1)
  {
    hide Value, ReadAll;
    head, block := [], [];
    if ReadView(b).Used? {
      var e, n := Extent(b, 0).n, ReadView(b).n;
      head, block := b[..e], b[e..n];
      ExtentTake(b, 0);
      assert b[e..][..n - e] == block;
    }
  }
}

/** The values of MQTT properties: how each type is written, and the two registries that read it back. */
module PropertyCodec {
  import opened Bits
  import opened Options
  import opened VarInt

  /** The seven visitor types, numbered as the variant numbers them. */
  datatype Kind = U8Kind | U16Kind | U32Kind | VarKind | BinKind | StrKind | PairKind

  datatype PropertyValue =
    | U8(b: byte)
    | U16(n: nat)
    | U32(n: nat)
    | Var(n: nat)
    | Bin(data: seq<byte>)
    | Str(data: seq<byte>)
    | Pair(key: seq<byte>, data: seq<byte>)

  datatype Property = Property(kind: byte, value: PropertyValue)

  function KindOf(v: PropertyValue): Kind
  {
    match v
    case U8(_) => U8Kind
    case U16(_) => U16Kind
    case U32(_) => U32Kind
    case Var(_) => VarKind
    case Bin(_) => BinKind
    case Str(_) => StrKind
    case Pair(_, _) => PairKind
  }

  /** The ranges of the source's fields. */
  predicate InRange(v: PropertyValue)
  {
    match v
    case U8(_) => true
    case U16(n) => n < 0x10000
    case U32(n) => n < 0x1_0000_0000
    case Var(n) => n <= MAX_POSSIBLE
    case Bin(d) => |d| < 0x10000
    case Str(d) => |d| < 0x10000
    case Pair(k, d) => |k| < 0x10000 && |d| < 0x10000
  }

  // ----- the registries -----

  const MAX_USED_PROPERTY: nat := 43

  /** invPropertyMap: the registry index of each property type. */
  const INV_PROPERTY_MAP: seq<nat> := INV_ROW_0 + INV_ROW_1 + INV_ROW_2
  const INV_ROW_0: seq<nat> := [27, 0, 1, 2, 27, 27, 27, 27, 3, 4, 27, 5, 27, 27, 27, 27]
  const INV_ROW_1: seq<nat> := [27, 6, 7, 8, 27, 9, 10, 11, 12, 13, 14, 27, 15, 27, 27, 16]
  const INV_ROW_2: seq<nat> := [27, 17, 18, 19, 20, 21, 22, 23, 24, 25, 26]

  /** propertiesType: the visitor registered at each index. */
  const PROPERTIES_TYPE: seq<Kind> :=
    [U8Kind, U32Kind, StrKind, StrKind, BinKind, VarKind, U32Kind, StrKind, U16Kind, StrKind, BinKind, U8Kind, U32Kind,
     U8Kind, StrKind, StrKind, StrKind, U16Kind, U16Kind, U16Kind, U8Kind, U8Kind, PairKind, U32Kind, U8Kind, U8Kind,
       U8Kind]

  /** getVisitorForProperty: the visitor type of a property type, if it is known. */
  function VisitorKind(t: byte): Maybe<Kind>
  {
    if t >= MAX_USED_PROPERTY || t >= |INV_PROPERTY_MAP| then Nothing
    else
      var index := INV_PROPERTY_MAP[t];
      if index >= |PROPERTIES_TYPE| then Nothing else Just(PROPERTIES_TYPE[index])
  }

  /** The value type each property is declared with, and registered for deserialization. */
  function DeclaredKind(t: byte): Maybe<Kind>
  {
    match t
    case 0x01 => Just(U8Kind) case 0x02 => Just(U32Kind) case 0x03 => Just(StrKind) case 0x08 => Just(StrKind)
    case 0x09 => Just(BinKind) case 0x0B => Just(VarKind) case 0x11 => Just(U32Kind) case 0x12 => Just(StrKind)
    case 0x13 => Just(U16Kind) case 0x15 => Just(StrKind) case 0x16 => Just(BinKind) case 0x17 => Just(U8Kind)
    case 0x18 => Just(U32Kind) case 0x19 => Just(U8Kind) case 0x1A => Just(StrKind) case 0x1C => Just(StrKind)
    case 0x1F => Just(StrKind) case 0x21 => Just(U16Kind) case 0x22 => Just(U16Kind) case 0x23 => Just(U16Kind)
    case 0x24 => Just(U8Kind) case 0x25 => Just(U8Kind) case 0x26 => Just(PairKind) case 0x27 => Just(U32Kind)
    case 0x28 => Just(U8Kind) case 0x29 => Just(U8Kind) case 0x2A => Just(U8Kind)
    case _ => Nothing
  }

  /** Every property type is visited as the type it is written with, and no other type is visited. The types are those
      of table 2-4 of OASIS MQTT 5.0. */
  lemma RegistriesAgree(t: byte)
    ensures VisitorKind(t) == DeclaredKind(t)
    ensures VisitorKind(t) == Just(U8Kind) <==> t in {0x01, 0x17, 0x19, 0x24, 0x25, 0x28, 0x29, 0x2A}
    ensures VisitorKind(t) == Just(U16Kind) <==> t in {0x13, 0x21, 0x22, 0x23}
    ensures VisitorKind(t) == Just(U32Kind) <==> t in {0x02, 0x11, 0x18, 0x27}
    ensures VisitorKind(t) == Just(VarKind) <==> t in {0x0B}
    ensures VisitorKind(t) == Just(BinKind) <==> t in {0x09, 0x16}
    ensures VisitorKind(t) == Just(StrKind) <==> t in {0x03, 0x08, 0x12, 0x15, 0x1A, 0x1C, 0x1F}
    ensures VisitorKind(t) == Just(PairKind) <==> t in {0x26}
  {
    if t < MAX_USED_PROPERTY {
      KnownAgree(t);
    }
  }

  lemma KnownAgree(t: byte)
    requires t < MAX_USED_PROPERTY
    ensures VisitorKind(t) == DeclaredKind(t)
  {
    if t < 0x10 {
      assert INV_PROPERTY_MAP[t] == INV_ROW_0[t];
    } else if t < 0x20 {
      assert INV_PROPERTY_MAP[t] == INV_ROW_1[t - 0x10];
    } else {
      assert INV_PROPERTY_MAP[t] == INV_ROW_2[t - 0x20];
    }
  }

  /** A property built with its declared type. */
  predicate WellTyped(p: Property)
  {
    DeclaredKind(p.kind) == Just(KindOf(p.value)) && InRange(p.value)
  }

  // ----- writing -----

  function BE2(n: nat): (b: seq<byte>)
    requires n < 0x10000
    ensures |b| == 2
  {
    [n / 256, n % 256]
  }

  function BE4(n: nat): (b: seq<byte>)
    requires n < 0x1_0000_0000
    ensures |b| == 4
  {
    BE2(n / 0x10000) + BE2(n % 0x10000)
  }

  /** Length-prefixed data. */
  function EncodeData(d: seq<byte>): (b: seq<byte>)
    requires |d| < 0x10000
    ensures |b| == |d| + 2
  {
    BE2(|d|) + d
  }

  function EncodeValue(v: PropertyValue): (b: seq<byte>)
    requires InRange(v)
    ensures |b| > 0
  {
    match v
    case U8(x) => [x]
    case U16(n) => BE2(n)
    case U32(n) => BE4(n)
    case Var(n) => Encode(n)
    case Bin(d) => EncodeData(d)
    case Str(d) => EncodeData(d)
    case Pair(k, d) => EncodeData(k) + EncodeData(d)
  }

  function EncodeProperty(p: Property): (b: seq<byte>)
    requires InRange(p.value)
    ensures |b| >= 2
  {
    [p.kind] + EncodeValue(p.value)
  }

  function EncodeList(ps: seq<Property>): seq<byte>
    requires forall i :: 0 <= i < |ps| ==> InRange(ps[i].value)
  {
    if ps == [] then [] else EncodeProperty(ps[0]) + EncodeList(ps[1..])
  }

  // ----- reading -----

  function ReadBE2(b: seq<byte>): nat
    requires |b| >= 2
  {
    256 * (b[0] as nat) + b[1]
  }

  function ReadBE4(b: seq<byte>): nat
    requires |b| >= 4
  {
    0x10000 * ReadBE2(b) + ReadBE2(b[2..])
  }

  /** readFrom of strings and binary data, owned or viewed. */
  function ReadData(b: seq<byte>): (r: (Read, seq<byte>))
    ensures r.0.Used? ==> 2 <= r.0.n <= |b| && |r.1| + 2 == r.0.n && |r.1| < 0x10000
  {
    if |b| < 2 then (NotEnoughData, [])
    else
      var length := ReadBE2(b);
      if length + 2 > |b| then (NotEnoughData, []) else (Used(length + 2), b[2..2 + length])
  }

  function ReadPair(b: seq<byte>): (r: (Read, seq<byte>, seq<byte>))
    ensures r.0.Used? ==> 4 <= r.0.n <= |b|
  {
    var (o, key) := ReadData(b);
    if !o.Used? then (o, [], [])
    else
      var (s, data) := ReadData(b[o.n..]);
      if !s.Used? then (s, [], []) else (Used(o.n + s.n), key, data)
  }

  /** acceptBuffer of each visitor. */
  function Accept(kind: Kind, b: seq<byte>): (r: (Read, PropertyValue))
    ensures r.0.Used? ==> 0 < r.0.n <= |b| && KindOf(r.1) == kind
  {
    match kind
    case U8Kind => if |b| < 1 then (NotEnoughData, U8(0)) else (Used(1), U8(b[0]))
    case U16Kind => if |b| < 2 then (NotEnoughData, U16(0)) else (Used(2), U16(ReadBE2(b)))
    case U32Kind => if |b| < 4 then (NotEnoughData, U32(0)) else (Used(4), U32(ReadBE4(b)))
    case VarKind => (Accepted(b), if Accepted(b).Used? then Var(Decoded(b, Accepted(b).n)) else Var(0))
    case BinKind => (ReadData(b).0, Bin(ReadData(b).1))
    case StrKind => (ReadData(b).0, Str(ReadData(b).1))
    case PairKind => (ReadPair(b).0, Pair(ReadPair(b).1, ReadPair(b).2))
  }

  /** The fewest bytes an owned property is read from. */
  function Least(kind: Kind): nat
  {
    match kind
    case U8Kind => 2
    case U16Kind => 3
    case U32Kind => 5
    case VarKind => 2
    case BinKind => 3
    case StrKind => 3
    case PairKind => 5
  }

  /** readFrom of an owned property, type byte included: the numbers are read strictly. */
  function ReadProperty(kind: Kind, t: byte, b: seq<byte>): (r: (Read, PropertyValue))
    requires |b| > 0
    ensures r.0.Used? ==> 1 < r.0.n <= |b|
  {
    if And(b[0], 0x80) != 0 || b[0] != t then (BadData, U8(0))
    else if |b| < Least(kind) then (NotEnoughData, U8(0))
    else
      var (r, v) := if kind == VarKind && !Extent(b[1..], 0).Used? then (Extent(b[1..], 0), Var(0))
        else Accept(kind, b[1..]);
      (if r.Used? then Used(r.n + 1) else r, v)
  }

  // ----- each value reads back -----

  lemma DataReads(d: seq<byte>, rest: seq<byte>)
    requires |d| < 0x10000
    ensures ReadData(EncodeData(d) + rest) == (Used(|d| + 2), d)
  {
    var b := EncodeData(d) + rest;
    assert b[0] == |d| / 256 && b[1] == |d| % 256;
    assert b[2..2 + |d|] == d;
  }

  lemma PairReads(k: seq<byte>, d: seq<byte>, rest: seq<byte>)
    requires |k| < 0x10000 && |d| < 0x10000
    ensures ReadPair(EncodeData(k) + EncodeData(d) + rest) == (Used(|k| + 2 + |d| + 2), k, d)
  {
    hide EncodeData, ReadData;
    var b := EncodeData(k) + EncodeData(d) + rest;
    assert b == EncodeData(k) + (EncodeData(d) + rest);
    DataReads(k, EncodeData(d) + rest);
    DataReads(d, rest);
    assert b[|k| + 2..] == EncodeData(d) + rest;
  }

  lemma WordReads(n: nat, rest: seq<byte>)
    requires n < 0x1_0000_0000
    ensures ReadBE4(BE4(n) + rest) == n
    ensures n < 0x10000 ==> ReadBE2(BE2(n) + rest) == n
  {
  }

  /** A written value is accepted by its visitor, entirely and alone, whatever follows it. */
  lemma ValueReads(v: PropertyValue, rest: seq<byte>)
    requires InRange(v)
    ensures Accept(KindOf(v), EncodeValue(v) + rest) == (Used(|EncodeValue(v)|), v)
    ensures v.Var? ==> Extent(EncodeValue(v) + rest, 0).Used?
  {
    match v {
      case U8(_) =>
      case U16(n) => WordReads(n, rest);
      case U32(n) => WordReads(n, rest);
      case Var(n) =>
        RoundTrip(n, rest);
        ExtentPrefix(Encode(n) + rest, 0);
        DecodedIsValue(Encode(n) + rest, |Encode(n)|);
      case Bin(d) => DataReads(d, rest);
      case Str(d) => DataReads(d, rest);
      case Pair(k, d) => PairReads(k, d, rest);
    }
  }

  lemma EnoughBytes(v: PropertyValue)
    requires InRange(v)
    ensures Least(KindOf(v)) <= 1 + |EncodeValue(v)|
  {
  }

  lemma PropertyReads(p: Property, rest: seq<byte>)
    requires WellTyped(p)
    ensures ReadProperty(KindOf(p.value), p.kind, EncodeProperty(p) + rest) == (Used(|EncodeProperty(p)|), p.value)
  {
    hide EncodeValue, Accept, Extent, And;
    assert And(p.kind, 0x80) == 0 by {
      Powers();
      AndBit(p.kind, 7);
    }
    EnoughBytes(p.value);
    ValueReads(p.value, rest);
    var b := EncodeProperty(p) + rest;
    assert b[1..] == EncodeValue(p.value) + rest && b[0] == p.kind;
  }

  /** Conversely what a visitor accepts is the encoding of the value it shows, exactly when a variable byte integer is
      neither unfinished nor padded. */
  lemma AcceptedIsEncoding(kind: Kind, b: seq<byte>)
    requires Accept(kind, b).0.Used?
    ensures var n, v := Accept(kind, b).0.n, Accept(kind, b).1;
      InRange(v) && EncodeValue(v) == b[..n] <==> (kind == VarKind ==> EndsTight(b[..n]))
  {
    hide BE2, BE4, ReadBE2, ReadBE4, EncodeData, ReadData, ReadPair, Encode, Decoded, Accepted;
    match kind {
      case U8Kind =>
      case U16Kind => WordsAccepted(b);
      case U32Kind => WordsAccepted(b);
      case VarKind => AcceptedIsTight(b);
      case BinKind => DataAccepted(b);
      case StrKind => DataAccepted(b);
      case PairKind => PairAccepted(b);
    }
  }

  lemma WordsAccepted(b: seq<byte>)
    requires |b| >= 2
    ensures ReadBE2(b) < 0x10000 && BE2(ReadBE2(b)) == b[..2]
    ensures |b| >= 4 ==> ReadBE4(b) < 0x1_0000_0000 && BE4(ReadBE4(b)) == b[..4]
  {
    DivModUnique(ReadBE2(b), 256, b[0], b[1]);
    assert b[..2] == [b[0], b[1]];
    if |b| >= 4 {
      DivModUnique(ReadBE2(b[2..]), 256, b[2], b[3]);
      DivModUnique(ReadBE4(b), 0x10000, ReadBE2(b), ReadBE2(b[2..]));
      assert b[..4] == [b[0], b[1]] + [b[2], b[3]];
    }
  }

  lemma DataAccepted(b: seq<byte>)
    requires ReadData(b).0.Used?
    ensures |ReadData(b).1| < 0x10000 && EncodeData(ReadData(b).1) == b[..ReadData(b).0.n]
  {
    assert b[..ReadData(b).0.n] == [b[0], b[1]] + ReadData(b).1;
  }

  lemma PairAccepted(b: seq<byte>)
    requires ReadPair(b).0.Used?
    ensures |ReadPair(b).1| < 0x10000 && |ReadPair(b).2| < 0x10000
    ensures EncodeData(ReadPair(b).1) + EncodeData(ReadPair(b).2) == b[..ReadPair(b).0.n]
  {
    hide EncodeData, ReadData;
    var o := ReadData(b).0.n;
    DataAccepted(b);
    DataAccepted(b[o..]);
    assert b[..ReadPair(b).0.n] == b[..o] + b[o..][..ReadData(b[o..]).0.n];
  }

  // ----- which bytes are accepted -----

  /** The bytes that length-prefixed data takes, from its prefix. */
  function DataSize(b: seq<byte>): nat
    requires |b| >= 2
  {
    2 + 256 * (b[0] as nat) + b[1]
  }

  predicate HoldsData(b: seq<byte>)
  {
    |b| >= 2 && |b| >= DataSize(b)
  }

  /** When a visitor accepts, and how many bytes it takes: numbers their width, data what its prefix says, a variable
      byte integer whatever is there. */
  lemma AcceptsExactly(kind: Kind, b: seq<byte>)
    ensures Accept(kind, b).0.Used? <==>
      match kind
      case U8Kind => |b| >= 1
      case U16Kind => |b| >= 2
      case U32Kind => |b| >= 4
      case VarKind => |b| >= 1
      case PairKind => HoldsData(b) && HoldsData(b[DataSize(b)..])
      case _ => HoldsData(b)
    ensures Accept(kind, b).0.Used? ==>
      match kind
      case U8Kind => Accept(kind, b).0.n == 1
      case U16Kind => Accept(kind, b).0.n == 2
      case U32Kind => Accept(kind, b).0.n == 4
      case VarKind => Accept(kind, b).1 == Var(Value(b[..Accept(kind, b).0.n]) + Overflow(b, Accept(kind, b).0.n))
      case PairKind => Accept(kind, b).0.n == DataSize(b) + DataSize(b[DataSize(b)..])
      case _ => Accept(kind, b).0.n == DataSize(b)
    ensures !Accept(kind, b).0.Used? && kind != VarKind ==> Accept(kind, b).0 == NotEnoughData
  {
    if kind == VarKind {
      VisitorAgrees(b);
      if b != [] {
        DecodedIsValue(b, Accepted(b).n);
      }
    }
  }

  // ----- the order of the bytes -----

  /** Comparing two strings of bytes from the front. */
  predicate Below(a: seq<byte>, b: seq<byte>)
    requires |a| == |b|
  {
    a != [] && (a[0] < b[0] || (a[0] == b[0] && Below(a[1..], b[1..])))
  }

  lemma BelowAppend(a: seq<byte>, b: seq<byte>, c: seq<byte>, d: seq<byte>)
    requires |a| == |b| && |c| == |d|
    ensures Below(a, b) ==> Below(a + c, b + d)
    ensures a == b && Below(c, d) ==> Below(a + c, b + d)
    decreases |a|
  {
    if a == [] {
      assert a + c == c && b + d == d;
    } else {
      assert (a + c)[1..] == a[1..] + c && (b + d)[1..] == b[1..] + d;
      BelowAppend(a[1..], b[1..], c, d);
    }
  }

  lemma BigEndian2(m: nat, n: nat)
    requires m < n < 0x10000
    ensures Below(BE2(m), BE2(n))
  {
    assert BE2(m)[1..] == [m % 256] && BE2(n)[1..] == [n % 256];
    assert m / 256 == n / 256 ==> Below([m % 256], [n % 256]);
  }

  /** Numbers have their most significant byte first (sections 1.5.2 and 1.5.3 of OASIS MQTT 5.0): comparing the bytes
      from the front compares the numbers. */
  lemma BigEndian(m: nat, n: nat)
    requires m < n
    ensures n < 0x10000 ==> Below(EncodeValue(U16(m)), EncodeValue(U16(n)))
    ensures n < 0x1_0000_0000 ==> Below(EncodeValue(U32(m)), EncodeValue(U32(n)))
  {
    if n < 0x10000 {
      BigEndian2(m, n);
    }
    if n < 0x1_0000_0000 {
      var a, b, c, d := m / 0x10000, n / 0x10000, m % 0x10000, n % 0x10000;
      if a < b {
        BigEndian2(a, b);
      } else {
        BigEndian2(c, d);
      }
      BelowAppend(BE2(a), BE2(b), BE2(c), BE2(d));
    }
  }

  /** The bytes of one property of each type. */
  lemma PropertySamples()
    ensures EncodeProperty(Property(0x01, U8(1))) == [0x01, 1]
    ensures EncodeProperty(Property(0x21, U16(0x0102))) == [0x21, 1, 2]
    ensures EncodeProperty(Property(0x11, U32(0x01020304))) == [0x11, 1, 2, 3, 4]
    ensures EncodeProperty(Property(0x0B, Var(0x80))) == [0x0B, 0x80, 1]
    ensures EncodeProperty(Property(0x09, Bin([7]))) == [0x09, 0, 1, 7]
    ensures EncodeProperty(Property(0x03, Str([0x61, 0x62]))) == [0x03, 0, 2, 0x61, 0x62]
    ensures EncodeProperty(Property(0x26, Pair([0x61], [0x62, 0x63]))) == [0x26, 0, 1, 0x61, 0, 2, 0x62, 0x63]
  {
    assert Encode(0x80) == [0x80] + Encode(1);
  }

  // ----- bytes that stop short -----

  lemma PartialData(d: seq<byte>, k: nat)
    requires |d| < 0x10000 && k < |EncodeData(d)|
    ensures ReadData(EncodeData(d)[..k]).0 == NotEnoughData
  {
  }

  lemma PartialPair(key: seq<byte>, d: seq<byte>, k: nat)
    requires |key| < 0x10000 && |d| < 0x10000 && k < |key| + 2 + |d| + 2
    ensures ReadPair((EncodeData(key) + EncodeData(d))[..k]).0 == NotEnoughData
  {
    hide EncodeData, ReadData;
    var b := (EncodeData(key) + EncodeData(d))[..k];
    if k < |key| + 2 {
      assert b == EncodeData(key)[..k];
      PartialData(key, k);
    } else {
      var rest := EncodeData(d)[..k - |key| - 2];
      assert b == EncodeData(key) + rest;
      DataReads(key, rest);
      assert b[|key| + 2..] == rest;
      PartialData(d, k - |key| - 2);
    }
  }

  /** A property that stops short asks for more, in the owned reader. */
  lemma PropertyTruncated(p: Property, k: nat)
    requires WellTyped(p) && 0 < k < |EncodeProperty(p)|
    ensures ReadProperty(KindOf(p.value), p.kind, EncodeProperty(p)[..k]).0 == NotEnoughData
  {
    hide EncodeData, ReadData, Encode, Extent, ReadPair, And, Decoded, Accepted;
    assert And(p.kind, 0x80) == 0 by {
      Powers();
      AndBit(p.kind, 7);
    }
    var b := EncodeProperty(p)[..k];
    assert b[0] == p.kind && b[1..] == EncodeValue(p.value)[..k - 1];
    match p.value {
      case Var(n) => PartialEncode(n, k - 1);
      case Bin(d) => PartialData(d, k - 1);
      case Str(d) => PartialData(d, k - 1);
      case Pair(key, d) => PartialPair(key, d, k - 1);
      case _ =>
    }
  }
}

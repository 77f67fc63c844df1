/** The variable byte integer of section 1.5.5 of OASIS MQTT 5.0: the shifted encoder, the reader, the decoder and the
    memory-mapped visitor. */
module VarInt {
  import opened Bits
  import Memory

  const MAX_ON_1: nat := 127
  const MAX_ON_2: nat := 16383
  const MAX_ON_3: nat := 2097151
  const MAX_POSSIBLE: nat := 268435455

  /** What a readFrom returns: the bytes used, or one of the codes from 0xFFFFFFFD on. */
  datatype Read = Used(n: nat) | NotEnoughData | BadData | Shortcut

  // ----- the algorithms of the standard -----

  /** Encoding: seven bits at a time, least significant first, with bit 7 set on all but the last byte. */
  function Encode(x: nat): (b: seq<byte>)
    ensures |b| > 0
  {
    if x < 128 then [x] else [x % 128 + 128] + Encode(x / 128)
  }

  /** Decoding: the sum of the low seven bits of each byte times its weight. */
  function Value(b: seq<byte>): nat
  {
    if b == [] then 0 else b[0] % 128 + 128 * Value(b[1..])
  }

  /** Where an encoding that starts at byte i of the buffer ends. */
  function Extent(b: seq<byte>, i: nat): (r: Read)
    requires i < 4
    ensures r.Used? ==> i < r.n <= 4 && r.n <= |b|
    decreases 4 - i
  {
    if i + 1 > |b| then NotEnoughData
    else if b[i] < 128 then Used(i + 1)
    else if i + 1 == 4 then BadData
    else Extent(b, i + 1)
  }

  // ----- the laws -----

  /** Up to the largest possible value an encoding has at most four bytes, as many as its value needs. */
  lemma EncodeLength(x: nat)
    ensures x <= MAX_POSSIBLE ==>
      |Encode(x)| == 1 + (if x > MAX_ON_1 then 1 else 0) + (if x > MAX_ON_2 then 1 else 0)
        + (if x > MAX_ON_3 then 1 else 0)
    ensures x > MAX_POSSIBLE ==> |Encode(x)| > 4
  {
    assert x >= 128 ==> |Encode(x)| == 1 + |Encode(x / 128)|;
    assert x >= 16384 ==> |Encode(x / 128)| == 1 + |Encode(x / 128 / 128)|;
    assert x >= 2097152 ==> |Encode(x / 128 / 128)| == 1 + |Encode(x / 128 / 128 / 128)|;
    assert x >= 268435456 ==> |Encode(x / 128 / 128 / 128)| == 1 + |Encode(x / 128 / 128 / 128 / 128)|;
  }

  lemma {:induction false} ValueEncode(x: nat)
    ensures Value(Encode(x)) == x
  {
    if x >= 128 {
      ValueEncode(x / 128);
      assert Encode(x)[1..] == Encode(x / 128);
    }
  }

  /** The reader stops exactly at the end of an encoding, whatever follows: no encoding is a prefix of another. */
  lemma {:induction false} ExtentEncode(x: nat, before: seq<byte>, rest: seq<byte>)
    requires |before| + |Encode(x)| <= 4
    ensures |before| < 4 && Extent(before + Encode(x) + rest, |before|) == Used(|before| + |Encode(x)|)
    decreases x
  {
    var b := before + Encode(x) + rest;
    assert b[|before|] == Encode(x)[0];
    if x >= 128 {
      ExtentEncode(x / 128, before + [Encode(x)[0]], rest);
      assert b == before + [Encode(x)[0]] + Encode(x / 128) + rest;
    }
  }

  /** No byte string that reads as x is shorter than its encoding. */
  lemma {:induction false} Minimal(b: seq<byte>)
    requires |b| > 0 && b[|b| - 1] < 128
    ensures |b| >= |Encode(Value(b))|
  {
    if |b| > 1 {
      Minimal(b[1..]);
      assert b[1..][|b| - 2] == b[|b| - 1];
      var y := Value(b[1..]);
      assert Value(b) / 128 == y;
    }
  }

  /** The extent looks at nothing behind it. */
  lemma {:induction false} ExtentPrefix(b: seq<byte>, i: nat)
    requires i < 4 && Extent(b, i).Used?
    ensures b[Extent(b, i).n - 1] < 128
    ensures forall j :: i <= j < Extent(b, i).n - 1 ==> b[j] >= 128
    decreases 4 - i
  {
    if b[i] >= 128 {
      ExtentPrefix(b, i + 1);
    }
  }

  // ----- the decoder of the source -----

  /** The conversion of the source: from the last byte down, the last of four unmasked. */
  function Decoded(v: seq<byte>, size: nat): nat
    requires size <= |v|
  {
    if size == 4 then
      Or(Or(Or((v[3] as nat) * 0x200000, And(v[2], 0x7F) * 0x4000), And(v[1], 0x7F) * 0x80), And(v[0], 0x7F))
    else if size == 3 then Or(Or(And(v[2], 0x7F) * 0x4000, And(v[1], 0x7F) * 0x80), And(v[0], 0x7F))
    else if size == 2 then Or(And(v[1], 0x7F) * 0x80, And(v[0], 0x7F))
    else if size == 1 then And(v[0], 0x7F)
    else 0
  }

  lemma Low7(x: nat)
    ensures And(x, 0x7F) == x % 128
  {
    Powers();
    MaskIsMod(x, 7);
  }

  /** The digits are added: they share no bit. */
  lemma DigitsAdd(hi: nat, lo: nat)
    ensures lo < 0x200000 ==> Or(hi * 0x200000, lo) == hi * 0x200000 + lo
    ensures lo < 0x4000 ==> Or(hi * 0x4000, lo) == hi * 0x4000 + lo
    ensures lo < 0x80 ==> Or(hi * 0x80, lo) == hi * 0x80 + lo
  {
    Powers();
    if lo < 0x200000 {
      OrIsSum(hi * 0x200000, lo, 21);
    }
    if lo < 0x4000 {
      OrIsSum(hi * 0x4000, lo, 14);
    }
    if lo < 0x80 {
      OrIsSum(hi * 0x80, lo, 7);
    }
  }

  /** The continuation bit of the fourth byte, which the decoder does not mask. */
  function Overflow(v: seq<byte>, size: nat): nat
    requires size <= |v|
  {
    if size == 4 && v[3] >= 128 then 0x1000_0000 else 0
  }

  /** What the decoder computes is the value, and above it a continuation bit of the fourth byte. */
  lemma DecodedIsValue(v: seq<byte>, size: nat)
    requires 0 < size <= 4 && size <= |v|
    ensures Decoded(v, size) == Value(v[..size]) + Overflow(v, size)
  {
    hide And, Or;
    Low7(v[0]);
    var b := v[..size];
    assert b == [v[0]] + v[1..size] && Value(b) == v[0] % 128 + 128 * Value(v[1..size]);
    if size == 1 {
      assert Value(v[1..1]) == 0;
    } else {
      Low7(v[1]);
      assert v[1..size] == [v[1]] + v[2..size] && Value(v[1..size]) == v[1] % 128 + 128 * Value(v[2..size]);
      var lo: nat, hi: nat := v[0] % 128, v[1] % 128;
      DigitsAdd(hi, lo);
      if size == 2 {
        assert Value(v[2..2]) == 0;
      } else {
        DecodedTail(v, size);
      }
    }
  }

  lemma DecodedTail(v: seq<byte>, size: nat)
    requires 2 < size <= 4 && size <= |v|
    ensures Decoded(v, size) == v[0] % 128 + 128 * (v[1] % 128) + 16384 * Value(v[2..size]) + Overflow(v, size)
  {
    hide And, Or;
    Low7(v[0]);
    Low7(v[1]);
    Low7(v[2]);
    assert v[2..size] == [v[2]] + v[3..size] && Value(v[2..size]) == v[2] % 128 + 128 * Value(v[3..size]);
    var a: nat, b: nat, c: nat := v[0] % 128, v[1] % 128, v[2] % 128;
    if size == 3 {
      assert Value(v[3..3]) == 0;
      DigitsAdd(c, b * 0x80);
      DigitsAdd(c * 0x80 + b, a);
    } else {
      var d: nat := v[3];
      assert v[3..4] == [v[3]] && Value(v[3..4]) == d % 128 by {
        assert Value([v[3]]) == v[3] % 128 + 128 * Value([]);
      }
      assert d == d % 128 + (if d >= 128 then 128 else 0);
      DigitsAdd(d, c * 0x4000);
      DigitsAdd(d * 128 + c, b * 0x80);
      DigitsAdd((d * 128 + c) * 128 + b, a);
    }
  }

  // ----- the class -----

  class VBInt {
    const value: array<byte>
    var size: nat

    ghost predicate Valid()
      reads this
    {
      value.Length == 4 && size <= 4
    }

    /** The bytes sent on the wire. */
    ghost function Bytes(): seq<byte>
      requires Valid()
      reads this, value
    {
      value[..size]
    }

    constructor ()
      ensures Valid() && Bytes() == Encode(0) && fresh(value)
    {
      value := new byte[4](_ => 0);
      size := 1;
    }

    /** The assignment of a number: the shifted encoder. Every byte it stores is the standard's, and a number above the
        largest possible value leaves an empty encoding. */
    method Assign(other0: nat)
      requires value.Length == 4
      modifies this, value
      ensures Valid()
      ensures Bytes() == if other0 <= MAX_POSSIBLE then Encode(other0) else []
    {
      hide And, Or, Encode;
      var other, carry := other0, 0;
      var pseudoLog := (if other > MAX_ON_1 then 1 else 0) + (if other > MAX_ON_2 then 1 else 0)
        + (if other > MAX_ON_3 then 1 else 0) + (if other > MAX_POSSIBLE then 1 else 0);
      size := pseudoLog + 1;
      if pseudoLog == 4 {
        value[0], value[1], value[2], value[3] := 0xFF, 0xFF, 0xFF, 0xFF;
        size := 0;
        return;
      }
      Stores(other0);
      if pseudoLog == 3 {
        value[pseudoLog] := other / 0x200000;
        pseudoLog, other, carry := pseudoLog - 1, And(other, 0x1FFFFF), 0x80;
      }
      if pseudoLog == 2 {
        value[pseudoLog] := Or(other / 0x4000, carry);
        pseudoLog, other, carry := pseudoLog - 1, And(other, 0x3FFF), 0x80;
      }
      if pseudoLog == 1 {
        value[pseudoLog] := Or(other / 0x80, carry);
        pseudoLog, other, carry := pseudoLog - 1, And(other, 0x7F), 0x80;
      }
      value[pseudoLog] := Or(other, carry);
    }

    /** The assignment from another object: the word and the size are copied. */
    method Set(other: VBInt)
      requires value.Length == 4 && other.Valid() && value != other.value
      modifies this, value
      ensures Valid() && size == other.size && value[..] == other.value[..]
    {
      Memory.Copy(value, 0, other.value[..]);
      size := other.size;
    }

    function GetSize(): nat
      reads this
    {
      size
    }

    /** The number, decoded. */
    function Get(): nat
      requires Valid()
      reads this, value
    {
      Decoded(value[..], size)
    }

    /** The last byte kept has no continuation bit. */
    function CheckImpl(): bool
      requires Valid()
      reads this, value
    {
      0 < size < 5 && And(value[size - 1], 0x80) == 0
    }

    method CopyInto(buffer: array<byte>, o: nat) returns (n: nat)
      requires Valid() && o + size <= buffer.Length && buffer != value
      modifies buffer
      ensures n == size && buffer[..] == Memory.Overwritten(old(buffer[..]), o, Bytes())
    {
      Memory.Copy(buffer, o, value[..size]);
      return size;
    }

    /** Reads as far as an encoding may go; on success the object holds exactly the bytes read. */
    method ReadFrom(buffer: seq<byte>) returns (r: Read)
      requires value.Length == 4
      modifies this, value
      ensures Valid() && r == Extent(buffer, 0)
      ensures r.Used? ==> size == r.n && Bytes() == buffer[..r.n] && Get() == Value(buffer[..r.n])
    {
      size := 0;
      while true
        invariant value.Length == 4 && size < 4 && size <= |buffer|
        invariant Extent(buffer, 0) == Extent(buffer, size) && value[..size] == buffer[..size]
        decreases 4 - size
      {
        if size + 1 > |buffer| {
          return NotEnoughData;
        }
        value[size] := buffer[size];
        assert value[..size + 1] == buffer[..size + 1];
        size := size + 1;
        if value[size - 1] < 0x80 {
          break;
        }
        if size == 4 {
          return BadData;
        }
      }
      ExtentPrefix(buffer, 0);
      DecodedIsValue(value[..], size);
      assert value[..][..size] == buffer[..size];
      return Used(size);
    }
  }

  /** An object that holds the encoding of x decodes as x and passes its check. */
  lemma HoldsEncoding(v: seq<byte>, size: nat, x: nat)
    requires x <= MAX_POSSIBLE && size <= |v| && v[..size] == Encode(x)
    ensures 0 < size <= 4 && Decoded(v, size) == x && And(v[size - 1], 0x80) == 0
  {
    RoundTrip(x, []);
    EncodeLength(x);
    assert Encode(x) + [] == Encode(x);
    ExtentPrefix(Encode(x), 0);
    assert v[size - 1] == Encode(x)[size - 1];
    assert And(v[size - 1], 0x80) == 0 by {
      Powers();
      AndBit(v[size - 1], 7);
    }
    DecodedIsValue(v, size);
  }

  /** Taking digits off the top one at a time. */
  lemma DigitMods(x: nat)
    ensures x % 0x200000 % 0x4000 == x % 0x4000 && x % 0x4000 % 0x80 == x % 0x80
    ensures x % 0x200000 / 0x4000 == x / 0x4000 % 128 && x % 0x4000 / 0x80 == x / 0x80 % 128
    ensures x < 0x200000 ==> x % 0x200000 == x
    ensures x < 0x4000 ==> x % 0x4000 == x
    ensures x < 0x80 ==> x % 0x80 == x
  {
  }

  lemma LowBits(x: nat)
    ensures And(x, 0x1FFFFF) == x % 0x200000 && And(x, 0x3FFF) == x % 0x4000 && And(x, 0x7F) == x % 0x80
  {
    Powers();
    MaskIsMod(x, 21);
    MaskIsMod(x, 14);
    MaskIsMod(x, 7);
  }

  /** The carry is bit 7, above the seven bits it is joined to. */
  lemma WithCarry(x: nat)
    requires x < 0x80
    ensures Or(x, 0x80) == x + 0x80
  {
    Powers();
    OrIsSum(0x80, x, 7);
  }

  /** What the branches of the shifted encoder store is the encoding, the most significant digit in the last byte. */
  lemma Stores(x: nat)
    requires x <= MAX_POSSIBLE
    ensures x < 0x80 ==> Or(x, 0) < 256 && Encode(x) == [Or(x, 0)]
    ensures 0x80 <= x < 0x4000 ==>
      var b0, b1 := Or(And(x, 0x7F), 0x80), Or(x / 0x80, 0);
      b0 < 256 && b1 < 256 && Encode(x) == [b0, b1]
    ensures 0x4000 <= x < 0x200000 ==>
      var x1 := And(x, 0x3FFF);
      var b0, b1, b2 := Or(And(x1, 0x7F), 0x80), Or(x1 / 0x80, 0x80), Or(x / 0x4000, 0);
      b0 < 256 && b1 < 256 && b2 < 256 && Encode(x) == [b0, b1, b2]
    ensures 0x200000 <= x ==>
      var x2 := And(x, 0x1FFFFF); var x1 := And(x2, 0x3FFF);
      var b0, b1, b2 := Or(And(x1, 0x7F), 0x80), Or(x1 / 0x80, 0x80), Or(x2 / 0x4000, 0x80);
      b0 < 256 && b1 < 256 && b2 < 256 && Encode(x) == [b0, b1, b2, x / 0x200000]
  {
    hide And, Or, Encode;
    if x < 0x80 {
      StoresOne(x);
    } else if x < 0x4000 {
      StoresTwo(x);
    } else if x < 0x200000 {
      StoresThree(x);
    } else {
      StoresFour(x);
    }
  }

  lemma OrZero(x: nat)
    ensures Or(x, 0) == x
  {
  }

  lemma StoresOne(x: nat)
    requires x < 0x80
    ensures Or(x, 0) < 256 && Encode(x) == [Or(x, 0)]
  {
    OrZero(x);
  }

  lemma StoresTwo(x: nat)
    requires 0x80 <= x < 0x4000
    ensures var b0, b1 := Or(And(x, 0x7F), 0x80), Or(x / 0x80, 0);
      b0 < 256 && b1 < 256 && Encode(x) == [b0, b1]
  {
    hide And, Or;
    LowBits(x);
    WithCarry(x % 0x80);
    OrZero(x / 0x80);
  }

  lemma StoresThree(x: nat)
    requires 0x4000 <= x < 0x200000
    ensures var x1 := And(x, 0x3FFF);
      var b0, b1, b2 := Or(And(x1, 0x7F), 0x80), Or(x1 / 0x80, 0x80), Or(x / 0x4000, 0);
      b0 < 256 && b1 < 256 && b2 < 256 && Encode(x) == [b0, b1, b2]
  {
    hide And, Or;
    LowBits(x);
    LowBits(x % 0x4000);
    DigitMods(x);
    WithCarry(x % 0x80);
    WithCarry(x / 0x80 % 0x80);
    OrZero(x / 0x4000);
    EncodeDigits(x);
  }

  lemma StoresFour(x: nat)
    requires 0x200000 <= x <= MAX_POSSIBLE
    ensures var x2 := And(x, 0x1FFFFF); var x1 := And(x2, 0x3FFF);
      var b0, b1, b2 := Or(And(x1, 0x7F), 0x80), Or(x1 / 0x80, 0x80), Or(x2 / 0x4000, 0x80);
      b0 < 256 && b1 < 256 && b2 < 256 && Encode(x) == [b0, b1, b2, x / 0x200000]
  {
    hide And, Or;
    LowBits(x);
    LowBits(x % 0x200000);
    LowBits(x % 0x4000);
    DigitMods(x);
    WithCarry(x % 0x80);
    WithCarry(x / 0x80 % 0x80);
    WithCarry(x / 0x4000 % 0x80);
    EncodeDigits(x);
  }

  /** The digits of a long encoding. */
  lemma EncodeDigits(x: nat)
    requires 0x4000 <= x <= MAX_POSSIBLE
    ensures x < 0x200000 ==> Encode(x) == [x % 128 + 128, x / 128 % 128 + 128, x / 0x4000]
    ensures 0x200000 <= x ==> Encode(x) == [x % 128 + 128, x / 128 % 128 + 128, x / 0x4000 % 128 + 128, x / 0x200000]
  {
    assert Encode(x) == [x % 128 + 128] + Encode(x / 128);
    assert Encode(x / 128) == [x / 128 % 128 + 128] + Encode(x / 128 / 128);
    assert x >= 0x200000 ==> Encode(x / 128 / 128) == [x / 0x4000 % 128 + 128] + Encode(x / 128 / 128 / 128);
  }

  // ----- the memory-mapped visitor -----

  /** The extent the visitor accepts: it stops at four bytes or at the end of the buffer even when the encoding goes
      on. */
  function Accepted(b: seq<byte>): Read
  {
    if b == [] then BadData
    else if Extent(b, 0).Used? then Extent(b, 0)
    else Used(if |b| < 4 then |b| else 4)
  }

  /** MappedVBInt.acceptBuffer. */
  method AcceptBuffer(buffer: seq<byte>) returns (r: Read, o: nat)
    ensures r == Accepted(buffer)
    ensures r.Used? ==> o == Value(buffer[..r.n]) + Overflow(buffer, r.n)
  {
    var size := 0;
    o := 0;
    while size < 4 && size < |buffer|
      invariant 0 <= size <= 4 && size <= |buffer|
      invariant size < 4 ==> Extent(buffer, 0) == Extent(buffer, size)
      invariant size == 4 ==> !Extent(buffer, 0).Used?
    {
      size := size + 1;
      if buffer[size - 1] < 0x80 {
        ExtentPrefix(buffer, 0);
        DecodedIsValue(buffer, size);
        return Used(size), Decoded(buffer, size);
      }
    }
    if size == 0 {
      return BadData, 0;
    }
    DecodedIsValue(buffer, size);
    return Used(size), Decoded(buffer, size);
  }

  /** The reader succeeds exactly when one of the bytes it may look at ends an encoding. Without one it asks for more
      bytes when there are fewer than four, and refuses four. */
  lemma {:induction false} ReaderSucceeds(b: seq<byte>, i: nat)
    requires i < 4
    ensures Extent(b, i).Used? <==> exists j :: i <= j < 4 && j < |b| && b[j] < 128
    ensures !Extent(b, i).Used? ==> Extent(b, i) == if |b| < 4 then NotEnoughData else BadData
    decreases 4 - i
  {
    if i < |b| && b[i] >= 128 && i + 1 < 4 {
      ReaderSucceeds(b, i + 1);
    }
  }

  /** The visitor and the reader agree exactly on the buffers that end an encoding within their first four bytes; on all
      others the visitor takes what there is, up to four bytes. It refuses only the empty buffer. */
  lemma VisitorAgrees(b: seq<byte>)
    ensures Accepted(b) == Extent(b, 0) <==> exists j :: 0 <= j < 4 && j < |b| && b[j] < 128
    ensures Accepted(b) != Extent(b, 0) ==> Accepted(b) == if b == [] then BadData else Used(if |b| < 4 then |b| else 4)
    ensures Accepted(b).Used? <==> b != []
  {
    ReaderSucceeds(b, 0);
  }

  /** Unfinished encodings that the visitor accepts and the reader refuses. */
  lemma VisitorOvershoots()
    ensures Accepted([0x80]) == Used(1) && Extent([0x80], 0) == NotEnoughData
    ensures Accepted([0x80, 0x80, 0x80, 0x80]) == Used(4) && Extent([0x80, 0x80, 0x80, 0x80], 0) == BadData
  {
    var b: seq<byte> := [0x80, 0x80, 0x80, 0x80];
    assert Extent(b, 3) == BadData;
    assert Extent(b, 1) == Extent(b, 2);
  }

  /** The last byte of a string ends an encoding, and not one padded with zeros. */
  predicate EndsTight(b: seq<byte>)
  {
    b != [] && b[|b| - 1] < 128 && (|b| > 1 ==> b[|b| - 1] != 0)
  }

  lemma {:induction false} EncodeEndsTight(x: nat)
    ensures EndsTight(Encode(x))
  {
    if x >= 128 {
      EncodeEndsTight(x / 128);
    }
  }

  lemma {:induction false} TightIsEncoding(b: seq<byte>)
    requires EndsTight(b) && forall j :: 0 <= j < |b| - 1 ==> b[j] >= 128
    ensures Encode(Value(b)) == b
  {
    if |b| > 1 {
      var rest := b[1..];
      TightIsEncoding(rest);
      assert Value(rest) != 0 by {
        assert rest[|rest| - 1] == b[|b| - 1];
      }
      assert Value(b) % 128 + 128 == b[0] && Value(b) / 128 == Value(rest);
    }
  }

  /** What the visitor accepts is the encoding of the value it decodes exactly when it ends tight: neither unfinished
      nor padded. */
  lemma AcceptedIsTight(b: seq<byte>)
    requires Accepted(b).Used?
    ensures var n := Accepted(b).n;
      Decoded(b, n) <= MAX_POSSIBLE && Encode(Decoded(b, n)) == b[..n] <==> EndsTight(b[..n])
  {
    hide Decoded;
    var n := Accepted(b).n;
    EncodeEndsTight(Decoded(b, n));
    if EndsTight(b[..n]) {
      assert b[n - 1] < 128;
      ReaderSucceeds(b, 0);
      ExtentPrefix(b, 0);
      DecodedIsValue(b, n);
      TightIsEncoding(b[..n]);
      EncodeLength(Value(b[..n]));
    }
  }

  /** An encoded number is read back, by both readers, whatever follows it. */
  lemma RoundTrip(x: nat, rest: seq<byte>)
    requires x <= MAX_POSSIBLE
    ensures var b := Encode(x) + rest;
      && Extent(b, 0) == Used(|Encode(x)|) == Accepted(b)
      && b[..|Encode(x)|] == Encode(x) && Value(b[..|Encode(x)|]) == x
  {
    EncodeLength(x);
    assert [] + Encode(x) + rest == Encode(x) + rest;
    ExtentEncode(x, [], rest);
    ValueEncode(x);
    assert (Encode(x) + rest)[..|Encode(x)|] == Encode(x);
  }

  /** Bytes that go on are not read: every part of an encoding that stops short of its end asks for more. */
  lemma {:induction false} ContinuesInside(x: nat, k: nat)
    requires k < |Encode(x)|
    ensures k + 1 < |Encode(x)| ==> Encode(x)[k] >= 128
    ensures k + 1 == |Encode(x)| ==> Encode(x)[k] < 128
  {
    if x >= 128 && k > 0 {
      ContinuesInside(x / 128, k - 1);
    }
  }

  lemma PartialEncode(x: nat, k: nat)
    requires x <= MAX_POSSIBLE && k < |Encode(x)|
    ensures Extent(Encode(x)[..k], 0) == NotEnoughData
  {
    EncodeLength(x);
    forall j | 0 <= j < k
      ensures Encode(x)[..k][j] >= 128
    {
      ContinuesInside(x, j);
    }
    ReaderSucceeds(Encode(x)[..k], 0);
  }

  /** The encoding is the shortest byte string that is read as its value. */
  lemma EncodeIsShortest(x: nat, b: seq<byte>)
    requires x <= MAX_POSSIBLE && Extent(b, 0) == Used(|b|) && Value(b) == x
    ensures |Encode(x)| <= |b|
  {
    ExtentPrefix(b, 0);
    Minimal(b);
  }

  /** No encoding is a proper prefix of another. */
  lemma PrefixFree(x: nat, y: nat)
    requires x <= MAX_POSSIBLE && y <= MAX_POSSIBLE && Encode(x) <= Encode(y)
    ensures x == y
  {
    RoundTrip(x, Encode(y)[|Encode(x)|..]);
    RoundTrip(y, []);
    assert Encode(x) + Encode(y)[|Encode(x)|..] == Encode(y) + [];
  }
}

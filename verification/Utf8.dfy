/** The conversions between UTF-8 and 32-bit characters, in the six lengths of the original encoding. */
module Utf8 {
  import opened Bits
  import Memory

  const WORD: nat := 0x1_0000_0000
  const LIMIT: nat := 0x8000_0000

  // ----- the encoding -----

  /** A code value without its k low groups of six bits. */
  function High(c: nat, k: nat): nat
  {
    if k == 0 then c else High(c, k - 1) / 64
  }

  /** The continuation bytes of a code value. */
  function Extra(c: nat): nat
  {
    if c < 0x80 then 0 else if c < 0x800 then 1 else if c < 0x10000 then 2 else if c < 0x200000 then 3
    else if c < 0x4000000 then 4 else 5
  }

  /** The marker bits of a first byte that announces k continuation bytes. */
  function Marker(k: nat): nat
  {
    match k case 1 => 0xC0 case 2 => 0xE0 case 3 => 0xF0 case 4 => 0xF8 case 5 => 0xFC case _ => 0
  }

  /** The k continuation bytes: the low k groups of six bits, the highest first. */
  function Tail(c: nat, k: nat): (b: seq<byte>)
    ensures |b| == k
  {
    if k == 0 then [] else [0x80 + High(c, k - 1) % 64] + Tail(c, k - 1)
  }

  /** One character; values from 0x80000000 on have no encoding. */
  function EncodeChar(c: nat): seq<byte>
  {
    if c < LIMIT then FirstFits(c); [Marker(Extra(c)) + High(c, Extra(c))] + Tail(c, Extra(c)) else []
  }

  function EncodeAll(s: seq<nat>): seq<byte>
  {
    if s == [] then [] else EncodeChar(s[0]) + EncodeAll(s[1..])
  }

  /** The characters that have an encoding. */
  function Kept(s: seq<nat>): seq<nat>
  {
    if s == [] then [] else (if s[0] < LIMIT then [s[0]] else []) + Kept(s[1..])
  }

  /** The groups as shifts of the value. */
  lemma HighIsShift(c: nat)
    ensures High(c, 0) == c && High(c, 1) == c / 64 && High(c, 2) == c / 0x1000 && High(c, 3) == c / 0x40000
    ensures High(c, 4) == c / 0x1000000 && High(c, 5) == c / 0x40000000
  {
    assert High(c, 3) == High(c, 1) / 64 / 64;
    assert High(c, 5) == High(c, 3) / 64 / 64;
  }

  /** What is left of the value fits under the marker. */
  lemma FirstFits(c: nat)
    requires c < LIMIT
    ensures 0 < Extra(c) ==> High(c, Extra(c)) < 0x40 / Pow2(Extra(c))
    ensures 0 <= Marker(Extra(c)) + High(c, Extra(c)) < 256
  {
    HighIsShift(c);
    assert Pow2(3) == 8 && Pow2(5) == 32;
  }

  // ----- decoding -----

  /** The ones that follow the top bit of a first byte. */
  function Ones(c: byte): nat
  {
    if c < 0xC0 then 0 else if c < 0xE0 then 1 else if c < 0xF0 then 2 else if c < 0xF8 then 3 else if c < 0xFC then 4
    else if c < 0xFE then 5 else if c < 0xFF then 6 else 7
  }

  /** Up to k continuation bytes, joined in 32-bit words; anything else ends the character early. */
  function Continue(n: nat, k: nat, b: seq<byte>): (r: (nat, nat))
    ensures r.1 <= |b| && r.1 <= k
    decreases k
  {
    if k == 0 || b == [] || b[0] / 64 != 2 then (n, 0)
    else
      var (m, used) := Continue(n * 64 % WORD + b[0] % 64, k - 1, b[1..]);
      (m, used + 1)
  }

  /** The character at the start of the bytes and how many bytes it takes. */
  function DecodeChar(b: seq<byte>): (r: (nat, nat))
    requires b != []
    ensures 1 <= r.1 <= |b|
  {
    if b[0] < 0x80 then (b[0], 1)
    else
      var (n, used) := Continue(b[0] % Pow2(7 - Ones(b[0])), Ones(b[0]), b[1..]);
      (n, used + 1)
  }

  function DecodeAll(b: seq<byte>): (s: seq<nat>)
    ensures |s| <= |b|
    decreases |b|
  {
    if b == [] then [] else [DecodeChar(b).0] + DecodeAll(b[DecodeChar(b).1..])
  }

  // ----- decoding inverts encoding -----

  /** One more group of six bits. */
  lemma {:induction false} SixMore(c: nat, k: nat)
    requires k > 0
    ensures High(c, k - 1) == High(c, k) * 64 + High(c, k - 1) % 64
    ensures High(c, k) * 64 <= c
  {
    if k > 1 {
      SixMore(c, k - 1);
    }
  }

  /** The continuation bytes bring back the value, whatever follows them. */
  lemma {:induction false} TailContinues(c: nat, k: nat, rest: seq<byte>)
    requires c < LIMIT
    ensures Continue(High(c, k), k, Tail(c, k) + rest) == (c, k)
  {
    hide High;
    if k == 0 {
      HighIsShift(c);
    } else {
      SixMore(c, k);
      TailContinues(c, k - 1, rest);
      var digit := High(c, k - 1) % 64;
      assert (Tail(c, k) + rest)[0] == 0x80 + digit && (Tail(c, k) + rest)[1..] == Tail(c, k - 1) + rest;
      OneContinues(High(c, k), k, Tail(c, k) + rest, digit);
    }
  }

  lemma OneContinues(n: nat, k: nat, b: seq<byte>, digit: nat)
    requires k > 0 && b != [] && digit < 64 && b[0] == 0x80 + digit && n * 64 < WORD
    ensures Continue(n, k, b) == (Continue(n * 64 + digit, k - 1, b[1..]).0,
                                Continue(n * 64 + digit, k - 1, b[1..]).1 + 1)
  {
    ByteParts(digit);
    assert n * 64 % WORD == n * 64;
  }

  lemma ByteParts(digit: nat)
    requires digit < 64
    ensures (0x80 + digit) / 64 == 2 && (0x80 + digit) % 64 == digit
  {
  }

  /** The first byte announces its continuation bytes and keeps its bits under the marker. */
  lemma FirstReads(k: nat, x: nat)
    requires 0 < k <= 5 && x < 0x40 / Pow2(k)
    ensures var b := Marker(k) + x;
      0x80 <= b < 256 && Ones(b) == k && b % Pow2(7 - k) == x
  {
    assert Pow2(2) == 4 && Pow2(3) == 8 && Pow2(4) == 16 && Pow2(5) == 32 && Pow2(6) == 64;
    match k {
      case 1 =>
      case 2 =>
      case 3 =>
      case 4 =>
      case 5 =>
    }
  }

  lemma CharRoundTrips(c: nat, rest: seq<byte>)
    requires c < LIMIT
    ensures EncodeChar(c) != [] && DecodeChar(EncodeChar(c) + rest) == (c, |EncodeChar(c)|)
  {
    hide Continue, Tail, Marker, Ones, High, Pow2;
    var k := Extra(c);
    FirstFits(c);
    var b := EncodeChar(c) + rest;
    if k == 0 {
      HighIsShift(c);
      NoMarker();
      TailLength(c, 0);
    } else {
      FirstReads(k, High(c, k));
      TailContinues(c, k, rest);
      TailLength(c, k);
      assert b[1..] == Tail(c, k) + rest;
    }
  }

  lemma NoMarker()
    ensures Marker(0) == 0
  {
  }

  lemma TailLength(c: nat, k: nat)
    ensures |Tail(c, k)| == k
  {
  }

  lemma CharInverts(c: nat, rest: seq<byte>)
    requires c < LIMIT
    ensures DecodeAll(EncodeChar(c) + rest) == [c] + DecodeAll(rest)
  {
    hide EncodeChar, DecodeChar;
    CharRoundTrips(c, rest);
    assert (EncodeChar(c) + rest)[|EncodeChar(c)|..] == rest;
  }

  lemma EncodeCons(s: seq<nat>, b: seq<byte>)
    requires s != []
    ensures EncodeAll(s) + b == EncodeChar(s[0]) + (EncodeAll(s[1..]) + b)
  {
    hide EncodeChar;
    Memory.Regroup(EncodeChar(s[0]), EncodeAll(s[1..]), b);
  }

  /** Decoding what was encoded gives back the characters, in order, without those that have no encoding: all of them
      when every value is below 0x80000000. What follows is decoded as it would be alone. */
  lemma {:induction false} DecodingInverts(s: seq<nat>, b: seq<byte>)
    ensures DecodeAll(EncodeAll(s) + b) == Kept(s) + DecodeAll(b)
    ensures (forall i :: 0 <= i < |s| ==> s[i] < LIMIT) ==> Kept(s) == s
  {
    hide EncodeChar, DecodeAll, EncodeAll;
    if s == [] {
      EncodeNothing(b);
    } else {
      EncodeCons(s, b);
      DecodingInverts(s[1..], b);
      assert [s[0]] + s[1..] == s;
      if s[0] < LIMIT {
        CharInverts(s[0], EncodeAll(s[1..]) + b);
      } else {
        NotEncoded(s[0]);
        assert EncodeAll(s) + b == EncodeAll(s[1..]) + b;
      }
    }
  }

  lemma EncodeNothing(b: seq<byte>)
    ensures EncodeAll([]) + b == b
  {
  }

  lemma NotEncoded(c: nat)
    requires c >= LIMIT
    ensures EncodeChar(c) == []
  {
  }

  // ----- no shorter form -----

  lemma {:induction false} PowersAdd(a: nat, b: nat)
    ensures Pow2(a + b) == Pow2(a) * Pow2(b)
  {
    if b > 0 {
      PowersAdd(a, b - 1);
      assert Pow2(a) * (2 * Pow2(b - 1)) == 2 * (Pow2(a) * Pow2(b - 1));
    }
  }

  lemma {:induction false} PowersGrow(a: nat, b: nat)
    requires a <= b
    ensures Pow2(a) <= Pow2(b)
  {
    if a < b {
      PowersGrow(a, b - 1);
    }
  }

  /** Each continuation byte adds six bits. */
  lemma {:induction false} ContinueBound(n: nat, x: nat, k: nat, b: seq<byte>)
    requires n < Pow2(x)
    ensures Continue(n, k, b).0 < Pow2(x + 6 * Continue(n, k, b).1)
    decreases k
  {
    if k > 0 && b != [] && b[0] / 64 == 2 {
      var n' := n * 64 % WORD + b[0] % 64;
      PowersAdd(x, 6);
      assert Pow2(6) == 64;
      assert n' <= n * 64 + 63 < Pow2(x + 6);
      ContinueBound(n', x + 6, k - 1, b[1..]);
      assert x + 6 + 6 * Continue(n', k - 1, b[1..]).1 == x + 6 * Continue(n, k, b).1;
    }
  }

  /** The bits a first byte that announces k continuation bytes leaves for the value. */
  function Room(k: nat): nat
  {
    if k == 0 then 7 else if k < 6 then 6 - k else 0
  }

  lemma FirstBits(c: byte)
    requires c >= 0x80
    ensures Ones(c) <= 7 && c % Pow2(7 - Ones(c)) < Pow2(Room(Ones(c)))
  {
    Powers();
    assert Pow2(0) == 1 && Pow2(1) == 2 && Pow2(2) == 4 && Pow2(4) == 16 && Pow2(5) == 32;
  }

  lemma FewBytes(c: nat, used: nat)
    requires c < LIMIT && c < Pow2(if used == 0 then 7 else 6 + 5 * used)
    ensures Extra(c) <= used
  {
    Powers();
    assert Pow2(11) == 0x800;
    assert Pow2(26) == 0x4000000 by {
      assert Pow2(26) == 4 * Pow2(24) && Pow2(24) == 8 * Pow2(21);
    }
    if used == 0 {
    } else if used == 1 {
    } else if used == 2 {
    } else if used == 3 {
    } else if used == 4 {
    }
  }

  /** The encoding is the shortest: no byte string that decodes to the value as one character has fewer bytes, overlong
      and truncated forms included. */
  lemma EncodingIsShortest(b: seq<byte>, c: nat)
    requires b != [] && DecodeChar(b) == (c, |b|) && c < LIMIT
    ensures |EncodeChar(c)| <= |b|
  {
    hide Pow2, Continue, Extra;
    if b[0] < 0x80 {
      FewBytes(c, 0) by {
        Powers();
      }
    } else {
      var k := Ones(b[0]);
      FirstBits(b[0]);
      var n := b[0] % Pow2(7 - k);
      ContinueBound(n, Room(k), k, b[1..]);
      var used := Continue(n, k, b[1..]).1;
      if used > 0 && Room(k) + 6 * used <= 6 + 5 * used {
        PowersGrow(Room(k) + 6 * used, 6 + 5 * used);
      } else if used > 0 {
        SixAtMost(c);
      }
      if used == 0 {
        PowersGrow(Room(k), 7);
      }
      if used < 7 {
        FewBytes(c, used);
      } else {
        SixAtMost(c);
      }
    }
  }

  lemma SixAtMost(c: nat)
    ensures Extra(c) <= 5
  {
  }

  // ----- what malformed bytes decode to -----

  /** The number of ones is read off the top bits: the k + 1 topmost bits of the byte are ones, and the next is not. */
  lemma OnesAreTop(c: byte)
    requires c >= 0x80
    ensures Ones(c) <= 7 && c / Pow2(7 - Ones(c)) == Pow2(Ones(c) + 1) - 1
    ensures Ones(c) < 7 ==> c / Pow2(6 - Ones(c)) % 2 == 0
  {
    Powers();
    assert Pow2(0) == 1 && Pow2(1) == 2 && Pow2(2) == 4 && Pow2(4) == 16 && Pow2(5) == 32 && Pow2(8) == 256;
  }

  /** Groups of six bits as one number, the first the most significant. */
  function Groups(b: seq<byte>): nat
  {
    if b == [] then 0 else Groups(b[..|b| - 1]) * 64 + b[|b| - 1] % 64
  }

  lemma {:induction false} GroupsFront(b: seq<byte>)
    requires b != []
    ensures Groups(b) == b[0] % 64 * Pow2(6 * (|b| - 1)) + Groups(b[1..])
  {
    var n := |b| - 1;
    if n > 0 {
      GroupsFront(b[..n]);
      assert b[..n][1..] == b[1..][..n - 1];
      PowersAdd(6 * (n - 1), 6);
      assert Pow2(6) == 64;
      var d, p, r := b[0] % 64, Pow2(6 * (n - 1)), Groups(b[1..][..n - 1]);
      assert (d * p + r) * 64 == d * (p * 64) + r * 64;
    } else {
      assert b[..0] == [] && b[1..] == [];
    }
  }

  lemma ModKeeps(x: nat, p: nat, y: nat)
    ensures (x % WORD * p + y) % WORD == (x * p + y) % WORD
  {
    var q, r := x / WORD, x % WORD;
    assert x * p + y == (r * p + y) + WORD * (q * p) by {
      assert x * p == (q * WORD + r) * p == q * p * WORD + r * p;
    }
    WordsAway(r * p + y, q * p);
  }

  lemma WordsAway(z: nat, m: nat)
    ensures (z + WORD * m) % WORD == z % WORD
  {
    DivModUnique(z + WORD * m, WORD, z / WORD + m, z % WORD);
  }

  /** Continuation bytes are taken as long as there are some, k at most. */
  lemma {:induction false} ContinueTakes(n: nat, k: nat, b: seq<byte>)
    ensures var used := Continue(n, k, b).1;
      && (forall i :: 0 <= i < used ==> 0x80 <= b[i] < 0xC0)
      && (used < k && used < |b| ==> !(0x80 <= b[used] < 0xC0))
    decreases k
  {
    if k > 0 && b != [] && b[0] / 64 == 2 {
      ContinueTakes(n * 64 % WORD + b[0] % 64, k - 1, b[1..]);
      assert forall i :: 1 <= i < |b| ==> b[i] == b[1..][i - 1];
    }
  }

  /** The 32-bit number they make with what the first byte left. */
  lemma {:induction false} ContinueValue(n: nat, k: nat, b: seq<byte>)
    requires n < WORD
    ensures var (m, used) := Continue(n, k, b); m == (n * Pow2(6 * used) + Groups(b[..used])) % WORD
    decreases k
  {
    hide Groups;
    if k > 0 && b != [] && b[0] / 64 == 2 {
      var d := b[0] % 64;
      var n' := n * 64 % WORD + d;
      WordRoom(n, d);
      ContinueValue(n', k - 1, b[1..]);
      var used := Continue(n', k - 1, b[1..]).1;
      assert b[..used + 1][1..] == b[1..][..used];
      GroupsFront(b[..used + 1]);
      PowersAdd(6, 6 * used);
      assert Pow2(6) == 64;
      TakesOne(n, d, Pow2(6 * used), Groups(b[1..][..used]));
    } else {
      NoGroups();
      assert b[..0] == [];
    }
  }

  lemma NoGroups()
    ensures Groups([]) == 0
  {
  }

  lemma WordRoom(n: nat, d: nat)
    requires d < 64
    ensures n * 64 % WORD + d < WORD
  {
    assert n * 64 % WORD == 64 * (n % 0x400_0000);
  }

  lemma TakesOne(n: nat, d: nat, p: nat, g: nat)
    ensures ((n * 64 % WORD + d) * p + g) % WORD == (n * (64 * p) + (d * p + g)) % WORD
  {
    ModKeeps(n * 64, p, d * p + g);
    assert (n * 64 % WORD + d) * p + g == n * 64 % WORD * p + (d * p + g);
    assert n * 64 * p == n * (64 * p);
  }

  /** What any bytes begin with: a byte below 0x80 stands for itself; any other announces as many continuation bytes as
      its ones, and takes those that are there, up to the first byte that is none; the value is what its low bits and
      the groups make, in 32 bits. */
  lemma AnyCharDecodes(b: seq<byte>)
    requires b != []
    ensures var (c, used) := DecodeChar(b);
      && 1 <= used <= |b|
      && (b[0] < 0x80 ==> c == b[0] && used == 1)
      && (b[0] >= 0x80 ==>
            && used <= Ones(b[0]) + 1
            && (forall i :: 1 <= i < used ==> 0x80 <= b[i] < 0xC0)
            && (used <= Ones(b[0]) && used < |b| ==> !(0x80 <= b[used] < 0xC0))
            && c == (b[0] % Pow2(7 - Ones(b[0])) * Pow2(6 * (used - 1)) + Groups(b[1..used])) % WORD)
  {
    hide Pow2, Continue, Groups;
    if b[0] >= 0x80 {
      var k := Ones(b[0]);
      var n := b[0] % Pow2(7 - k);
      ContinueTakes(n, k, b[1..]);
      ContinueValue(n, k, b[1..]);
      var used := Continue(n, k, b[1..]).1;
      assert b[1..][..used] == b[1..used + 1];
      assert forall i :: 1 <= i < |b| ==> b[i] == b[1..][i - 1];
    }
  }

  // ----- the conversions of the source -----

  /** Masks and joins of the conversions, as arithmetic. */
  lemma SixBits(x: nat)
    ensures And(x, 0x3F) == x % 64
    ensures x < 64 ==> Or(0x80, x) == 0x80 + x
  {
    Powers();
    MaskIsMod(x, 6);
    if x < 64 {
      assert Pow2(6) == 64;
      OrIsSum(0x80, x, 6);
    }
  }

  /** A first byte: the value fits under its marker. */
  lemma FirstByte(x: nat)
    ensures x < 32 ==> Or(0xC0, x) == 0xC0 + x
    ensures x < 16 ==> Or(0xE0, x) == 0xE0 + x
    ensures x < 8 ==> Or(0xF0, x) == 0xF0 + x
    ensures x < 4 ==> Or(0xF8, x) == 0xF8 + x
    ensures x < 2 ==> Or(0xFC, x) == 0xFC + x
  {
    assert Pow2(1) == 2 && Pow2(2) == 4 && Pow2(3) == 8 && Pow2(4) == 16 && Pow2(5) == 32;
    if x < 32 {
      OrIsSum(0xC0, x, 5);
    }
    if x < 16 {
      OrIsSum(0xE0, x, 4);
    }
    if x < 8 {
      OrIsSum(0xF0, x, 3);
    }
    if x < 4 {
      OrIsSum(0xF8, x, 2);
    }
    if x < 2 {
      OrIsSum(0xFC, x, 1);
    }
  }

  lemma ContinuationByte(x: nat)
    ensures Or(0x80, And(x, 0x3F)) == 0x80 + x % 64
  {
    SixBits(x);
    SixBits(x % 64);
  }

  /** The bytes of one character, with the shifts and masks of the source. */
  method AppendChar(ret0: seq<byte>, c: nat) returns (ret: seq<byte>)
    requires c < WORD
    ensures ret == ret0 + EncodeChar(c)
  {
    hide Or, And, High;
    HighIsShift(c);
    FirstByte(c / 0x40);
    FirstByte(c / 0x1000);
    FirstByte(c / 0x40000);
    FirstByte(c / 0x1000000);
    FirstByte(c / 0x40000000);
    ContinuationByte(c);
    ContinuationByte(c / 0x40);
    ContinuationByte(c / 0x1000);
    ContinuationByte(c / 0x40000);
    ContinuationByte(c / 0x1000000);
    TailBytes(c);
    if c < 0x80 {
      ret := ret0 + [c];
    } else if c < 0x800 {
      ret := ret0 + [Or(0xC0, c / 0x40), Or(0x80, And(c, 0x3F))];
    } else if c < 0x10000 {
      ret := ret0 + [Or(0xE0, c / 0x1000), Or(0x80, And(c / 0x40, 0x3F)), Or(0x80, And(c, 0x3F))];
    } else if c < 0x200000 {
      ret := ret0 + [Or(0xF0, c / 0x40000), Or(0x80, And(c / 0x1000, 0x3F)), Or(0x80, And(c / 0x40, 0x3F)),
        Or(0x80, And(c, 0x3F))];
    } else if c < 0x4000000 {
      ret := ret0 + [Or(0xF8, c / 0x1000000), Or(0x80, And(c / 0x40000, 0x3F)), Or(0x80, And(c / 0x1000, 0x3F)),
                     Or(0x80, And(c / 0x40, 0x3F)), Or(0x80, And(c, 0x3F))];
    } else if c < 0x80000000 {
      ret := ret0 + [Or(0xFC, c / 0x40000000), Or(0x80, And(c / 0x1000000, 0x3F)), Or(0x80, And(c / 0x40000, 0x3F)),
                     Or(0x80, And(c / 0x1000, 0x3F)), Or(0x80, And(c / 0x40, 0x3F)), Or(0x80, And(c, 0x3F))];
    } else {
      ret := ret0;
    }
  }

  lemma TailBytes(c: nat)
    ensures var t0 := 0x80 + c % 64; var t1 := 0x80 + c / 0x40 % 64; var t2 := 0x80 + c / 0x1000 % 64;
      var t3 := 0x80 + c / 0x40000 % 64; var t4 := 0x80 + c / 0x1000000 % 64;
      && Tail(c, 0) == [] && Tail(c, 1) == [t0] && Tail(c, 2) == [t1, t0] && Tail(c, 3) == [t2, t1, t0]
      && Tail(c, 4) == [t3, t2, t1, t0] && Tail(c, 5) == [t4, t3, t2, t1, t0]
  {
    HighIsShift(c);
    assert Tail(c, 1) == [0x80 + c % 64] + Tail(c, 0);
    assert Tail(c, 2) == [0x80 + c / 0x40 % 64] + Tail(c, 1);
    assert Tail(c, 3) == [0x80 + c / 0x1000 % 64] + Tail(c, 2);
    assert Tail(c, 4) == [0x80 + c / 0x40000 % 64] + Tail(c, 3);
    assert Tail(c, 5) == [0x80 + c / 0x1000000 % 64] + Tail(c, 4);
  }

  /** convert, from wide characters. */
  method ToUtf8(text: seq<nat>) returns (ret: seq<byte>)
    requires forall i :: 0 <= i < |text| ==> text[i] < WORD
    ensures ret == EncodeAll(text)
  {
    hide EncodeChar;
    ret := [];
    var i := 0;
    while i < |text|
      invariant 0 <= i <= |text|
      invariant EncodeAll(text) == ret + EncodeAll(text[i..])
    {
      ghost var before := ret;
      ret := AppendChar(ret, text[i]);
      assert text[i..][0] == text[i] && text[i..][1..] == text[i + 1..];
      i := i + 1;
    }
  }

  /** Testing the ones of a first byte from the top. */
  lemma NextOne(c: byte, k: nat)
    requires 0x80 <= c && k < 7 && k <= Ones(c)
    ensures And(c, Pow2(6 - k)) != 0 <==> Ones(c) > k
  {
    AndBit(c, 6 - k);
    assert Pow2(1) == 2 && Pow2(2) == 4 && Pow2(3) == 8 && Pow2(4) == 16 && Pow2(5) == 32 && Pow2(6) == 64;
    if k == 0 {
    } else if k == 1 {
    } else if k == 2 {
    } else if k == 3 {
    } else if k == 4 {
    } else if k == 5 {
    } else {
    }
  }

  lemma HalfMasks(k: nat)
    requires k < 7
    ensures (Pow2(7 - k) - 1) / 2 == Pow2(6 - k) - 1
    ensures k < 6 ==> Pow2(6 - k) / 2 == Pow2(5 - k)
    ensures k == 6 ==> Pow2(6 - k) / 2 == 0
  {
    assert Pow2(7 - k) == 2 * Pow2(6 - k);
  }

  /** The marker test and the six bits of a continuation byte. */
  lemma Continuation(b: byte)
    ensures And(b, 0xC0) == 0x80 <==> b / 64 == 2
    ensures And(b, 0x3F) == b % 64
  {
    SixBits(b);
    TopTwo(b);
  }

  lemma AndEven(x: nat, m: nat)
    ensures And(x, 2 * m) == 2 * And(x / 2, m)
  {
    AndHalves(x, 2 * m);
    assert 2 * m % 2 == 0 && 2 * m / 2 == m;
  }

  lemma TopTwo(b: byte)
    ensures And(b, 0xC0) == b / 64 * 64
  {
    hide And;
    AndEven(b, 0x60);
    AndEven(b / 2, 0x30);
    AndEven(b / 2 / 2, 0x18);
    AndEven(b / 2 / 2 / 2, 0x0C);
    AndEven(b / 2 / 2 / 2 / 2, 0x06);
    AndEven(b / 2 / 2 / 2 / 2 / 2, 0x03);
    LowTwo(b / 64);
  }

  lemma LowTwo(x: nat)
    requires x < 4
    ensures And(x, 3) == x
  {
    MaskIsMod(x, 2);
    assert Pow2(2) == 4;
  }

  lemma JoinSix(h: nat, low: nat)
    requires low < 64
    ensures Or(h * 64, low) == h * 64 + low
  {
    assert Pow2(6) == 64;
    OrIsSum(h * 64, low, 6);
  }

  lemma Joined(n: nat, low: nat)
    requires n < WORD && low < 64
    ensures Or(n * 64 % WORD, low) == n * 64 % WORD + low < WORD
  {
    hide Or;
    var h := n % 0x400_0000;
    assert n * 64 % WORD == h * 64;
    JoinSix(h, low);
  }

  /** convert, from UTF-8: the characters go into a buffer of one more than the bytes. */
  method FromUtf8(text: seq<byte>) returns (ret: seq<nat>)
    ensures ret == DecodeAll(text)
  {
    hide And, Or, DecodeAll, DecodeChar, Continue, Ones, Pow2;
    var data := new nat[|text| + 1];
    var dest, i := 0, 0;
    assert text[0..] == text;
    while i < |text|
      invariant 0 <= dest <= i <= |text|
      invariant DecodeAll(text) == data[..dest] + DecodeAll(text[i..])
    {
      ghost var start := i;
      var n, next := TakeChar(text, i);
      DecodeAllStep(text[i..]);
      assert text[i..][next - i..] == text[next..];
      assert data[..dest] + [n] + DecodeAll(text[next..]) == data[..dest] + ([n] + DecodeAll(text[next..]));
      data[dest] := n;
      assert data[..dest + 1] == data[..dest] + [n];
      dest, i := dest + 1, next;
    }
    DecodeAllNothing();
    data[dest] := 0;
    return data[..dest];
  }

  lemma DecodeAllStep(b: seq<byte>)
    requires b != []
    ensures DecodeAll(b) == [DecodeChar(b).0] + DecodeAll(b[DecodeChar(b).1..])
  {
  }

  lemma DecodeAllNothing()
    ensures DecodeAll([]) == []
  {
  }

  /** One turn of the loop: the first byte, its ones counted with two shifting masks, then its continuation bytes. */
  method TakeChar(text: seq<byte>, i0: nat) returns (n: nat, i: nat)
    requires i0 < |text|
    ensures (n, i - i0) == DecodeChar(text[i0..]) && i0 < i <= |text|
  {
    hide And, Or, Continue, Ones, Pow2;
    var c := text[i0];
    i := i0 + 1;
    assert text[i0..][1..] == text[i..];
    HighBit(c);
    if And(c, 0x80) == 0 {
      return c, i;
    }
    var charCount, dataMask := CountOnes(c);
    DataBits(c, charCount);
    n := And(c, dataMask);
    ghost var n0, k := n, charCount;
    while charCount > 0 && i < |text|
      invariant 0 <= charCount <= k && i0 < i <= |text| && n < WORD
      invariant Continue(n0, k, text[i0 + 1..])
        == (Continue(n, charCount, text[i..]).0, Continue(n, charCount, text[i..]).1 + i - i0 - 1)
      decreases charCount
    {
      var extra := text[i];
      Continuation(extra);
      ContinueStep(n, charCount, text[i..]);
      charCount := charCount - 1;
      if And(extra, 0xC0) != 0x80 {
        return;
      }
      Joined(n, And(extra, 0x3F));
      assert text[i..][1..] == text[i + 1..];
      n := n * 64 % WORD;
      n := Or(n, And(extra, 0x3F));
      i := i + 1;
    }
    ContinueStep(n, charCount, text[i..]);
  }

  lemma HighBit(c: byte)
    ensures And(c, 0x80) != 0 <==> c >= 0x80
  {
    Powers();
    AndBit(c, 7);
  }

  lemma DataBits(c: byte, k: nat)
    requires k <= 7
    ensures And(c, Pow2(7 - k) - 1) == c % Pow2(7 - k) < 256
  {
    MaskIsMod(c, 7 - k);
  }

  lemma ContinueStep(n: nat, k: nat, b: seq<byte>)
    ensures k == 0 || b == [] || b[0] / 64 != 2 ==> Continue(n, k, b) == (n, 0)
    ensures k > 0 && b != [] && b[0] / 64 == 2 ==>
      var r := Continue(n * 64 % WORD + b[0] % 64, k - 1, b[1..]); Continue(n, k, b) == (r.0, r.1 + 1)
  {
  }

  method CountOnes(c: byte) returns (charCount: nat, dataMask: nat)
    requires c >= 0x80
    ensures charCount == Ones(c) <= 7 && dataMask == Pow2(7 - charCount) - 1
  {
    hide And, Ones, Pow2;
    MaskStart();
    OnesBound(c);
    var bitCountMask := 0x40;
    dataMask, charCount := 0x7F, 0;
    while And(c, bitCountMask) != 0 && bitCountMask != 0
      invariant 0 <= charCount <= Ones(c) <= 7 && dataMask == Pow2(7 - charCount) - 1
      invariant bitCountMask == if charCount < 7 then Pow2(6 - charCount) else 0
      decreases 7 - charCount
    {
      NextOne(c, charCount);
      HalfMasks(charCount);
      charCount, dataMask, bitCountMask := charCount + 1, dataMask / 2, bitCountMask / 2;
    }
    if charCount < 7 {
      NextOne(c, charCount);
    }
  }

  lemma MaskStart()
    ensures Pow2(7) - 1 == 0x7F && Pow2(6) == 0x40
  {
    Powers();
  }

  lemma OnesBound(c: byte)
    ensures Ones(c) <= 7
  {
  }
}

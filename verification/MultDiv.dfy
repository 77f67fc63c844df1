/** multDiv of the clock code: a * b / c on 64-bit words, through 32-bit digits and two-digit long division. */
module MultDiv {
  import opened Bits

  const BASE: nat := 0x1_0000_0000
  const WORD: nat := 0x1_0000_0000_0000_0000

  /** An unsigned 64-bit word. */
  type uint64 = x: int | 0 <= x < WORD

  // ----- division facts -----

  lemma MulAdd(x: int, y: int, z: int)
    ensures (x + y) * z == x * z + y * z && z * (x + y) == x * z + y * z
  {
  }

  lemma MulAssoc(x: int, y: int, z: int)
    ensures x * y * z == x * (y * z) && x * y == y * x
  {
  }

  lemma DivAdd(c: nat, x: nat, y: nat)
    requires c > 0
    ensures (c * x + y) / c == x + y / c
  {
    assert c * x + y == c * (x + y / c) + y % c;
    DivModUnique(c * x + y, c, x + y / c, y % c);
  }

  lemma DivScale(n: nat, c: nat, k: nat)
    requires c > 0 && k > 0
    ensures c * k > 0 && (n * k) / (c * k) == n / c
  {
    var q, r := n / c, n % c;
    assert n * k == (c * k) * q + r * k;
    assert r * k < c * k;
    DivModUnique(n * k, c * k, q, r * k);
  }

  lemma SplitProduct(qa: nat, ra: nat, qb: nat, rb: nat, b: nat, c: nat)
    requires b == c * qb + rb
    ensures (c * qa + ra) * b == c * (qa * b + ra * qb) + ra * rb
  {
    MulAdd(c * qa, ra, b);
    MulAssoc(c, qa, b);
    MulAdd(c * qb, rb, ra);
    MulAssoc(c, qb, ra);
    MulAssoc(ra, qb, c);
    MulAdd(qa * b, ra * qb, c);
  }

  lemma DivIs(c: nat, x: nat, y: nat, n: nat)
    requires c > 0 && n == c * x + y
    ensures n / c == x + y / c
  {
    DivAdd(c, x, y);
  }

  /** The easy part of the quotient. */
  lemma SplitQuotient(a: nat, b: nat, c: nat)
    requires c > 0
    ensures a * b / c == (a / c) * b + (a % c) * (b / c) + (a % c) * (b % c) / c
  {
    SplitProduct(a / c, a % c, b / c, b % c, b, c);
    DivIs(c, (a / c) * b + (a % c) * (b / c), (a % c) * (b % c), a * b);
  }

  // ----- one quotient digit -----

  lemma DivBounds(n: nat, c: nat, q: nat)
    requires c > 0
    ensures n < q * c ==> n / c < q
    ensures q * c <= n ==> q <= n / c
  {
    var t := n / c;
    assert t * c <= n < t * c + c;
    if t >= q {
      MulAdd(q, t - q, c);
    } else {
      MulAdd(t + 1, q - t - 1, c);
    }
  }

  /** q times the divisor, by digits. */
  lemma ByDigits(q: nat, ch: nat, cl: nat)
    ensures q * (ch * BASE + cl) == (q * ch) * BASE + q * cl
  {
    MulAdd(ch * BASE, cl, q);
    MulAssoc(q, ch, BASE);
  }

  /** When the correction loop goes on, the estimate is too large. */
  lemma EstimateTooLarge(p2: nat, p1: nat, ch: nat, cl: nat, q: nat, rhat: nat)
    requires ch > 0 && p1 < BASE && p2 == q * ch + rhat && p2 < ch * BASE + cl
    requires q >= BASE || q * cl > rhat * BASE + p1
    ensures (p2 * BASE + p1) / (ch * BASE + cl) < q
  {
    var c := ch * BASE + cl;
    ByDigits(q, ch, cl);
    if q >= BASE {
      DivBounds(p2 * BASE + p1, c, BASE);
    } else {
      DivBounds(p2 * BASE + p1, c, q);
    }
  }

  /** When it stops, the estimate is the digit. */
  lemma EstimateExact(p2: nat, p1: nat, ch: nat, cl: nat, q: nat, rhat: nat)
    requires ch > 0 && p2 == q * ch + rhat && q < BASE && cl < BASE
    requires rhat >= BASE || q * cl <= rhat * BASE + p1
    ensures q <= (p2 * BASE + p1) / (ch * BASE + cl)
  {
    ByDigits(q, ch, cl);
    if rhat >= BASE {
      assert q * cl <= BASE * BASE by {
        MulUpTo(q, BASE, cl, BASE);
      }
    }
    DivBounds(p2 * BASE + p1, ch * BASE + cl, q);
  }

  lemma MulUpTo(x: nat, x': nat, y: nat, y': nat)
    requires x <= x' && y <= y'
    ensures x * y <= x' * y'
  {
    MulAdd(x, x' - x, y);
    MulAdd(y, y' - y, x');
  }

  /** With a normalised divisor the first estimate is at most two too large. */
  lemma EstimateClose(p2: nat, p1: nat, ch: nat, cl: nat)
    requires BASE <= 2 * ch && cl < BASE && p1 < BASE && p2 < ch * BASE + cl
    ensures (p2 * BASE + p1) / (ch * BASE + cl) <= p2 / ch <= (p2 * BASE + p1) / (ch * BASE + cl) + 2
  {
    var c, q := ch * BASE + cl, p2 / ch;
    var n := p2 * BASE + p1;
    var t := n / c;
    ByDigits(t, ch, cl);
    assert t * c <= n;
    DivBounds(p2, ch, t);
    assert q * ch <= p2;
    if q >= t + 3 {
      DivBounds(p2, ch, BASE + 2);
      assert n < (t + 1) * c by {
        MulAdd(t, 1, c);
      }
      NotThree(p2, p1, ch, cl, q, t);
    }
  }

  /** An estimate three too large would leave a remainder below zero. */
  lemma NotThree(p2: nat, p1: nat, ch: nat, cl: nat, q: nat, t: nat)
    requires BASE <= 2 * ch && cl < BASE && q * ch <= p2 && q < BASE + 2
    requires p2 * BASE + p1 < (t + 1) * (ch * BASE + cl)
    ensures q < t + 3
  {
    var c := ch * BASE + cl;
    ByDigits(q, ch, cl);
    MulUpTo(q, BASE + 1, cl, BASE - 1);
    if q >= t + 3 {
      MulAdd(q - t - 1, t + 1, c);
      MulUpTo(2, q - t - 1, c, c);
      assert false;
    }
  }

  lemma DigitProduct(x: nat, y: nat)
    requires x < BASE && y < BASE
    ensures 0 <= x * y <= WORD - 2 * BASE + 1
  {
    MulUpTo(x, BASE - 1, y, BASE - 1);
    MulUpTo(0, x, 0, y);
    assert (BASE - 1) * (BASE - 1) == WORD - 2 * BASE + 1;
  }

  /** The estimate-and-correct loop of one digit. */
  method Digit(p2: uint64, p1: uint64, ch: uint64, cl: uint64) returns (q: uint64, rounds: nat)
    requires BASE <= 2 * ch && ch < BASE && cl < BASE && p1 < BASE && p2 < ch * BASE + cl
    ensures q == (p2 * BASE + p1) / (ch * BASE + cl) && q < BASE
    ensures rounds <= 2
  {
    q := p2 / ch;
    var rhat: uint64 := p2 % ch;
    rounds := 0;
    ghost var t := (p2 * BASE + p1) / (ch * BASE + cl);
    EstimateClose(p2, p1, ch, cl);
    while true
      invariant p2 == q * ch + rhat
      invariant t <= q <= t + 2 - rounds
      invariant rhat < ch + rounds * ch
      decreases q
    {
      var over := q >= BASE;
      if !over && rhat < BASE {
        DigitProduct(q, cl);
        var lhs: uint64 := q * cl;
        var rhs: uint64 := rhat * BASE + p1;
        over := lhs > rhs;
      }
      if !over {
        EstimateExact(p2, p1, ch, cl, q, rhat);
        return;
      }
      EstimateTooLarge(p2, p1, ch, cl, q, rhat);
      MulAdd(q - 1, 1, ch);
      q := q - 1;
      rhat := rhat + ch;
      rounds := rounds + 1;
    }
  }

  // ----- the product, by digits -----

  /** The four digit products add up to the product. */
  lemma ProductByDigits(ah: nat, al: nat, bh: nat, bl: nat)
    ensures (ah * BASE + al) * (bh * BASE + bl) == (ah * bh) * WORD + (al * bh + ah * bl) * BASE + al * bl
  {
    var b := bh * BASE + bl;
    MulAdd(ah * BASE, al, b);
    MulAssoc(ah, BASE, b);
    ByDigits(ah, bh, bl);
    ByDigits(al, bh, bl);
  }

  /** Schoolbook multiplication of two-digit words; no step overflows. The result is the product in base 2^32, with its
      two upper digits together. */
  method Product(a: uint64, b: uint64) returns (p2: uint64, p1: uint64, p0: uint64)
    ensures p0 < BASE && p1 < BASE && a * b == p2 * WORD + p1 * BASE + p0
  {
    var ah: uint64, al: uint64 := a / BASE, a % BASE;
    var bh: uint64, bl: uint64 := b / BASE, b % BASE;
    DigitProduct(al, bl);
    DigitProduct(al, bh);
    DigitProduct(ah, bl);
    DigitProduct(ah, bh);
    ProductByDigits(ah, al, bh, bl);
    p0 := al * bl;
    p1 := p0 / BASE + al * bh;
    p0 := p0 % BASE;
    p2 := p1 / BASE + ah * bh;
    p1 := p1 % BASE + ah * bl;
    WholeProduct(a, b, ah * bh, al * bh, ah * bl, al * bl);
    p2 := p2 + p1 / BASE;
    p1 := p1 % BASE;
  }

  /** The upper two digits of the product of two words fit one word. */
  lemma WholeProduct(a: uint64, b: uint64, hh: nat, lh: nat, hl: nat, ll: nat)
    requires a * b == hh * WORD + (lh + hl) * BASE + ll
    ensures var p1 := ll / BASE + lh; hh + p1 / BASE + (p1 % BASE + hl) / BASE < WORD
  {
    MulUpTo(a, WORD - 1, b, WORD - 1);
    var p1 := ll / BASE + lh;
    var p2 := hh + p1 / BASE + (p1 % BASE + hl) / BASE;
    assert a * b >= p2 * WORD;
  }

  // ----- the wrapping subtraction -----

  /** Subtraction of unsigned words, which wraps. */
  function Sub64(x: int, y: int): (r: uint64)
  {
    (x - y) % WORD
  }

  /** Subtracting q1 times the divisor digit by digit, each subtraction wrapping, leaves the remainder in the two lower
      digits. */
  lemma WrappedRemainder(p2: uint64, p1: uint64, qh: nat, ql: nat, r: uint64)
    requires p1 < BASE && r == p2 * BASE + p1 - (qh * BASE + ql)
    ensures var x := Sub64((p2 % BASE) * BASE + p1, ql);
      var y := Sub64(p2 / BASE * BASE + x / BASE, qh);
      x % BASE + (y % BASE) * BASE == r
  {
    var d := (p2 % BASE) * BASE + p1 - ql;
    var x := Sub64((p2 % BASE) * BASE + p1, ql);
    var j := d / WORD;
    assert d == x + j * WORD;
    var e := p2 / BASE * BASE + x / BASE - qh;
    var y := Sub64(p2 / BASE * BASE + x / BASE, qh);
    var k := e / WORD;
    assert e == y + k * WORD;
    var z := x % BASE + (y % BASE) * BASE;
    assert r == z + (y / BASE + j + k * BASE) * WORD;
  }

  // ----- the whole -----

  function Mul64(x: int, y: int): (r: uint64)
  {
    (x * y) % WORD
  }

  function Add64(x: int, y: int): (r: uint64)
  {
    (x + y) % WORD
  }

  /** Wrapping early or late gives the same word. */
  lemma WrapLate(x: int, y: int)
    ensures Add64(x % WORD, y) == (x + y) % WORD && Add64(x, y % WORD) == (x + y) % WORD
    ensures Add64(x % WORD, y % WORD) == (x + y) % WORD
  {
    ModShift(x + y, x / WORD);
    ModShift(x + y, y / WORD);
    ModShift(x + y, x / WORD + y / WORD);
    assert x == WORD * (x / WORD) + x % WORD && y == WORD * (y / WORD) + y % WORD;
  }

  lemma ModShift(x: int, k: int)
    ensures (x - WORD * k) % WORD == x % WORD
  {
    DivModUnique(x - WORD * k, WORD, x / WORD - k, x % WORD);
  }

  /** The normalised divisor has its top bit set. */
  lemma Normalised(c: uint64)
    requires c > 0
    ensures var norm := (WORD - 1) / c; norm > 0 && WORD / 2 <= c * norm < WORD
  {
    var norm := (WORD - 1) / c;
    DivBounds(WORD - 1, c, 1);
    MulUpTo(1, norm, c, c);
    assert c * norm + (WORD - 1) % c == WORD - 1;
  }

  lemma ScaleBelow(a: nat, c: nat, norm: nat)
    requires a < c && 0 < norm
    ensures 0 <= a * norm < c * norm
  {
    MulAdd(a, c - a, norm);
    MulUpTo(1, c - a, 1, norm);
  }

  lemma TopBelow(a: nat, b: nat, c: nat, p2: nat, low: nat)
    requires a < c && b < WORD && a * b == p2 * WORD + low
    ensures p2 < c
  {
    MulUpTo(a, a, b, WORD);
    MulUpTo(a + 1, c, WORD, WORD);
  }

  /** Two digits of long division. */
  lemma LongDivision(n: nat, top: nat, p0: nat, c: nat, q1: nat, r: nat, q0: nat)
    requires c > 0 && p0 < BASE && n == top * BASE + p0
    requires q1 == top / c && r == top - q1 * c && q0 == (r * BASE + p0) / c
    ensures n / c == q1 * BASE + q0
  {
    var r0 := (r * BASE + p0) % c;
    assert r * BASE + p0 == q0 * c + r0;
    MulAdd(q1 * BASE, q0, c);
    MulAssoc(q1, BASE, c);
    MulAssoc(q1, c, BASE);
    DivModUnique(n, c, q1 * BASE + q0, r0);
  }

  lemma RemainderBelow(n: nat, c: nat)
    requires c > 0
    ensures 0 <= n - (n / c) * c < c
  {
  }

  lemma ScaledProduct(a: nat, b: nat, c: nat, norm: nat)
    requires c > 0 && norm > 0
    ensures c * norm > 0 && (a * norm) * b / (c * norm) == a * b / c
  {
    MulAssoc(a, norm, b);
    MulAssoc(norm, b, 1);
    MulAssoc(a, b, norm);
    DivScale(a * b, c, norm);
  }

  /** The quotient of two words below the divisor, for a divisor of two digits. */
  method LongDivide(a: uint64, b: uint64, c: uint64) returns (q1: uint64, q0: uint64)
    requires a < c && BASE <= c
    ensures q1 * BASE + q0 == a * b / c && q1 < BASE && q0 < BASE
  {
    Normalised(c);
    var norm: uint64 := (WORD - 1) / c;
    ScaleBelow(a, c, norm);
    var cn: uint64 := c * norm;
    var an: uint64 := a * norm;
    var ch: uint64, cl: uint64 := cn / BASE, cn % BASE;
    var p2, p1, p0 := Product(an, b);
    TopBelow(an, b, cn, p2, p1 * BASE + p0);
    var rounds;
    q1, rounds := Digit(p2, p1, ch, cl);
    RemainderBelow(p2 * BASE + p1, cn);
    ByDigits(q1, ch, cl);
    DigitProduct(q1, cl);
    DigitProduct(q1, ch);
    ghost var r := p2 * BASE + p1 - q1 * cn;
    WrappedRemainder(p2, p1, q1 * ch, q1 * cl, r);
    var x := Sub64((p2 % BASE) * BASE + p1, q1 * cl);
    var y := Sub64(p2 / BASE * BASE + x / BASE, q1 * ch);
    var rest: uint64 := x % BASE + (y % BASE) * BASE;
    q0, rounds := Digit(rest, p0, ch, cl);
    LongDivision(an * b, p2 * BASE + p1, p0, cn, q1, r, q0);
    ScaledProduct(a, b, c, norm);
  }

  /** multDiv: the quotient of the full product, modulo 2^64. */
  method MultDiv(a: uint64, b: uint64, c: uint64) returns (r: uint64)
    requires c > 0
    ensures r == (a * b / c) % WORD
  {
    SplitQuotient(a, b, c);
    ghost var x: int, y: int := (a / c) * b, (a % c) * (b / c);
    WrapLate(x, y);
    var res := Add64(Mul64(a / c, b), Mul64(a % c, b / c));
    assert res == (x + y) % WORD;
    var a', b' := a % c, b % c;
    ghost var n: int := a' * b' / c;
    assert a * b / c == x + y + n;
    if a' == 0 || b' == 0 {
      ZeroQuotient(a', b', c);
      assert n == 0;
      return res;
    }
    WrapLate(x + y, n);
    if c < BASE {
      DigitProduct(a', b');
      DivModUnique(a' * b', WORD, 0, a' * b');
      var rest := Mul64(a', b') / c;
      assert rest == n;
      return Add64(res, rest);
    }
    var q1, q0 := LongDivide(a', b', c);
    r := Add64(Add64(res, q0), q1 * BASE);
    WrapLate(x + y, q0);
    WrapLate(x + y + q0, q1 * BASE);
  }

  lemma ZeroQuotient(a: nat, b: nat, c: nat)
    requires c > 0 && (a == 0 || b == 0)
    ensures a * b / c == 0
  {
    MulAssoc(a, b, 1);
    DivModUnique(0, c, 0, 0);
  }
}

/** Bitwise operations of the source on unsigned words, defined bit by bit on natural numbers, and the
    arithmetic they amount to for the masks the source uses. */
module Bits {

  type byte = b: int | 0 <= b < 256

  function Pow2(n: nat): (p: nat)
    ensures p > 0
  {
    if n == 0 then 1 else 2 * Pow2(n - 1)
  }

  /** Bitwise and. */
  function And(a: nat, b: nat): (r: nat)
    ensures r <= a && r <= b
  {
    if a == 0 || b == 0 then 0
    else (if a % 2 == 1 && b % 2 == 1 then 1 else 0) + 2 * And(a / 2, b / 2)
  }

  /** Bitwise or. */
  function Or(a: nat, b: nat): nat
  {
    if a == 0 then b else if b == 0 then a
    else (if a % 2 == 1 || b % 2 == 1 then 1 else 0) + 2 * Or(a / 2, b / 2)
  }

  lemma MulBound(d: int, k: int)
    requires d >= 0
    ensures k >= 1 ==> d * k >= d
    ensures k <= -1 ==> d * k <= -d
  {
  }

  /** Quotient and remainder are determined by the division identity. */
  lemma DivModUnique(x: int, d: nat, q: int, r: nat)
    requires x == d * q + r && r < d
    ensures x / d == q && x % d == r
  {
    var q', r' := x / d, x % d;
    assert d * (q - q') == r' - r;
    MulBound(d, q - q');
  }

  /** Halving commutes with taking the low bits. */
  lemma HalfMod(x: nat, k: nat)
    ensures x % (2 * Pow2(k)) == x % 2 + 2 * ((x / 2) % Pow2(k))
    ensures x / (2 * Pow2(k)) == x / 2 / Pow2(k)
  {
    var p := Pow2(k);
    var q, t := x / 2 / p, (x / 2) % p;
    assert x / 2 == q * p + t;
    DivModUnique(x, 2 * p, q, x % 2 + 2 * t);
  }

  lemma OddMask(x: nat, p: nat)
    requires p > 0
    ensures And(x, 2 * p - 1) == x % 2 + 2 * And(x / 2, p - 1)
  {
    assert (2 * p - 1) / 2 == p - 1;
  }

  /** Masking with a power of two minus one keeps the remainder. */
  lemma {:induction false} MaskIsMod(x: nat, k: nat)
    ensures And(x, Pow2(k) - 1) == x % Pow2(k)
  {
    if k > 0 {
      var p := Pow2(k - 1);
      OddMask(x, p);
      MaskIsMod(x / 2, k - 1);
      HalfMod(x, k - 1);
    }
  }

  /** Testing one bit of a word. */
  lemma {:induction false} AndBit(x: nat, k: nat)
    ensures And(x, Pow2(k)) == if x / Pow2(k) % 2 == 1 then Pow2(k) else 0
  {
    if k > 0 {
      HalfMod(x, k - 1);
      AndBit(x / 2, k - 1);
    }
  }

  /** The powers of two behind the masks of the source. */
  lemma Powers()
    ensures Pow2(3) == 8 && Pow2(6) == 64 && Pow2(7) == 128 && Pow2(14) == 0x4000 && Pow2(16) == 0x10000
    ensures Pow2(17) == 0x20000 && Pow2(21) == 0x200000 && Pow2(30) == 0x4000_0000 && Pow2(31) == 0x8000_0000
  {
    assert Pow2(6) == 64;
    assert Pow2(12) == 4096;
    assert Pow2(18) == 0x40000;
    assert Pow2(24) == 0x100_0000;
  }

  /** Or of two numbers that share no bit is their sum. */
  lemma {:induction false} OrIsSum(hi: nat, lo: nat, k: nat)
    requires lo < Pow2(k) && hi % Pow2(k) == 0
    ensures Or(hi, lo) == hi + lo && Or(lo, hi) == hi + lo
  {
    if hi != 0 && lo != 0 {
      HalfMod(hi, k - 1);
      OrIsSum(hi / 2, lo / 2, k - 1);
    }
  }

  /** Setting one bit of a word: the bit is added unless it is already there. */
  lemma {:induction false} OrBit(x: nat, k: nat)
    ensures Or(x, Pow2(k)) == if x / Pow2(k) % 2 == 1 then x else x + Pow2(k)
  {
    if k > 0 {
      HalfMod(x, k - 1);
      OrBit(x / 2, k - 1);
    } else {
      assert Or(x / 2, 0) == x / 2;
    }
  }

  /** Masking with all bits but those of m takes away what m would keep. */
  lemma {:induction false} AndComplement(x: nat, m: nat, k: nat)
    requires x < Pow2(k) && m < Pow2(k)
    ensures And(x, Pow2(k) - 1 - m) == x - And(x, m)
    decreases k
  {
    if k > 0 {
      AndComplement(x / 2, m / 2, k - 1);
      assert (Pow2(k) - 1 - m) / 2 == Pow2(k - 1) - 1 - m / 2;
      AndHalves(x, m);
      AndHalves(x, Pow2(k) - 1 - m);
    }
  }

  /** The last bits, and the others. */
  lemma AndHalves(x: nat, m: nat)
    ensures And(x, m) == (if x % 2 == 1 && m % 2 == 1 then 1 else 0) + 2 * And(x / 2, m / 2)
  {
  }
}

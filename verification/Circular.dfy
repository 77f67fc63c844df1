/** Positions of a circular buffer or table. */
module Circular {
  import opened Bits

  /** A position of the unrolled buffer, brought back into it. */
  function Wrap(x: int, s: int): int
  {
    if x < s then x else x - s
  }

  lemma ModWraps(x: nat, s: nat)
    requires s > 0 && x < 2 * s
    ensures x % s == Wrap(x, s)
  {
    DivModUnique(x, s, if x < s then 0 else 1, if x < s then x else x - s);
  }
}

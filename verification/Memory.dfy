/** The C library's block copies, as array updates. */
module Memory {
  import opened Bits

  /** The contents of an array after src has been written at index at. */
  function Overwritten(old_: seq<byte>, at: nat, src: seq<byte>): (s: seq<byte>)
    requires at + |src| <= |old_|
    ensures |s| == |old_|
    ensures forall k :: 0 <= k < |s| ==> s[k] == if at <= k < at + |src| then src[k - at] else old_[k]
  {
    old_[..at] + src + old_[at + |src|..]
  }

  /** Two writes end to end are one write. */
  lemma OverwrittenTwice(s: seq<byte>, at: nat, x: seq<byte>, y: seq<byte>)
    requires at + |x| + |y| <= |s|
    ensures Overwritten(Overwritten(s, at, x), at + |x|, y) == Overwritten(s, at, x + y)
  {
  }

  /** Concatenation is associative. */
  lemma Regroup(a: seq<byte>, b: seq<byte>, c: seq<byte>)
    ensures a + b + c == a + (b + c)
  {
  }

  /** Three parts of four, from either end. */
  lemma Chain(a: seq<byte>, b: seq<byte>, c: seq<byte>, d: seq<byte>, abc: seq<byte>, bcd: seq<byte>)
    requires abc == a + b + c && bcd == b + c + d
    ensures abc + d == a + bcd
  {
  }

  /** The same three parts, with an empty one in front and with another. */
  lemma SplitParts(a: seq<byte>, e: seq<byte>, b: seq<byte>, c: seq<byte>, p: seq<byte>, q: seq<byte>)
    requires |e| == 0 && p == a + b + c && q == e + b + c
    ensures p == a + q
  {
  }

  /** An empty part in front. */
  lemma EmptyPart(e: seq<byte>, b: seq<byte>, c: seq<byte>)
    requires |e| == 0
    ensures e + b + c == b + c
  {
  }

  /** What follows a part. */
  lemma Behind(a: seq<byte>, b: seq<byte>)
    ensures (a + b)[|a|..] == b
  {
  }

  /** A part of two pieces that ends in the second. */
  lemma Cut(a: seq<byte>, b: seq<byte>, k: nat)
    requires k <= |a| + |b|
    ensures k <= |a| ==> (a + b)[..k] == a[..k]
    ensures k >= |a| ==> (a + b)[..k] == a + b[..k - |a|] && (a + b)[..k][|a|..] == b[..k - |a|]
  {
  }

  /** A part and the one behind it. */
  lemma NextPart(b: seq<byte>, m: nat, n: nat)
    requires m + n <= |b|
    ensures b[..m + n] == b[..m] + b[m..][..n]
  {
  }

  /** Two skips in a row. */
  lemma Further(b: seq<byte>, m: nat, n: nat)
    requires m + n <= |b|
    ensures b[m..][n..] == b[m + n..]
  {
  }

  /** memcpy from a buffer that does not change. */
  method Copy(dst: array<byte>, at: nat, src: seq<byte>)
    requires at + |src| <= dst.Length
    modifies dst
    ensures dst[..] == Overwritten(old(dst[..]), at, src)
  {
    forall k | 0 <= k < |src| {
      dst[at + k] := src[k];
    }
  }

  /** memmove inside one array: the source is read before it is overwritten. */
  method Move(a: array<byte>, to: nat, from: nat, n: nat)
    requires to + n <= a.Length && from + n <= a.Length
    modifies a
    ensures a[..] == Overwritten(old(a[..]), to, old(a[from..from + n]))
  {
    forall k | 0 <= k < n {
      a[to + k] := a[from + k];
    }
  }
}

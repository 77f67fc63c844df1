/** findreplaceengine of the string library: in-place replacement of every match, in its equal-length, shrinking and
    expanding forms. */
module FindReplace {
  import opened Bits
  import Memory

  // ----- what is computed -----

  predicate MatchAt(s: seq<byte>, i: nat, f: seq<byte>)
  {
    i + |f| <= |s| && s[i..i + |f|] == f
  }

  /** The first match at or after pos, or the end of the text. */
  function FirstMatch(s: seq<byte>, pos: nat, f: seq<byte>): (i: nat)
    requires pos <= |s| && |f| > 0
    ensures pos <= i <= |s|
    ensures i < |s| ==> MatchAt(s, i, f)
    ensures forall j :: pos <= j < i ==> !MatchAt(s, j, f)
    decreases |s| - pos
  {
    if pos == |s| || MatchAt(s, pos, f) then pos else FirstMatch(s, pos + 1, f)
  }

  /** The text from pos on, with every match replaced, leftmost first and without overlap. */
  function Replaced(s: seq<byte>, pos: nat, f: seq<byte>, r: seq<byte>): seq<byte>
    requires pos <= |s| && |f| > 0
    decreases |s| - pos
  {
    var i := FirstMatch(s, pos, f);
    if i == |s| then s[pos..] else s[pos..i] + r + Replaced(s, i + |f|, f, r)
  }

  /** The positions of the matches. */
  function Matches(s: seq<byte>, pos: nat, f: seq<byte>): (d: seq<nat>)
    requires pos <= |s| && |f| > 0
    decreases |s| - pos
  {
    var i := FirstMatch(s, pos, f);
    if i == |s| then [] else [i] + Matches(s, i + |f|, f)
  }

  lemma FirstMatchIs(s: seq<byte>, pos: nat, f: seq<byte>, i: nat)
    requires pos <= i <= |s| && |f| > 0
    requires i < |s| ==> MatchAt(s, i, f)
    requires forall j :: pos <= j < i ==> !MatchAt(s, j, f)
    ensures FirstMatch(s, pos, f) == i
  {
  }

  lemma Tail(s: seq<byte>, pos: nat, a: nat, b: nat)
    requires pos <= a <= b <= |s|
    ensures s[pos..][a - pos..b - pos] == s[a..b]
  {
    assert |s[pos..][a - pos..b - pos]| == |s[a..b]|;
    forall k | 0 <= k < b - a
      ensures s[pos..][a - pos..b - pos][k] == s[a..b][k]
    {
    }
  }

  /** Texts that agree from pos on agree on every part after it. */
  lemma SameTail(s: seq<byte>, t: seq<byte>, pos: nat, a: nat, b: nat)
    requires |s| == |t| && pos <= a <= b <= |s| && s[pos..] == t[pos..]
    ensures s[a..b] == t[a..b]
  {
    Tail(s, pos, a, b);
    Tail(t, pos, a, b);
  }

  lemma SameMatch(s: seq<byte>, t: seq<byte>, pos: nat, j: nat, f: seq<byte>)
    requires |s| == |t| && pos <= j && pos <= |s| && s[pos..] == t[pos..]
    ensures MatchAt(s, j, f) <==> MatchAt(t, j, f)
  {
    if j + |f| <= |s| {
      SameTail(s, t, pos, j, j + |f|);
    }
  }

  /** A search does not look at the text before its start. */
  lemma SearchAhead(s: seq<byte>, t: seq<byte>, pos: nat, f: seq<byte>)
    requires |s| == |t| && pos <= |s| && |f| > 0 && s[pos..] == t[pos..]
    ensures FirstMatch(s, pos, f) == FirstMatch(t, pos, f)
  {
    hide MatchAt;
    SameMatch(s, t, pos, FirstMatch(s, pos, f), f);
    SameMatch(s, t, pos, FirstMatch(t, pos, f), f);
  }

  lemma MatchMore(s: seq<byte>, i: nat, f: seq<byte>, j: nat)
    requires j < |f| && i + j < |s| && s[i..i + j] == f[..j] && s[i + j] == f[j]
    ensures s[i..i + j + 1] == f[..j + 1]
  {
    assert s[i..i + j + 1] == s[i..i + j] + [s[i + j]];
    assert f[..j + 1] == f[..j] + [f[j]];
  }

  lemma Mismatch(s: seq<byte>, i: nat, f: seq<byte>, j: nat)
    requires j < |f| && i + |f| <= |s| && s[i + j] != f[j]
    ensures !MatchAt(s, i, f)
  {
    assert s[i..i + |f|][j] == s[i + j];
  }

  // ----- one replacement -----

  lemma EqualStep(s: seq<byte>, c: seq<byte>, c': seq<byte>, last: nat, i: nat, f: seq<byte>, r: seq<byte>)
    requires |s| == |c| && last <= |s| && 0 < |f| == |r| && i == FirstMatch(s, last, f) && i < |s|
    requires c[last..] == s[last..] && c' == Memory.Overwritten(c, i, r)
    ensures c'[i + |f|..] == s[i + |f|..]
    ensures c'[..i + |f|] + Replaced(s, i + |f|, f, r) == c[..last] + Replaced(s, last, f, r)
  {
    SameTail(c, s, last, last, i);
    SameTail(c, s, last, i + |f|, |s|);
    Spliced(c, i, r, c');
    assert c[..i] == c[..last] + c[last..i];
    Memory.Regroup(c[..last], s[last..i], r);
    Memory.Chain(c[..last], s[last..i], r, Replaced(s, i + |f|, f, r), c[..last] + s[last..i] + r,
                 s[last..i] + r + Replaced(s, i + |f|, f, r));
  }

  lemma Rest(s: seq<byte>, last: nat, f: seq<byte>, r: seq<byte>)
    requires last <= |s| && |f| > 0 && FirstMatch(s, last, f) == |s|
    ensures Replaced(s, last, f, r) == s[last..]
  {
  }

  /** Where the find string no longer fits there is nothing to replace. */
  lemma NoRoom(s: seq<byte>, pos: nat, f: seq<byte>, r: seq<byte>)
    requires pos <= |s| < pos + |f|
    ensures FirstMatch(s, pos, f) == |s| && s[..pos] + Replaced(s, pos, f, r) == s
  {
    FirstMatchIs(s, pos, f, |s|);
    Rest(s, pos, f, r);
  }

  lemma Spliced(c: seq<byte>, i: nat, r: seq<byte>, c': seq<byte>)
    requires i + |r| <= |c| && c' == Memory.Overwritten(c, i, r)
    ensures c'[..i + |r|] == c[..i] + r && c'[i + |r|..] == c[i + |r|..]
  {
  }

  /** Shrinking, up to pos: what has been written, and the unread text, untouched. */
  ghost predicate Shrunk(s: seq<byte>, pos0: nat, f: seq<byte>, r: seq<byte>, c: seq<byte>, pos: nat, acc: nat)
    requires pos0 <= |s| && |f| > 0
  {
    && |c| == |s| && acc <= pos <= |s| && c[pos..] == s[pos..]
    && c[..pos - acc] + Replaced(s, pos, f, r) == s[..pos0] + Replaced(s, pos0, f, r)
  }

  /** The kept text moves down by acc, then the replacement follows it; the unread text is not touched. */
  lemma ShrinkBytes(c: seq<byte>, c1: seq<byte>, c2: seq<byte>, pos: nat, i: nat, acc: nat, n: nat, r: seq<byte>)
    requires acc <= pos <= i && i + n <= |c| && |r| < n
    requires c1 == if acc > 0 && i > pos then Memory.Overwritten(c, pos - acc, c[pos..i]) else c
    requires c2 == if |r| > 0 then Memory.Overwritten(c1, i - acc, r) else c1
    ensures |c2| == |c| && c2[i + n..] == c[i + n..]
    ensures c2[..i + |r| - acc] == c[..pos - acc] + c[pos..i] + r
  {
    hide Memory.Overwritten;
    Moved(c, pos - acc, pos, i - pos, c1);
    SameTail(c1, c, i, i + n, |c|);
    Written(c1, i - acc, r, c2);
    SameTail(c2, c1, i - acc + |r|, i + n, |c|);
  }

  lemma ShrinkStep(s: seq<byte>, pos0: nat, f: seq<byte>, r: seq<byte>, c: seq<byte>, c1: seq<byte>, c2: seq<byte>,
                   pos: nat, i: nat, acc: nat)
    requires pos0 <= |s| && |f| > 0 && Shrunk(s, pos0, f, r, c, pos, acc) && |r| < |f|
      && i == FirstMatch(s, pos, f) < |s|
    requires c1 == if acc > 0 && i > pos then Memory.Overwritten(c, pos - acc, c[pos..i]) else c
    requires c2 == if |r| > 0 then Memory.Overwritten(c1, i - acc, r) else c1
    ensures Shrunk(s, pos0, f, r, c2, i + |f|, acc + (|f| - |r|))
  {
    assert i + |f| <= |s|;
    hide Memory.Overwritten, Replaced, FirstMatch, MatchAt;
    assert |c2| == |s| && c2[i + |f|..] == s[i + |f|..] by {
      ShrinkBytes(c, c1, c2, pos, i, acc, |f|, r);
      SameTail(c, s, pos, i + |f|, |s|);
    }
    assert c2[..i + |r| - acc] + Replaced(s, i + |f|, f, r) == c[..pos - acc] + Replaced(s, pos, f, r) by {
      ShrinkBytes(c, c1, c2, pos, i, acc, |f|, r);
      SameTail(c, s, pos, pos, i);
      ReplacedFrom(s, pos, f, r);
      Memory.Chain(c[..pos - acc], s[pos..i], r, Replaced(s, i + |f|, f, r), c2[..i + |r| - acc],
        Replaced(s, pos, f, r));
    }
  }

  lemma ReplacedFrom(s: seq<byte>, pos: nat, f: seq<byte>, r: seq<byte>)
    requires pos <= |s| && |f| > 0 && FirstMatch(s, pos, f) < |s|
    ensures var i := FirstMatch(s, pos, f); Replaced(s, pos, f, r) == s[pos..i] + r + Replaced(s, i + |f|, f, r)
  {
  }

  lemma Written(c: seq<byte>, i: nat, r: seq<byte>, c': seq<byte>)
    requires i + |r| <= |c| && c' == if |r| > 0 then Memory.Overwritten(c, i, r) else c
    ensures |c'| == |c| && c'[..i + |r|] == c[..i] + r && c'[i + |r|..] == c[i + |r|..]
  {
  }

  lemma Moved(c: seq<byte>, to: nat, from: nat, n: nat, c1: seq<byte>)
    requires to <= from && from + n <= |c|
    requires c1 == if from > to && n > 0 then Memory.Overwritten(c, to, c[from..from + n]) else c
    ensures |c1| == |c| && c1[..to + n] == c[..to] + c[from..from + n] && c1[from + n..] == c[from + n..]
  {
    if from > to && n > 0 {
      var p := c[from..from + n];
      assert |p| == n;
      Written(c, to, p, c1);
      SameTail(c1, c, to + n, from + n, |c|);
    } else if n == 0 {
      assert c[from..from + n] == [];
      assert c[..to + n] == c[..to];
    } else {
      assert c[..to + n] == c[..to] + c[to..to + n];
    }
  }

  lemma Terminated(whole: seq<byte>, k: nat, n: nat)
    requires k < |whole| && k <= n <= |whole|
    ensures whole[k := 0][..k] == whole[..n][..k]
  {
  }

  lemma ShrinkEnd(s: seq<byte>, pos0: nat, f: seq<byte>, r: seq<byte>, c: seq<byte>, pos: nat, acc: nat)
    requires pos0 <= |s| && |f| > 0 && Shrunk(s, pos0, f, r, c, pos, acc) && FirstMatch(s, pos, f) == |s|
    ensures c[..pos - acc] + c[pos..] == s[..pos0] + Replaced(s, pos0, f, r)
  {
    Rest(s, pos, f, r);
  }

  // ----- expanding -----

  function Times(n: nat, k: int): int
  {
    if n == 0 then 0 else Times(n - 1, k) + k
  }

  lemma {:induction false} TimesPositive(n: nat, k: nat)
    ensures Times(n, k) >= 0
  {
    if n > 0 {
      TimesPositive(n - 1, k);
    }
  }

  /** The scan has found the first matches, up to pos. */
  ghost predicate Scanned(s: seq<byte>, pos0: nat, f: seq<byte>, d: seq<nat>, pos: nat)
    requires pos0 <= |s| && |f| > 0
  {
    pos <= |s| && Matches(s, pos0, f) == d + Matches(s, pos, f)
  }

  lemma ScanStep(s: seq<byte>, pos0: nat, f: seq<byte>, d: seq<nat>, pos: nat)
    requires pos0 <= |s| && |f| > 0 && Scanned(s, pos0, f, d, pos) && FirstMatch(s, pos, f) < |s|
    ensures Scanned(s, pos0, f, d + [FirstMatch(s, pos, f)], FirstMatch(s, pos, f) + |f|)
  {
  }

  lemma ScanDone(s: seq<byte>, pos0: nat, f: seq<byte>, d: seq<nat>, pos: nat)
    requires pos0 <= |s| && |f| > 0 && Scanned(s, pos0, f, d, pos) && FirstMatch(s, pos, f) == |s|
    ensures Matches(s, pos0, f) == d
  {
  }

  /** Match positions with the end of the text as a sentinel. */
  function Ends(s: seq<byte>, pos: nat, f: seq<byte>): seq<nat>
    requires pos <= |s| && |f| > 0
  {
    Matches(s, pos, f) + [|s|]
  }

  /** The match positions are in order, each found by the search from the end of the one before. */
  lemma {:induction false} EndsInOrder(s: seq<byte>, pos: nat, f: seq<byte>, i: nat)
    requires pos <= |s| && |f| > 0 && i < |Matches(s, pos, f)|
    ensures var d := Ends(s, pos, f);
      && pos <= d[i] && d[i] + |f| <= d[i + 1] <= |s| && MatchAt(s, d[i], f)
      && FirstMatch(s, d[i] + |f|, f) == d[i + 1]
    decreases i
  {
    var m := FirstMatch(s, pos, f);
    var rest := Ends(s, m + |f|, f);
    assert Ends(s, pos, f) == [m] + rest;
    if i > 0 {
      EndsInOrder(s, m + |f|, f, i - 1);
    }
  }

  /** A search that starts at its own result stays there. */
  lemma SearchAgain(s: seq<byte>, pos: nat, f: seq<byte>)
    requires pos <= |s| && |f| > 0
    ensures FirstMatch(s, FirstMatch(s, pos, f), f) == FirstMatch(s, pos, f)
  {
    FirstMatchIs(s, FirstMatch(s, pos, f), f, FirstMatch(s, pos, f));
  }

  /** The replaced text splits at the first match. */
  lemma ReplacedSplit(s: seq<byte>, pos: nat, f: seq<byte>, r: seq<byte>)
    requires pos <= |s| && |f| > 0
    ensures var i := FirstMatch(s, pos, f); Replaced(s, pos, f, r) == s[pos..i] + Replaced(s, i, f, r)
  {
    hide Replaced, FirstMatch, MatchAt;
    var i := FirstMatch(s, pos, f);
    MatchInside(s, pos, f);
    SearchAgain(s, pos, f);
    if i < |s| {
      ReplacedFrom(s, pos, f, r);
      ReplacedFrom(s, i, f, r);
      Memory.SplitParts(s[pos..i], s[i..i], r, Replaced(s, i + |f|, f, r), Replaced(s, pos, f, r),
        Replaced(s, i, f, r));
    } else {
      Rest(s, pos, f, r);
      Rest(s, i, f, r);
    }
  }

  /** Expanding, back to the i-th match: the text before it is untouched, what follows it is final. */
  ghost predicate Expanded(s: seq<byte>, pos0: nat, f: seq<byte>, r: seq<byte>, c: seq<byte>, i: nat, acc: int)
    requires pos0 <= |s| && 0 < |f|
  {
    && i < |Ends(s, pos0, f)|
    && var m := Ends(s, pos0, f)[i];
    && m <= |s| && acc == Times(i, |r| - |f|) && 0 <= acc && m + acc <= |c|
    && m <= |c| && c[..m] == s[..m] && c[m + acc..] == Replaced(s, m, f, r)
  }

  lemma ExpandBytes(c: seq<byte>, c1: seq<byte>, c2: seq<byte>, m: nat, s0: nat, e: nat, acc: nat, r: seq<byte>)
    requires m < s0 <= e && e + acc <= |c| && |r| - (s0 - m) <= acc && s0 - m < |r|
    requires c1 == if e > s0 then Memory.Overwritten(c, s0 + acc, c[s0..e]) else c
    requires c2 == Memory.Overwritten(c1, s0 + acc - |r|, r)
    ensures |c2| == |c| && c2[..m] == c[..m]
    ensures c2[s0 + acc - |r|..] == r + c[s0..e] + c[e + acc..]
  {
    assert c1[s0 + acc..] == c[s0..e] + c[e + acc..];
    assert c2[s0 + acc - |r|..] == r + c1[s0 + acc..];
    Memory.Regroup(r, c[s0..e], c[e + acc..]);
  }

  lemma ExpandStep(s: seq<byte>, pos0: nat, f: seq<byte>, r: seq<byte>, c: seq<byte>, c1: seq<byte>, c2: seq<byte>,
                   i: nat, acc: int, from: nat, l: nat)
    requires pos0 <= |s| && 0 < |f| < |r| && Expanded(s, pos0, f, r, c, i + 1, acc) && acc >= |r| - |f|
    requires var d := Ends(s, pos0, f); from == d[i] + |f| && from + l == d[i + 1]
    requires c1 == (if l > 0 then Memory.Overwritten(c, from + acc, c[from..from + l]) else c)
    requires from + acc <= |c| && c2 == Memory.Overwritten(c1, from + acc - |r|, r)
    ensures Expanded(s, pos0, f, r, c2, i, acc - (|r| - |f|))
  {
    hide Memory.Overwritten, Replaced, FirstMatch, MatchAt, Matches;
    var d := Ends(s, pos0, f);
    var m, e := d[i], d[i + 1];
    assert c[e + acc..] == Replaced(s, e, f, r);
    EndsInOrder(s, pos0, f, i);
    TimesPositive(i, |r| - |f|);
    assert c2[..m] == s[..m] by {
      ExpandBytes(c, c1, c2, m, from, e, acc, r);
      Prefix(c, s, m, e, m);
    }
    assert c2[from + acc - |r|..] == Replaced(s, m, f, r) && |c2| == |c| by {
      ExpandBytes(c, c1, c2, m, from, e, acc, r);
      Prefix(c, s, from, e, m);
      ReplacedAt(s, m, f, r);
    }
  }

  lemma ExpandRoom(s: seq<byte>, pos0: nat, f: seq<byte>, r: seq<byte>, c: seq<byte>, i: nat, acc: nat)
    requires pos0 <= |s| && 0 < |f| < |r| && i + 1 < |Ends(s, pos0, f)| && Expanded(s, pos0, f, r, c, i + 1, acc)
    ensures var d := Ends(s, pos0, f); d[i] + |f| <= d[i + 1] && d[i + 1] + acc <= |c| && acc >= |r| - |f|
  {
    EndsInOrder(s, pos0, f, i);
    TimesPositive(i, |r| - |f|);
  }

  lemma Prefix(c: seq<byte>, s: seq<byte>, a: nat, e: nat, m: nat)
    requires m <= e && a <= e <= |c| && e <= |s| && c[..e] == s[..e]
    ensures c[a..e] == s[a..e] && c[..m] == s[..m]
  {
    assert c[a..e] == c[..e][a..] && s[a..e] == s[..e][a..];
    assert c[..m] == c[..e][..m] && s[..m] == s[..e][..m];
  }

  /** The replaced text at a match: the replacement, the text to the next match, and so on. */
  lemma ReplacedAt(s: seq<byte>, m: nat, f: seq<byte>, r: seq<byte>)
    requires |f| > 0 && MatchAt(s, m, f)
    ensures var e := FirstMatch(s, m + |f|, f); Replaced(s, m, f, r) == r + s[m + |f|..e] + Replaced(s, e, f, r)
  {
    hide Replaced;
    var e := FirstMatch(s, m + |f|, f);
    MatchHere(s, m, f);
    ReplacedFrom(s, m, f, r);
    ReplacedSplit(s, m + |f|, f, r);
    Memory.EmptyPart(s[m..m], r, Replaced(s, m + |f|, f, r));
    Memory.Regroup(r, s[m + |f|..e], Replaced(s, e, f, r));
  }

  lemma MatchInside(s: seq<byte>, pos: nat, f: seq<byte>)
    requires pos <= |s| && |f| > 0
    ensures pos <= FirstMatch(s, pos, f) && (FirstMatch(s, pos, f) < |s| ==> FirstMatch(s, pos, f) + |f| <= |s|)
  {
  }

  lemma MatchHere(s: seq<byte>, m: nat, f: seq<byte>)
    requires |f| > 0 && MatchAt(s, m, f)
    ensures FirstMatch(s, m, f) == m
  {
  }

  lemma ExpandStart(s: seq<byte>, pos0: nat, f: seq<byte>, r: seq<byte>, c: seq<byte>, acc: int)
    requires pos0 <= |s| && 0 < |f| < |r| && |s| <= |c| && c[..|s|] == s
    requires acc == Times(|Matches(s, pos0, f)|, |r| - |f|) && |c| == |s| + acc
    ensures Expanded(s, pos0, f, r, c, |Matches(s, pos0, f)|, acc)
  {
    assert Replaced(s, |s|, f, r) == [];
    assert c[..|s|] == s[..|s|];
  }

  lemma ExpandEnd(s: seq<byte>, pos0: nat, f: seq<byte>, r: seq<byte>, c: seq<byte>, acc: int)
    requires pos0 <= |s| && 0 < |f| < |r| && Expanded(s, pos0, f, r, c, 0, acc)
    ensures c == s[..pos0] + Replaced(s, pos0, f, r)
  {
    hide Replaced, MatchAt;
    var m := Ends(s, pos0, f)[0];
    assert m == FirstMatch(s, pos0, f);
    hide FirstMatch, Matches;
    ReplacedSplit(s, pos0, f, r);
    Glue(c, s, pos0, m);
  }

  lemma Glue(c: seq<byte>, s: seq<byte>, p: nat, m: nat)
    requires p <= m <= |c| && m <= |s| && c[..m] == s[..m]
    ensures c == s[..p] + (s[p..m] + c[m..])
  {
    assert s[..m] == s[..p] + s[p..m];
  }

  lemma LengthStep(n: nat, f: nat, r: nat, rest: int)
    ensures r + (rest + n * (r - f)) == rest + f + (n + 1) * (r - f)
  {
  }

  /** The length changes by the number of matches times the difference of the lengths. */
  lemma {:induction false} ReplacedLength(s: seq<byte>, pos: nat, f: seq<byte>, r: seq<byte>)
    requires pos <= |s| && |f| > 0
    ensures |Replaced(s, pos, f, r)| == |s| - pos + |Matches(s, pos, f)| * (|r| - |f|)
    decreases |s| - pos
  {
    hide Replaced;
    var i := FirstMatch(s, pos, f);
    if i < |s| {
      MatchInside(s, pos, f);
      ReplacedFrom(s, pos, f, r);
      ReplacedLength(s, i + |f|, f, r);
      LengthStep(|Matches(s, i + |f|, f)|, |f|, |r|, |s| - i - |f|);
    } else {
      Rest(s, pos, f, r);
    }
  }

  /** Replacing a string by itself changes nothing. */
  lemma {:induction false} ReplaceSelf(s: seq<byte>, pos: nat, f: seq<byte>)
    requires pos <= |s| && |f| > 0
    ensures Replaced(s, pos, f, f) == s[pos..]
    decreases |s| - pos
  {
    hide Replaced;
    var i := FirstMatch(s, pos, f);
    if i < |s| {
      assert s[i..i + |f|] == f;
      hide FirstMatch;
      ReplacedFrom(s, pos, f, f);
      ReplaceSelf(s, i + |f|, f);
      assert s[pos..] == s[pos..i] + s[i..i + |f|] + s[i + |f|..];
    } else {
      Rest(s, pos, f, f);
    }
  }

  // ----- the string -----

  const BSTR_OK := 0
  const BSTR_ERR := -1

  /** p doubled until it is above i. */
  function PowerAbove(p: nat, i: nat): (q: nat)
    requires p > 0
    ensures q > i && q >= p
    decreases if p > i then 0 else i - p + 1
  {
    if p > i then p else PowerAbove(2 * p, i)
  }

  function SnapUpSize(i: nat): (size: nat)
    ensures size >= i
  {
    if i < 8 then 8 else PowerAbove(1, i)
  }

  lemma {:induction false} PowerAboveIs(n: nat, i: nat) returns (k: nat)
    requires Pow2(n) <= 2 * i
    ensures PowerAbove(Pow2(n), i) == Pow2(k) && i < Pow2(k) <= 2 * i
    decreases if Pow2(n) > i then 0 else i - Pow2(n) + 1
  {
    if Pow2(n) > i {
      k := n;
    } else {
      k := PowerAboveIs(n + 1, i);
    }
  }

  /** A block is a power of two, at least 8, and less than twice the least size that would do. */
  lemma SnapIsLeast(i: nat) returns (k: nat)
    ensures SnapUpSize(i) == Pow2(k) && k >= 3
    ensures i < SnapUpSize(i) && (SnapUpSize(i) > 8 ==> SnapUpSize(i) <= 2 * i)
  {
    Powers();
    if i < 8 {
      k := 3;
    } else {
      k := PowerAboveIs(0, i);
      assert Pow2(0) == 1 && Pow2(1) == 2 && Pow2(2) == 4;
    }
  }

  class BString {
    var data: array<byte>
    var slen: nat

    ghost predicate Valid()
      reads this
    {
      slen <= data.Length && data.Length > 0
    }

    ghost function Contents(): seq<byte>
      requires Valid()
      reads this, data
    {
      data[..slen]
    }

    constructor (text: seq<byte>)
      ensures Valid() && Contents() == text && fresh(data)
    {
      data := new byte[SnapUpSize(|text| + 1)](i => if 0 <= i < |text| then text[i] else 0);
      slen := |text|;
    }

    /** Makes room for len bytes, moving the text when the block is too small. */
    method Balloc(len: nat)
      requires Valid() && len > 0
      modifies this`data
      ensures Valid() && Contents() == old(Contents()) && data.Length >= len
      ensures data.Length
           == if len >= old(data.Length) && SnapUpSize(len) > old(data.Length) then SnapUpSize(len)
             else old(data.Length)
      ensures data == old(data) || fresh(data)
    {
      if len >= data.Length {
        var size := SnapUpSize(len);
        if size <= data.Length {
          return;
        }
        var x := new byte[size](_ => 0);
        Memory.Copy(x, 0, data[..slen]);
        data := x;
      }
    }

    /** Brute-force search from pos on; BSTR_ERR when there is no match. */
    method Binstr(pos: int, f: seq<byte>) returns (r: int)
      requires Valid()
      ensures r == if pos < 0 || pos > slen then BSTR_ERR else if f == [] then pos
                   else if FirstMatch(Contents(), pos, f) == slen then BSTR_ERR
                   else FirstMatch(Contents(), pos, f)
    {
      ghost var s := Contents();
      if slen == pos {
        return if |f| == 0 then pos else BSTR_ERR;
      }
      if slen < pos || pos < 0 {
        return BSTR_ERR;
      }
      if |f| == 0 {
        return pos;
      }
      var l := slen - |f| + 1;
      if l <= pos {
        FirstMatchIs(s, pos, f, slen);
        return BSTR_ERR;
      }
      var i, j := pos, 0;
      while true
        invariant pos <= i < l && j < |f|
        invariant s[i..i + j] == f[..j]
        invariant forall k :: pos <= k < i ==> !MatchAt(s, k, f)
        decreases l - i, |f| - j
      {
        if f[j] == data[i + j] {
          assert s[i + j] == data[i + j];
          MatchMore(s, i, f, j);
          j := j + 1;
          if j >= |f| {
            assert MatchAt(s, i, f);
            FirstMatchIs(s, pos, f, i);
            return i;
          }
        } else {
          assert s[i + j] == data[i + j];
          Mismatch(s, i, f, j);
          i := i + 1;
          if i >= l {
            break;
          }
          j := 0;
        }
      }
      FirstMatchIs(s, pos, f, slen);
      return BSTR_ERR;
    }

    /** findreplaceengine, with separate find and replacement strings. */
    method FindReplaceEngine(find: seq<byte>, repl: seq<byte>, pos: int) returns (ret: int)
      requires Valid()
      modifies this, data
      ensures Valid()
      ensures ret == if pos < 0 || find == [] then BSTR_ERR else BSTR_OK
      ensures ret == BSTR_OK && pos <= old(slen) ==>
                Contents() == old(Contents())[..pos] + Replaced(old(Contents()), pos, find, repl)
      ensures ret == BSTR_ERR || pos > old(slen) ==> Contents() == old(Contents())
    {
      if pos < 0 || |find| == 0 {
        return BSTR_ERR;
      }
      if pos > slen - |find| {
        if pos <= slen {
          NoRoom(Contents(), pos, find, repl);
        }
        return BSTR_OK;
      }
      if |find| == |repl| {
        ReplaceEqual(find, repl, pos);
      } else if |find| > |repl| {
        ReplaceShrinking(find, repl, pos);
      } else {
        ReplaceExpanding(find, repl, pos);
      }
      return BSTR_OK;
    }

    method WriteAt(at: nat, src: seq<byte>)
      requires Valid() && at + |src| <= slen
      modifies data
      ensures Contents() == Memory.Overwritten(old(Contents()), at, src)
    {
      Memory.Copy(data, at, src);
    }

    /** Equal lengths: each match is overwritten where it stands. */
    method ReplaceEqual(find: seq<byte>, repl: seq<byte>, pos0: nat)
      requires Valid() && 0 < |find| == |repl| && pos0 <= slen
      modifies data
      ensures Contents() == old(Contents())[..pos0] + Replaced(old(Contents()), pos0, find, repl)
    {
      hide Replaced, FirstMatch, Memory.Overwritten;
      ghost var s := Contents();
      var pos: int := pos0;
      ghost var last := pos0;
      while true
        invariant pos == last <= slen == |s|
        invariant Contents()[last..] == s[last..]
        invariant Contents()[..last] + Replaced(s, last, find, repl) == s[..pos0] + Replaced(s, pos0, find, repl)
        decreases slen - last
      {
        ghost var c := Contents();
        pos := Binstr(pos, find);
        SearchAhead(c, s, last, find);
        if pos < 0 {
          break;
        }
        WriteAt(pos, repl);
        EqualStep(s, c, Contents(), last, pos, find, repl);
        pos := pos + |find|;
        last := pos;
      }
      Rest(s, last, find, repl);
      assert Contents() == Contents()[..last] + Contents()[last..];
    }

    method MoveText(to: nat, from: nat, n: nat)
      requires Valid() && to + n <= slen && from + n <= slen
      modifies data
      ensures Contents() == Memory.Overwritten(old(Contents()), to, old(Contents())[from..from + n])
    {
      assert data[from..from + n] == Contents()[from..from + n];
      Memory.Move(data, to, from, n);
    }

    /** Shrinking: the text between matches moves down behind the replacements. */
    method ReplaceShrinking(find: seq<byte>, repl: seq<byte>, pos0: nat)
      requires Valid() && |repl| < |find| && pos0 <= slen
      modifies this`slen, data
      ensures Valid() && Contents() == old(Contents())[..pos0] + Replaced(old(Contents()), pos0, find, repl)
    {
      hide Replaced, FirstMatch, Memory.Overwritten;
      ghost var s := Contents();
      var delta := |find| - |repl|;
      var acc: nat := 0;
      var pos: nat := pos0;
      while true
        invariant slen == |s| && data == old(data)
        invariant acc <= pos <= slen && Shrunk(s, pos0, find, repl, Contents(), pos, acc)
        decreases slen - pos
      {
        var i := Binstr(pos, find);
        SearchAhead(Contents(), s, pos, find);
        if i < 0 {
          break;
        }
        ShrinkOne(s, pos0, find, repl, pos, i, acc);
        acc := acc + delta;
        pos := i + |find|;
      }
      ShrinkEnd(s, pos0, find, repl, Contents(), pos, acc);
      CutBack(pos, acc);
    }

    /** One turn of the shrinking loop. */
    method ShrinkOne(ghost s: seq<byte>, ghost pos0: nat, find: seq<byte>, repl: seq<byte>, pos: nat, i: nat, acc: nat)
      requires Valid() && pos0 <= |s| && |repl| < |find| && Shrunk(s, pos0, find, repl, Contents(), pos, acc)
      requires i == FirstMatch(s, pos, find) < |s|
      modifies data
      ensures Shrunk(s, pos0, find, repl, Contents(), i + |find|, acc + (|find| - |repl|))
    {
      assert pos <= i && i + |find| <= |s| == slen && acc <= pos;
      hide Replaced, FirstMatch, Memory.Overwritten, MatchAt, Shrunk;
      ghost var c := Contents();
      MoveKept(pos, i, acc);
      ghost var c1 := Contents();
      if |repl| > 0 {
        WriteAt(i - acc, repl);
      }
      ShrinkStep(s, pos0, find, repl, c, c1, Contents(), pos, i, acc);
    }

    /** The kept text between two matches moves down by acc. */
    method MoveKept(pos: nat, i: nat, acc: nat)
      requires Valid() && acc <= pos <= i <= slen
      modifies data
      ensures Contents() == if acc > 0 && i > pos
        then Memory.Overwritten(old(Contents()), pos - acc, old(Contents())[pos..i])
                            else old(Contents())
    {
      if acc > 0 && i > pos {
        MoveText(pos - acc, pos, i - pos);
      }
    }

    /** The end of the shrinking form: the last stretch of text moves down by acc. */
    method CutBack(pos: nat, acc: nat)
      requires Valid() && acc <= pos <= slen
      modifies this`slen, data
      ensures Valid() && Contents() == old(Contents())[..pos - acc] + old(Contents())[pos..]
    {
      hide Memory.Overwritten;
      ghost var c := Contents();
      if acc > 0 {
        var i := slen;
        MoveKept(pos, i, acc);
        Moved(c, pos - acc, pos, i - pos, Contents());
        assert Contents()[..i - acc] == c[..pos - acc] + c[pos..];
        ghost var whole := data[..];
        slen := slen - acc;
        data[slen] := 0;
        Terminated(whole, slen, i);
        assert data[..] == whole[slen := 0];
      }
    }

    /** Expanding: the matches are listed first, then the text between them moves up, last stretch first. */
    method ReplaceExpanding(find: seq<byte>, repl: seq<byte>, pos0: nat)
      requires Valid() && 0 < |find| < |repl| && pos0 <= slen
      modifies this, data
      ensures Valid() && Contents() == old(Contents())[..pos0] + Replaced(old(Contents()), pos0, find, repl)
    {
      hide Replaced, FirstMatch, MatchAt, Matches, Memory.Overwritten, Expanded, Times;
      ghost var s := Contents();
      var d: seq<nat>, acc := ScanMatches(find, |repl| - |find|, pos0);
      TimesPositive(|Matches(s, pos0, find)|, |repl| - |find|);
      var n := |d| - 1;
      Balloc(slen + acc + 1);
      slen := slen + acc;
      assert Contents()[..|s|] == s;
      ExpandStart(s, pos0, find, repl, Contents(), acc);
      var i := n;
      while i > 0
        invariant 0 <= i <= n && slen < data.Length && (data == old(data) || fresh(data))
        invariant Expanded(s, pos0, find, repl, Contents(), i, acc)
        invariant |Contents()| == slen
      {
        i := i - 1;
        acc := ExpandOne(s, pos0, find, repl, d, i, acc);
      }
      ExpandEnd(s, pos0, find, repl, Contents(), acc);
      ghost var c := Contents();
      data[slen] := 0;
      assert Contents() == c;
    }

    /** The first pass: the positions of the matches, the end of the text behind them, and the growth. */
    method ScanMatches(find: seq<byte>, growth: nat, pos0: nat) returns (d: seq<nat>, acc: nat)
      requires Valid() && 0 < |find| && pos0 <= slen
      ensures d == Ends(Contents(), pos0, find)
      ensures acc == Times(|Matches(Contents(), pos0, find)|, growth)
    {
      hide Matches, MatchAt, FirstMatch;
      ghost var s := Contents();
      d, acc := [], 0;
      var pos: int := pos0;
      while true
        invariant 0 <= pos <= slen && Scanned(s, pos0, find, d, pos)
        invariant acc == Times(|d|, growth)
        decreases slen - pos
      {
        hide Scanned;
        ghost var last := pos;
        pos := Binstr(pos, find);
        if pos < 0 {
          ScanDone(s, pos0, find, d, last);
          break;
        }
        ScanStep(s, pos0, find, d, last);
        assert last <= pos && pos + |find| <= slen by {
          MatchInside(s, last, find);
        }
        d := d + [pos];
        acc := acc + growth;
        pos := pos + |find|;
      }
      d := d + [slen];
    }

    /** One turn of the second pass. */
    method ExpandOne(ghost s: seq<byte>, ghost pos0: nat, find: seq<byte>, repl: seq<byte>, d: seq<nat>, i: nat,
                     acc0: nat)
      returns (acc: nat)
      requires Valid() && pos0 <= |s| && 0 < |find| < |repl| && i + 1 < |d| && d == Ends(s, pos0, find)
      requires Expanded(s, pos0, find, repl, Contents(), i + 1, acc0)
      modifies data
      ensures Expanded(s, pos0, find, repl, Contents(), i, acc)
    {
      ExpandRoom(s, pos0, find, repl, Contents(), i, acc0);
      hide Expanded, Memory.Overwritten, Ends;
      ghost var c := Contents();
      var from := d[i] + |find|;
      var l := d[i + 1] - from;
      if l > 0 {
        MoveText(from + acc0, from, l);
      }
      ghost var c1 := Contents();
      WriteAt(from + acc0 - |repl|, repl);
      ExpandStep(s, pos0, find, repl, c, c1, Contents(), i, acc0, from, l);
      acc := acc0 - (|repl| - |find|);
    }
  }
}

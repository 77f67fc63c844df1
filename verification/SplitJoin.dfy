/** Splitting a string at a character and joining pieces with a separator. */
module SplitJoin {
  import opened Bits
  import opened FindReplace
  import Memory

  // ----- what is computed -----

  /** The first c at or after p, or the end of the text. */
  function FirstChar(s: seq<byte>, c: byte, p: nat): (i: nat)
    requires p <= |s|
    ensures p <= i <= |s| && (i < |s| ==> s[i] == c)
    ensures forall j :: p <= j < i ==> s[j] != c
    decreases |s| - p
  {
    if p == |s| || s[p] == c then p else FirstChar(s, c, p + 1)
  }

  function Split(s: seq<byte>, c: byte, p: nat): seq<seq<byte>>
    requires p <= |s|
    decreases |s| - p
  {
    var i := FirstChar(s, c, p);
    if i == |s| then [s[p..]] else [s[p..i]] + Split(s, c, i + 1)
  }

  function Join(ps: seq<seq<byte>>, sep: seq<byte>): seq<byte>
  {
    if ps == [] then [] else if |ps| == 1 then ps[0] else ps[0] + sep + Join(ps[1..], sep)
  }

  function Count(s: seq<byte>, c: byte, p: nat): nat
    requires p <= |s|
    decreases |s| - p
  {
    if p == |s| then 0 else (if s[p] == c then 1 else 0) + Count(s, c, p + 1)
  }

  // ----- the laws -----

  lemma {:induction false} CountSkips(s: seq<byte>, c: byte, p: nat)
    requires p <= |s|
    ensures var i := FirstChar(s, c, p); Count(s, c, p) == if i == |s| then 0 else 1 + Count(s, c, i + 1)
    decreases |s| - p
  {
    if p < |s| && s[p] != c {
      CountSkips(s, c, p + 1);
    }
  }

  /** There is one more piece than separators, no piece holds one, and joining the pieces gives the text back. */
  lemma {:induction false} JoinSplit(s: seq<byte>, c: byte, p: nat)
    requires p <= |s|
    ensures |Split(s, c, p)| == Count(s, c, p) + 1
    ensures forall k :: 0 <= k < |Split(s, c, p)| ==> c !in Split(s, c, p)[k]
    ensures Join(Split(s, c, p), [c]) == s[p..]
    decreases |s| - p
  {
    hide Join, Split, Count;
    var i := FirstChar(s, c, p);
    CountSkips(s, c, p);
    SplitCons(s, c, p, [c]);
    if i < |s| {
      JoinSplit(s, c, i + 1);
      assert s[p..] == s[p..i] + [c] + s[i + 1..];
    }
  }

  /** The first piece, and the others. */
  lemma SplitCons(s: seq<byte>, c: byte, p: nat, sep: seq<byte>)
    requires p <= |s|
    ensures var i := FirstChar(s, c, p);
      if i == |s| then Split(s, c, p) == [s[p..]] && Join(Split(s, c, p), sep) == s[p..]
      else
        && Split(s, c, p) == [s[p..i]] + Split(s, c, i + 1)
        && Join(Split(s, c, p), sep) == s[p..i] + sep + Join(Split(s, c, i + 1), sep)
  {
    var i := FirstChar(s, c, p);
    if i < |s| {
      var rest := Split(s, c, i + 1);
      assert rest != [] by {
        assert FirstChar(s, c, i + 1) <= |s|;
      }
      assert ([s[p..i]] + rest)[1..] == rest;
    }
  }

  lemma FirstCharIs(s: seq<byte>, c: byte, p: nat, i: nat)
    requires p <= i <= |s| && (i < |s| ==> s[i] == c) && forall j :: p <= j < i ==> s[j] != c
    ensures FirstChar(s, c, p) == i
  {
  }

  /** Splitting only looks at the text from p on. */
  lemma {:induction false} SplitShift(u: seq<byte>, s: seq<byte>, n: nat, c: byte, p: nat)
    requires n + |s| == |u| && u[n..] == s && p <= |s|
    ensures Split(u, c, n + p) == Split(s, c, p)
    decreases |s| - p
  {
    hide FirstChar, Split, Join;
    var i := FirstChar(s, c, p);
    SplitCons(s, c, p, []);
    SplitCons(u, c, n + p, []);
    FirstCharShift(u, s, n, c, p);
    Tail(u, n, n + p, n + i);
    if i < |s| {
      SplitShift(u, s, n, c, i + 1);
    } else {
      assert u[n + p..] == s[p..];
    }
  }

  lemma FirstCharShift(u: seq<byte>, s: seq<byte>, n: nat, c: byte, p: nat)
    requires n + |s| == |u| && u[n..] == s && p <= |s|
    ensures FirstChar(u, c, n + p) == n + FirstChar(s, c, p)
  {
    hide FirstChar;
    var i := FirstChar(s, c, p);
    forall j | n + p <= j < n + i
      ensures u[j] != c
    {
      assert u[j] == s[j - n];
    }
    FirstCharIs(u, c, n + p, n + i);
  }

  /** Splitting what was joined gives the pieces back, when none of them holds the separator. */
  lemma {:induction false} SplitJoined(ps: seq<seq<byte>>, c: byte)
    requires |ps| > 0 && forall k :: 0 <= k < |ps| ==> c !in ps[k]
    ensures Split(Join(ps, [c]), c, 0) == ps
  {
    var s := Join(ps, [c]);
    if |ps| == 1 {
      FirstCharIs(s, c, 0, |s|);
    } else {
      var rest := Join(ps[1..], [c]);
      assert s == (ps[0] + [c]) + rest;
      FirstCharIs(s, c, 0, |ps[0]|);
      assert s[0..|ps[0]|] == ps[0];
      SplitShift(s, rest, |ps[0]| + 1, c, 0);
      SplitJoined(ps[1..], c);
    }
  }

  /** Searching a one-character string is searching the character. */
  lemma CharMatch(s: seq<byte>, c: byte, p: nat)
    requires p <= |s|
    ensures FirstMatch(s, p, [c]) == FirstChar(s, c, p)
  {
    hide FirstMatch;
    var i := FirstChar(s, c, p);
    forall j | p <= j < i
      ensures !MatchAt(s, j, [c])
    {
      assert s[j..j + 1] == [s[j]];
    }
    assert i < |s| ==> s[i..i + 1] == [s[i]];
    FirstMatchIs(s, p, [c], i);
  }

  /** Replacing a one-character string is splitting there and joining with the replacement. */
  lemma {:induction false} ReplaceIsRejoin(s: seq<byte>, c: byte, r: seq<byte>, p: nat)
    requires p <= |s|
    ensures Replaced(s, p, [c], r) == Join(Split(s, c, p), r)
    decreases |s| - p
  {
    hide FirstMatch, MatchAt, FirstChar, Split, Join, Replaced;
    CharMatch(s, c, p);
    SplitCons(s, c, p, r);
    if FirstChar(s, c, p) < |s| {
      ReplaceIsRejoin(s, c, r, FirstChar(s, c, p) + 1);
      ReplacedFrom(s, p, [c], r);
    } else {
      Rest(s, p, [c], r);
    }
  }

  // ----- any find string -----

  /** An occurrence is a part of the text, whatever is in front of it and behind it. */
  lemma MatchIsOccurrence(s: seq<byte>, i: nat, f: seq<byte>, x: seq<byte>, y: seq<byte>)
    ensures MatchAt(x + f + y, |x|, f)
    ensures MatchAt(s, i, f) ==> s == s[..i] + f + s[i + |f|..]
  {
    assert (x + f + y)[|x|..|x| + |f|] == f;
    if MatchAt(s, i, f) {
      assert s[i..] == s[i..i + |f|] + s[i + |f|..];
    }
  }

  /** Behind x, the next f is the one that was put there. */
  predicate Clear(x: seq<byte>, f: seq<byte>)
  {
    forall j :: 0 <= j < |x| ==> !MatchAt(x + f, j, f)
  }

  predicate FreeOf(x: seq<byte>, f: seq<byte>)
  {
    forall j :: 0 <= j < |x| ==> !MatchAt(x, j, f)
  }

  lemma ClearFinds(x: seq<byte>, f: seq<byte>, y: seq<byte>)
    requires |f| > 0 && Clear(x, f)
    ensures FirstMatch(x + f + y, 0, f) == |x|
  {
    var s := x + f + y;
    forall j | 0 <= j < |x|
      ensures !MatchAt(s, j, f)
    {
      assert !MatchAt(x + f, j, f);
      assert s[j..j + |f|] == (x + f)[j..j + |f|];
    }
    MatchIsOccurrence(s, 0, f, x, y);
    FirstMatchIs(s, 0, f, |x|);
  }

  lemma FreeFinds(x: seq<byte>, f: seq<byte>)
    requires |f| > 0 && FreeOf(x, f)
    ensures FirstMatch(x, 0, f) == |x|
  {
    FirstMatchIs(x, 0, f, |x|);
  }

  lemma SearchShift(u: seq<byte>, s: seq<byte>, n: nat, f: seq<byte>, p: nat)
    requires n + |s| == |u| && u[n..] == s && p <= |s| && |f| > 0
    ensures FirstMatch(u, n + p, f) == n + FirstMatch(s, p, f)
  {
    hide FirstMatch;
    var i := FirstMatch(s, p, f);
    forall j | p <= j <= |s|
      ensures MatchAt(u, n + j, f) <==> MatchAt(s, j, f)
    {
      if j + |f| <= |s| {
        Tail(u, n, n + j, n + j + |f|);
      }
    }
    forall j | n + p <= j < n + i
      ensures !MatchAt(u, j, f)
    {
      assert !MatchAt(s, j - n, f);
    }
    FirstMatchIs(u, n + p, f, n + i);
  }

  /** Replacing only looks at the text from p on. */
  lemma {:induction false} ReplaceShift(u: seq<byte>, s: seq<byte>, n: nat, f: seq<byte>, r: seq<byte>, p: nat)
    requires n + |s| == |u| && u[n..] == s && p <= |s| && |f| > 0
    ensures Replaced(u, n + p, f, r) == Replaced(s, p, f, r)
    decreases |s| - p
  {
    hide FirstMatch, Replaced, MatchAt;
    var i := FirstMatch(s, p, f);
    SearchShift(u, s, n, f, p);
    MatchInside(s, p, f);
    Tail(u, n, n + p, n + i);
    if i < |s| {
      ReplacedFrom(s, p, f, r);
      ReplacedFrom(u, n + p, f, r);
      ReplaceShift(u, s, n, f, r, i + |f|);
    } else {
      Rest(s, p, f, r);
      Rest(u, n + p, f, r);
      assert u[n + p..] == s[p..];
    }
  }

  /** Replacing any string in pieces joined with it joins the pieces with the replacement, when searching meets exactly
      the joints. */
  lemma {:induction false} ReplaceJoined(ps: seq<seq<byte>>, f: seq<byte>, r: seq<byte>)
    requires |ps| > 0 && |f| > 0 && FreeOf(ps[|ps| - 1], f)
    requires forall k :: 0 <= k < |ps| - 1 ==> Clear(ps[k], f)
    ensures Replaced(Join(ps, f), 0, f, r) == Join(ps, r)
  {
    hide FirstMatch, Replaced, Clear, FreeOf;
    var s := Join(ps, f);
    if |ps| == 1 {
      FreeFinds(s, f);
      Rest(s, 0, f, r);
    } else {
      var x, rest := ps[0], Join(ps[1..], f);
      assert s == x + f + rest;
      assert Clear(ps[0], f);
      ClearFinds(x, f, rest);
      assert s[0..|x|] == x && s[|x| + |f|..] == rest;
      ReplacedFrom(s, 0, f, r);
      ReplaceShift(s, rest, |x| + |f|, f, r, 0);
      ReplaceJoined(ps[1..], f, r);
    }
  }

  // ----- bsplit -----

  /** bmidstr: the part is clamped to the text. */
  function Mid(s: seq<byte>, left: int, len: int): seq<byte>
  {
    var l := if left < 0 then 0 else left;
    var n := if left < 0 then len + left else len;
    var m := if n > |s| - l then |s| - l else n;
    if m <= 0 then [] else s[l..l + m]
  }

  /** The part is the positions from left on, len of them, that lie in the text. */
  lemma MidIsPart(s: seq<byte>, left: int, len: int)
    ensures var from := if left < 0 then 0 else left;
      var to := if left + len < |s| then left + len else |s|;
      Mid(s, left, len) == if from < to then s[from..to] else []
  {
  }

  /** One callback of bsplitcb adds the next piece. */
  lemma SplitOnce(s: seq<byte>, c: byte, p: nat, list: seq<seq<byte>>)
    requires p <= |s|
    ensures var i := FirstChar(s, c, p);
      list + Split(s, c, p) == list + [Mid(s, p, i - p)] + (if i == |s| then [] else Split(s, c, i + 1))
  {
    var i := FirstChar(s, c, p);
    assert Mid(s, p, i - p) == s[p..i];
    assert s[p..|s|] == s[p..];
  }

  method BSplit(str: seq<byte>, splitChar: byte) returns (list: seq<seq<byte>>)
    ensures list == Split(str, splitChar, 0)
  {
    list := [];
    var p := 0;
    while true
      invariant 0 <= p <= |str|
      invariant Split(str, splitChar, 0) == list + Split(str, splitChar, p)
      decreases |str| - p
    {
      var i := p;
      while i < |str| && str[i] != splitChar
        invariant p <= i <= |str|
        invariant forall j :: p <= j < i ==> str[j] != splitChar
      {
        i := i + 1;
      }
      FirstCharIs(str, splitChar, p, i);
      SplitOnce(str, splitChar, p, list);
      list := list + [Mid(str, p, i - p)];
      p := i + 1;
      if p > |str| {
        break;
      }
    }
  }

  // ----- bjoin -----

  /** The length bjoin computes before it allocates. */
  function JoinedLength(list: seq<seq<byte>>, sep: seq<byte>, n: nat): nat
    requires n <= |list|
    decreases n
  {
    if n == 0 then 0 else JoinedLength(list, sep, n - 1) + (if n > 1 then |sep| else 0) + |list[n - 1]|
  }

  lemma {:induction false} JoinGrows(list: seq<seq<byte>>, sep: seq<byte>, n: nat)
    requires n < |list|
    ensures Join(list[..n + 1], sep) == Join(list[..n], sep) + (if n > 0 then sep else []) + list[n]
    decreases n
  {
    if n > 0 {
      var l := list[..n + 1];
      assert l[1..][..n] == l[1..] && l[1..][..n - 1] == list[..n][1..];
      JoinGrows(l[1..], sep, n - 1);
    }
  }

  lemma {:induction false} JoinLength(list: seq<seq<byte>>, sep: seq<byte>, n: nat)
    requires n <= |list|
    ensures |Join(list[..n], sep)| == JoinedLength(list, sep, n)
    decreases n
  {
    if n > 0 {
      JoinLength(list, sep, n - 1);
      JoinGrows(list, sep, n - 1);
    }
  }

  lemma {:induction false} LengthGrows(list: seq<seq<byte>>, sep: seq<byte>, n: nat, m: nat)
    requires n <= m <= |list|
    ensures JoinedLength(list, sep, n) <= JoinedLength(list, sep, m)
    decreases m - n
  {
    if n < m {
      LengthGrows(list, sep, n, m - 1);
    }
  }

  /** The source's product form of that length. */
  lemma {:induction false} SeparatorsAdd(list: seq<seq<byte>>, sep: seq<byte>, n: nat)
    requires 0 < n <= |list|
    ensures JoinedLength(list, sep, n) == JoinedLength(list, [], n) + (n - 1) * |sep|
    decreases n
  {
    if n > 1 {
      SeparatorsAdd(list, sep, n - 1);
      assert (n - 1) * |sep| == (n - 2) * |sep| + |sep|;
    }
  }

  /** The size of the block bjoin allocates. */
  function BlockSize(list: seq<seq<byte>>, sep: seq<byte>): int
  {
    1 + JoinedLength(list, [], |list|) + (|list| - 1) * |sep|
  }

  /** The block holds the joined text and its terminator exactly when there is a piece or no separator: for an empty
      list the source counts minus one separators. */
  lemma BlockFits(list: seq<seq<byte>>, sep: seq<byte>)
    ensures BlockSize(list, sep) == |Join(list, sep)| + 1 <==> list != [] || sep == []
    ensures list == [] ==> BlockSize(list, sep) == 1 - |sep|
  {
    JoinLength(list, sep, |list|);
    assert list[..|list|] == list;
    if list != [] {
      SeparatorsAdd(list, sep, |list|);
    }
  }

  /** bjoin: a negative block size fails like a lack of memory. */
  method BJoin(list: seq<seq<byte>>, sep: seq<byte>) returns (b: BString?)
    requires list == [] ==> |sep| != 1
    ensures b == null <==> list == [] && |sep| > 1
    ensures b != null ==> fresh(b) && fresh(b.data) && b.Valid() && b.Contents() == Join(list, sep)
    ensures b != null ==> b.data.Length == b.slen + 1 && b.data[b.slen] == 0
  {
    var c := 1;
    for i := 0 to |list|
      invariant c == 1 + JoinedLength(list, [], i)
    {
      c := c + |list[i]|;
    }
    c := c + (|list| - 1) * |sep|;
    BlockFits(list, sep);
    if c < 0 {
      return null;
    }
    JoinLength(list, sep, |list|);
    assert list[..|list|] == list;
    b := new BString([]);
    b.data := new byte[c](_ => 0);
    b.slen := c - 1;
    JoinInto(b.data, list, sep);
  }

  /** The second loop of bjoin: the pieces and separators, then the terminator. */
  method JoinInto(data: array<byte>, list: seq<seq<byte>>, sep: seq<byte>)
    requires data.Length == 1 + JoinedLength(list, sep, |list|)
    modifies data
    ensures data[..data.Length - 1] == Join(list, sep) && data[data.Length - 1] == 0
  {
    assert list[..0] == [] && Join(list[..0], sep) == [];
    hide Join;
    var c := 0;
    for i := 0 to |list|
      invariant c == JoinedLength(list, sep, i) < data.Length && data[..c] == Join(list[..i], sep)
    {
      LengthGrows(list, sep, i + 1, |list|);
      JoinGrows(list, sep, i);
      ghost var done := data[..c];
      if i > 0 {
        Memory.Copy(data, c, sep);
        assert data[..c + |sep|] == done + sep;
        c := c + |sep|;
      }
      ghost var done' := data[..c];
      Memory.Copy(data, c, list[i]);
      assert data[..c + |list[i]|] == done' + list[i];
      c := c + |list[i]|;
    }
    assert list[..|list|] == list;
    data[c] := 0;
    JoinLength(list, sep, |list|);
  }
}

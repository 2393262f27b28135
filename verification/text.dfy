/** The handful of Python `str` operations the provider relies on, written over
    `string` (a sequence of Unicode scalar values, as Python's code points):
    `isspace`, `strip`/`lstrip`/`rstrip`, `startswith`/`endswith`, `in`,
    `find`, `split('\n')`/`'\n'.join`, `count` and ASCII `lower`. */
module Text {

  /** Python's `str.isspace` for one character. */
  predicate IsSpace(c: char) {
    || c == ' ' || c == '\t' || c == '\n' || c == '\r'
    || c == '\U{000B}' || c == '\U{000C}'
    || ('\U{001C}' <= c <= '\U{001F}')
    || c == '\U{0085}' || c == '\U{00A0}' || c == '\U{1680}'
    || ('\U{2000}' <= c <= '\U{200A}')
    || c == '\U{2028}' || c == '\U{2029}' || c == '\U{202F}'
    || c == '\U{205F}' || c == '\U{3000}'
  }

  /** `s` has no surrounding whitespace, i.e. `s.strip() == s`. */
  predicate IsStripped(s: string) {
    |s| == 0 || (!IsSpace(s[0]) && !IsSpace(s[|s| - 1]))
  }

  /** Python's `s.lstrip()`: drops the longest all-whitespace prefix. */
  function LStrip(s: string): (r: string)
    ensures |r| <= |s|
    ensures |r| > 0 ==> !IsSpace(r[0])
  {
    if |s| > 0 && IsSpace(s[0]) then LStrip(s[1..]) else s
  }

  /** What `lstrip` keeps is a suffix of its input. */
  lemma {:induction false} LStripSuffix(s: string)
    ensures LStrip(s) == s[|s| - |LStrip(s)|..]
    decreases |s|
  {
    if |s| > 0 && IsSpace(s[0]) {
      LStripSuffix(s[1..]);
      assert s[1..][|s| - 1 - |LStrip(s)|..] == s[|s| - |LStrip(s)|..];
    }
  }

  /** Everything `lstrip` drops is whitespace. */
  lemma {:induction false} LStripDropsSpaces(s: string)
    ensures forall i :: 0 <= i < |s| - |LStrip(s)| ==> IsSpace(s[i])
    decreases |s|
  {
    if |s| > 0 && IsSpace(s[0]) {
      LStripDropsSpaces(s[1..]);
      forall i | 1 <= i < |s| - |LStrip(s)|
        ensures IsSpace(s[i])
      {
        assert s[i] == s[1..][i - 1];
      }
    }
  }

  /** Python's `s.rstrip()`: drops the longest all-whitespace suffix. */
  function RStrip(s: string): (r: string)
    ensures |r| <= |s|
    ensures |r| > 0 ==> !IsSpace(r[|r| - 1])
  {
    if |s| > 0 && IsSpace(s[|s| - 1]) then RStrip(s[..|s| - 1]) else s
  }

  /** What `rstrip` keeps is a prefix of its input. */
  lemma {:induction false} RStripPrefix(s: string)
    ensures RStrip(s) == s[..|RStrip(s)|]
    decreases |s|
  {
    if |s| > 0 && IsSpace(s[|s| - 1]) {
      RStripPrefix(s[..|s| - 1]);
      assert s[..|s| - 1][..|RStrip(s)|] == s[..|RStrip(s)|];
    }
  }

  /** Everything `rstrip` drops is whitespace. */
  lemma {:induction false} RStripDropsSpaces(s: string)
    ensures forall i :: |RStrip(s)| <= i < |s| ==> IsSpace(s[i])
    decreases |s|
  {
    if |s| > 0 && IsSpace(s[|s| - 1]) {
      RStripDropsSpaces(s[..|s| - 1]);
      forall i | |RStrip(s)| <= i < |s| - 1
        ensures IsSpace(s[i])
      {
        assert s[i] == s[..|s| - 1][i];
      }
    }
  }

  /** Python's `s.strip()`. */
  function Strip(s: string): (r: string)
    ensures IsStripped(r)
    ensures |r| <= |s|
  {
    var l := LStrip(s);
    RStripPrefix(l);
    RStrip(l)
  }

  predicate StartsWith(s: string, p: string) {
    |p| <= |s| && s[..|p|] == p
  }

  predicate EndsWith(s: string, p: string) {
    |p| <= |s| && s[|s| - |p|..] == p
  }

  /** Python's substring test `p in s`. */
  predicate Contains(s: string, p: string)
    decreases |s|
  {
    StartsWith(s, p) || (|s| > 0 && Contains(s[1..], p))
  }

  /** Python's `s.find(c)` for one character: the first index of `c`, or -1. */
  function Find(s: string, c: char): (r: int)
    ensures -1 <= r < |s|
    ensures r >= 0 ==> s[r] == c
  {
    if |s| == 0 then -1
    else if s[0] == c then 0
    else
      var k := Find(s[1..], c);
      if k == -1 then -1 else k + 1
  }

  /** `Find` gives the first occurrence: there is none before it, and none at
      all when it answers -1. */
  lemma {:induction false} FindFirst(s: string, c: char)
    ensures Find(s, c) == -1 ==> c !in s
    ensures Find(s, c) >= 0 ==> c !in s[..Find(s, c)]
  {
    if |s| > 0 && s[0] != c {
      FindFirst(s[1..], c);
      assert s == [s[0]] + s[1..];
      var k := Find(s[1..], c);
      if k >= 0 {
        assert s[..k + 1] == [s[0]] + s[1..][..k];
      }
    }
  }

  /** `c` repeated `n` times (Python's `c * n`). */
  function Repeat(c: char, n: nat): (r: string)
    ensures |r| == n
    ensures forall i :: 0 <= i < n ==> r[i] == c
  {
    seq(n, _ => c)
  }

  /** Python's `str.lower`, restricted to ASCII letters. */
  function Lower(s: string): (r: string)
    ensures |r| == |s|
    ensures forall i :: 0 <= i < |s| ==> ('A' <= s[i] <= 'Z' ==> r[i] as int == s[i] as int + 32)
    ensures forall i :: 0 <= i < |s| ==> (!('A' <= s[i] <= 'Z') ==> r[i] == s[i])
  {
    seq(|s|, i requires 0 <= i < |s| => if 'A' <= s[i] <= 'Z' then (s[i] as int + 32) as char else s[i])
  }

  // ---------------------------------------------------------------------
  // split / join
  // ---------------------------------------------------------------------

  /** Python's `sep.join(parts)`. */
  function Join(parts: seq<string>, sep: char): string
  {
    if |parts| == 0 then ""
    else if |parts| == 1 then parts[0]
    else parts[0] + [sep] + Join(parts[1..], sep)
  }

  /** Python's `s.split(sep)` for a one-character separator: never empty. */
  function Split(s: string, sep: char): (r: seq<string>)
    ensures |r| >= 1
    decreases |s|
  {
    var k := Find(s, sep);
    if k == -1 then [s] else [s[..k]] + Split(s[k + 1..], sep)
  }

  /** No piece holds the separator. */
  predicate PiecesFree(parts: seq<string>, sep: char) {
    forall i :: 0 <= i < |parts| ==> sep !in parts[i]
  }

  lemma {:induction false} PiecesFreeCons(x: string, t: seq<string>, sep: char)
    requires sep !in x && PiecesFree(t, sep)
    ensures PiecesFree([x] + t, sep)
  {
    var r := [x] + t;
    forall i | 0 <= i < |r|
      ensures sep !in r[i]
    {
      if i > 0 {
        assert r[i] == t[i - 1];
      }
    }
  }

  lemma {:induction false} PiecesFreeTail(parts: seq<string>, sep: char)
    requires |parts| >= 1 && PiecesFree(parts, sep)
    ensures sep !in parts[0] && PiecesFree(parts[1..], sep)
  {
    var t := parts[1..];
    forall i | 0 <= i < |t|
      ensures sep !in t[i]
    {
      assert t[i] == parts[i + 1];
    }
  }

  lemma {:induction false} PiecesFreeSnoc(t: seq<string>, x: string, sep: char)
    requires PiecesFree(t, sep) && sep !in x
    ensures PiecesFree(t + [x], sep)
  {
    var r := t + [x];
    forall i | 0 <= i < |r|
      ensures sep !in r[i]
    {
      if i < |t| {
        assert r[i] == t[i];
      }
    }
  }

  /** No piece of a split holds the separator. */
  lemma {:induction false} SplitPiecesFree(s: string, sep: char)
    ensures PiecesFree(Split(s, sep), sep)
    decreases |s|
  {
    var k := Find(s, sep);
    FindFirst(s, sep);
    if k != -1 {
      SplitPiecesFree(s[k + 1..], sep);
      PiecesFreeCons(s[..k], Split(s[k + 1..], sep), sep);
    } else {
      PiecesFreeCons(s, [], sep);
      assert [s] + [] == [s];
    }
  }

  /** Joining what `Split` produced gives back the original string. */
  lemma {:induction false} JoinSplit(s: string, sep: char)
    ensures Join(Split(s, sep), sep) == s
    decreases |s|
  {
    var k := Find(s, sep);
    if k != -1 {
      var rest := s[k + 1..];
      assert Split(s, sep) == [s[..k]] + Split(rest, sep);
      JoinSplit(rest, sep);
      JoinCons(s[..k], Split(rest, sep), sep);
      Reassemble(s, k);
    }
  }

  /** A string is the part before index `k`, the character there, and the rest. */
  lemma {:induction false} Reassemble(s: string, k: nat)
    requires k < |s|
    ensures s[..k] + [s[k]] + s[k + 1..] == s
  {
  }

  lemma {:induction false} AppendAssoc(a: string, b: string, c: string)
    ensures a + (b + c) == a + b + c
  {
  }

  lemma {:induction false} AppendEmpty(a: string, b: string)
    requires |a| == 0
    ensures a + b == b && b + a == b
  {
  }

  /** Joining a piece in front of non-empty pieces adds it and a separator. */
  lemma {:induction false} JoinCons(x: string, t: seq<string>, sep: char)
    requires |t| >= 1
    ensures Join([x] + t, sep) == x + [sep] + Join(t, sep)
  {
    var r := [x] + t;
    assert r[0] == x && r[1..] == t;
  }

  /** Splitting a join of separator-free pieces gives back the pieces. */
  lemma {:induction false} SplitJoin(parts: seq<string>, sep: char)
    requires |parts| >= 1
    requires PiecesFree(parts, sep)
    ensures Split(Join(parts, sep), sep) == parts
  {
    PiecesFreeTail(parts, sep);
    if |parts| > 1 {
      var s := Join(parts, sep);
      assert s == parts[0] + ([sep] + Join(parts[1..], sep));
      FindAfter(parts[0], Join(parts[1..], sep), sep);
      assert s[..|parts[0]|] == parts[0];
      assert s[|parts[0]| + 1..] == Join(parts[1..], sep);
      SplitJoin(parts[1..], sep);
      assert Split(s, sep) == [parts[0]] + Split(Join(parts[1..], sep), sep);
      assert [parts[0]] + parts[1..] == parts;
    } else {
      assert Join(parts, sep) == parts[0];
      FindFirst(parts[0], sep);
      assert Find(parts[0], sep) == -1;
    }
  }

  lemma {:induction false} FindAfter(a: string, b: string, sep: char)
    requires sep !in a
    ensures Find(a + [sep] + b, sep) == |a|
  {
    var s := a + [sep] + b;
    FindFirst(s, sep);
    assert s[|a|] == sep;
    assert s[..|a|] == a;
  }

  /** Joining one more piece appends a separator and that piece. */
  lemma {:induction false} JoinSnoc(parts: seq<string>, last: string, sep: char)
    requires |parts| >= 1
    ensures Join(parts + [last], sep) == Join(parts, sep) + [sep] + last
  {
    var all := parts + [last];
    assert all[0] == parts[0];
    assert all[1..] == parts[1..] + [last];
    if |parts| == 1 {
      assert Join(all[1..], sep) == last;
    } else {
      JoinSnoc(parts[1..], last, sep);
      assert Join(all, sep) == parts[0] + [sep] + Join(parts[1..] + [last], sep);
    }
  }

  /** What follows the last separator: the last piece of a split. */
  function LastPiece(s: string, sep: char): string
    decreases |s|
  {
    var k := Find(s, sep);
    if k == -1 then s else LastPiece(s[k + 1..], sep)
  }

  lemma {:induction false} SplitLastPiece(s: string, sep: char)
    ensures var r := Split(s, sep); r[|r| - 1] == LastPiece(s, sep)
    decreases |s|
  {
    var k := Find(s, sep);
    if k != -1 {
      var rest := s[k + 1..];
      var t := Split(rest, sep);
      assert Split(s, sep) == [s[..k]] + t;
      assert LastPiece(s, sep) == LastPiece(rest, sep);
      SplitLastPiece(rest, sep);
      LastOfCons(s[..k], t);
    } else {
      assert Split(s, sep) == [s];
      assert LastPiece(s, sep) == s;
    }
  }

  lemma {:induction false} LastOfCons<T>(x: T, t: seq<T>)
    requires |t| > 0
    ensures var r := [x] + t; r[|r| - 1] == t[|t| - 1]
  {
  }

  /** The last piece holds no separator. */
  lemma {:induction false} LastPieceFree(s: string, sep: char)
    ensures sep !in LastPiece(s, sep)
    decreases |s|
  {
    var k := Find(s, sep);
    FindFirst(s, sep);
    if k != -1 {
      LastPieceFree(s[k + 1..], sep);
    }
  }

  /** When the input does not end with the separator, its last piece ends
      with the input's last character. */
  lemma {:induction false} LastPieceEnd(s: string, sep: char)
    requires |s| > 0 && s[|s| - 1] != sep
    ensures var p := LastPiece(s, sep); |p| > 0 && p[|p| - 1] == s[|s| - 1]
    decreases |s|
  {
    var k := Find(s, sep);
    if k != -1 {
      assert s[k] == sep && k < |s| - 1;
      var rest := s[k + 1..];
      assert |rest| == |s| - k - 1;
      assert rest[|rest| - 1] == s[|s| - 1];
      LastPieceEnd(rest, sep);
      assert LastPiece(s, sep) == LastPiece(rest, sep);
    } else {
      assert LastPiece(s, sep) == s;
    }
  }

  // ---------------------------------------------------------------------
  // counting
  // ---------------------------------------------------------------------

  /** Python's `s.count(p)`: non-overlapping occurrences, scanning left to right. */
  function PyCount(s: string, p: string): nat
    decreases |s|
  {
    if |p| == 0 then |s| + 1
    else if |s| < |p| then 0
    else if s[..|p|] == p then 1 + PyCount(s[|p|..], p)
    else PyCount(s[1..], p)
  }

  /** Occurrences of the character `c`. */
  function CountChar(s: string, c: char): nat
  {
    if |s| == 0 then 0 else (if s[0] == c then 1 else 0) + CountChar(s[1..], c)
  }

  /** Positions where `a` is immediately followed by `b`. */
  function CountPair(s: string, a: char, b: char): nat
  {
    if |s| < 2 then 0 else (if s[0] == a && s[1] == b then 1 else 0) + CountPair(s[1..], a, b)
  }

  /** Python's count of a one-character string is the number of occurrences. */
  lemma {:induction false} PyCountChar(s: string, c: char)
    ensures PyCount(s, [c]) == CountChar(s, c)
  {
    if |s| > 0 {
      PyCountChar(s[1..], c);
    }
  }

  /** Python's count of a two-character string with distinct characters counts
      every adjacent occurrence: such occurrences cannot overlap. */
  lemma {:induction false} PyCountPair(s: string, a: char, b: char)
    requires a != b
    ensures PyCount(s, [a, b]) == CountPair(s, a, b)
    decreases |s|
  {
    if |s| >= 2 {
      if s[..2] == [a, b] {
        PyCountPair(s[2..], a, b);
        assert s[1..][1..] == s[2..];
      } else {
        PyCountPair(s[1..], a, b);
      }
    }
  }

  lemma {:induction false} CountCharAppend(a: string, b: string, c: char)
    ensures CountChar(a + b, c) == CountChar(a, c) + CountChar(b, c)
  {
    if |a| > 0 {
      assert (a + b)[1..] == a[1..] + b;
      CountCharAppend(a[1..], b, c);
    } else {
      assert a + b == b;
    }
  }

  /** Counting pairs across a concatenation: the two halves plus the pair that
      may straddle the joint. */
  lemma {:induction false} CountPairAppend(s: string, t: string, a: char, b: char)
    ensures CountPair(s + t, a, b) ==
      CountPair(s, a, b) + CountPair(t, a, b)
      + (if |s| > 0 && |t| > 0 && s[|s| - 1] == a && t[0] == b then 1 else 0)
  {
    if |s| == 0 {
      assert s + t == t;
    } else if |s| == 1 {
      if |t| > 0 {
        assert (s + t)[1..] == t;
      }
    } else {
      assert (s + t)[1..] == s[1..] + t;
      CountPairAppend(s[1..], t, a, b);
    }
  }

  lemma {:induction false} CountCharRepeat(x: char, n: nat, c: char)
    ensures CountChar(Repeat(x, n), c) == (if x == c then n else 0)
  {
    if n > 0 {
      assert Repeat(x, n)[1..] == Repeat(x, n - 1);
      CountCharRepeat(x, n - 1, c);
    }
  }

  /** A pair `a b` needs an `a`; a string without one holds no pair. */
  lemma {:induction false} CountPairWithout(s: string, a: char, b: char)
    requires a !in s || b !in s
    ensures CountPair(s, a, b) == 0
  {
    if |s| >= 2 {
      CountPairWithout(s[1..], a, b);
    }
  }

  lemma {:induction false} CountCharWithout(s: string, c: char)
    requires c !in s
    ensures CountChar(s, c) == 0
  {
    if |s| > 0 {
      assert s[0] != c && c !in s[1..];
      CountCharWithout(s[1..], c);
      assert CountChar(s, c) == CountChar(s[1..], c);
    }
  }

  /** Every counted pair ends in a `b`, so there are no more pairs than `b`s. */
  lemma {:induction false} CountPairAtMostChar(s: string, a: char, b: char)
    ensures CountPair(s, a, b) <= CountChar(s, b)
  {
    if |s| >= 1 {
      CountPairAtMostTail(s, a, b);
    }
  }

  /** Pairs end at position 1 or later: at most the `b`s after the first character. */
  lemma {:induction false} CountPairAtMostTail(s: string, a: char, b: char)
    requires |s| >= 1
    ensures CountPair(s, a, b) <= CountChar(s[1..], b)
    decreases |s|
  {
    if |s| >= 2 {
      CountPairAtMostTail(s[1..], a, b);
      assert s[1..][1..] == s[2..];
    }
  }

  /** Appending text without `c` leaves the count of `c` unchanged. */
  lemma {:induction false} CountCharAppendWithout(s: string, t: string, c: char)
    requires c !in t
    ensures CountChar(s + t, c) == CountChar(s, c)
  {
    CountCharAppend(s, t, c);
    CountCharWithout(t, c);
  }

  /** Stripping a string without newlines leaves none. */
  lemma {:induction false} StripKeepsOut(s: string, c: char)
    requires c !in s
    ensures c !in Strip(s)
  {
    var l := LStrip(s);
    var r := Strip(s);
    LStripSuffix(s);
    RStripPrefix(l);
    assert r == l[..|r|];
    assert l == s[|s| - |l|..];
  }

  /** Stripping whitespace changes no count of non-whitespace characters and
      no count of pairs of non-whitespace characters. */
  lemma {:induction false} StripKeepsCounts(s: string, a: char, b: char)
    requires !IsSpace(a) && !IsSpace(b)
    ensures CountChar(Strip(s), b) == CountChar(s, b)
    ensures CountPair(Strip(s), a, b) == CountPair(s, a, b)
  {
    LStripKeepsCounts(s, a, b);
    RStripKeepsCounts(LStrip(s), a, b);
  }

  lemma {:induction false} LStripKeepsCounts(s: string, a: char, b: char)
    requires !IsSpace(a) && !IsSpace(b)
    ensures CountChar(LStrip(s), b) == CountChar(s, b)
    ensures CountPair(LStrip(s), a, b) == CountPair(s, a, b)
  {
    var l := LStrip(s);
    var pre := s[..|s| - |l|];
    LStripSuffix(s);
    LStripDropsSpaces(s);
    forall i | 0 <= i < |pre|
      ensures IsSpace(pre[i])
    {
      assert pre[i] == s[i];
    }
    SpacesAround(pre, l, [], a, b);
    assert s[..|s| - |l|] + l + [] == s;
  }

  lemma {:induction false} RStripKeepsCounts(s: string, a: char, b: char)
    requires !IsSpace(a) && !IsSpace(b)
    ensures CountChar(RStrip(s), b) == CountChar(s, b)
    ensures CountPair(RStrip(s), a, b) == CountPair(s, a, b)
  {
    var r := RStrip(s);
    var post := s[|r|..];
    RStripPrefix(s);
    RStripDropsSpaces(s);
    forall i | 0 <= i < |post|
      ensures IsSpace(post[i])
    {
      assert post[i] == s[|r| + i];
    }
    SpacesAround([], r, post, a, b);
    assert [] + r + s[|r|..] == s;
  }

  /** Whitespace on either side of a string adds no count of non-whitespace
      characters or pairs. */
  lemma {:induction false} SpacesAround(pre: string, mid: string, post: string, a: char, b: char)
    requires forall i :: 0 <= i < |pre| ==> IsSpace(pre[i])
    requires forall i :: 0 <= i < |post| ==> IsSpace(post[i])
    requires !IsSpace(a) && !IsSpace(b)
    ensures CountChar(pre + mid + post, b) == CountChar(mid, b)
    ensures CountPair(pre + mid + post, a, b) == CountPair(mid, a, b)
  {
    assert b !in pre && b !in post;
    assert a !in pre && a !in post;
    CountCharAppend(pre, mid, b);
    CountCharAppend(pre + mid, post, b);
    CountPairAppend(pre, mid, a, b);
    CountPairAppend(pre + mid, post, a, b);
    CountCharWithout(pre, b);
    CountCharWithout(post, b);
    CountPairWithout(pre, a, b);
    CountPairWithout(post, a, b);
  }

  /** Python's `p in s` agrees with the positional definition. */
  lemma {:induction false} ContainsAt(s: string, p: string, i: nat)
    requires i + |p| <= |s| && s[i..i + |p|] == p
    ensures Contains(s, p)
    decreases i
  {
    if i > 0 {
      assert s[1..][i - 1..i - 1 + |p|] == s[i..i + |p|];
      ContainsAt(s[1..], p, i - 1);
    }
  }

  lemma {:induction false} ContainsWitness(s: string, p: string) returns (i: nat)
    requires Contains(s, p)
    ensures i + |p| <= |s| && s[i..i + |p|] == p
    decreases |s|
  {
    if StartsWith(s, p) {
      i := 0;
    } else {
      var j := ContainsWitness(s[1..], p);
      assert s[1..][j..j + |p|] == s[j + 1..j + 1 + |p|];
      i := j + 1;
    }
  }

  /** A string contains every piece it is assembled from. */
  lemma {:induction false} ContainsMiddle(a: string, p: string, b: string)
    ensures Contains(a + p + b, p)
  {
    assert (a + p + b)[|a|..|a| + |p|] == p;
    ContainsAt(a + p + b, p, |a|);
  }

  /** `p in s` is preserved when text is appended. */
  lemma {:induction false} ContainsExtend(s: string, p: string, t: string)
    requires Contains(s, p)
    ensures Contains(s + t, p)
  {
    var i := ContainsWitness(s, p);
    assert (s + t)[i..i + |p|] == s[i..i + |p|];
    ContainsAt(s + t, p, i);
  }

  /** A string that already starts and ends with non-whitespace is its own strip. */
  lemma {:induction false} StripStripped(s: string)
    requires IsStripped(s)
    ensures Strip(s) == s
  {
  }

  /** Surrounding a stripped string with whitespace and stripping gives it back. */
  lemma {:induction false} StripPadded(pre: string, s: string, post: string)
    requires IsStripped(s)
    requires forall i :: 0 <= i < |pre| ==> IsSpace(pre[i])
    requires forall i :: 0 <= i < |post| ==> IsSpace(post[i])
    ensures Strip(pre + s + post) == s
  {
    var t := s + post;
    AppendAssoc(pre, s, post);
    LStripPadded(pre, t);
    assert Strip(pre + s + post) == RStrip(LStrip(t));
    if |s| > 0 {
      assert t[0] == s[0];
      LStripStartsInText(t);
      RStripPadded(s, post);
    } else {
      AppendEmpty(s, post);
      LStripAllSpace(post);
    }
  }

  /** Left-stripping a string that starts with non-whitespace changes nothing. */
  lemma {:induction false} LStripStartsInText(s: string)
    requires |s| > 0 && !IsSpace(s[0])
    ensures LStrip(s) == s
  {
  }

  lemma {:induction false} LStripAllSpace(s: string)
    requires forall i :: 0 <= i < |s| ==> IsSpace(s[i])
    ensures LStrip(s) == ""
    decreases |s|
  {
    if |s| > 0 {
      assert forall i :: 0 <= i < |s| - 1 ==> s[1..][i] == s[i + 1];
      LStripAllSpace(s[1..]);
    }
  }

  lemma {:induction false} LStripPadded(pre: string, rest: string)
    requires forall i :: 0 <= i < |pre| ==> IsSpace(pre[i])
    ensures LStrip(pre + rest) == LStrip(rest)
    decreases |pre|
  {
    if |pre| > 0 {
      assert (pre + rest)[1..] == pre[1..] + rest;
      LStripPadded(pre[1..], rest);
    } else {
      assert pre + rest == rest;
    }
  }

  lemma {:induction false} RStripPadded(s: string, post: string)
    requires |s| > 0 && !IsSpace(s[|s| - 1])
    requires forall i :: 0 <= i < |post| ==> IsSpace(post[i])
    ensures RStrip(s + post) == s
    decreases |post|
  {
    if |post| > 0 {
      assert (s + post)[..|s + post| - 1] == s + post[..|post| - 1];
      RStripPadded(s, post[..|post| - 1]);
    } else {
      assert s + post == s;
    }
  }

  /** Right-stripping keeps every prefix that already ends in non-whitespace. */
  lemma {:induction false} RStripKeepsPrefix(p: string, t: string)
    requires |p| > 0 && !IsSpace(p[|p| - 1])
    ensures StartsWith(RStrip(p + t), p)
  {
    assert (p + t)[|p| - 1] == p[|p| - 1];
    RStripDropsSpaces(p + t);
    RStripPrefix(p + t);
    var r := RStrip(p + t);
    assert r[..|p|] == (p + t)[..|p|] == p;
  }

  /** A string that holds a non-whitespace character does not strip to empty. */
  lemma {:induction false} RStripNonEmpty(s: string, i: nat)
    requires i < |s| && !IsSpace(s[i])
    ensures |RStrip(s)| > i
  {
    RStripDropsSpaces(s);
  }

  /** A contained string is no longer than its container. */
  lemma {:induction false} ContainsLength(s: string, p: string)
    requires Contains(s, p)
    ensures |p| <= |s|
  {
    var i := ContainsWitness(s, p);
  }

  lemma {:induction false} ContainsSlice(s: string, i: nat, j: nat)
    requires i <= j <= |s|
    ensures Contains(s, s[i..j])
  {
    ContainsAt(s, s[i..j], i);
  }

  lemma {:induction false} ContainsTransitive(s: string, p: string, q: string)
    requires Contains(s, p) && Contains(p, q)
    ensures Contains(s, q)
  {
    var i := ContainsWitness(s, p);
    var j := ContainsWitness(p, q);
    forall t | 0 <= t < |q|
      ensures s[i + j + t] == q[t]
    {
      assert q[t] == p[j..j + |q|][t] == p[j + t];
      assert p[j + t] == s[i..i + |p|][j + t] == s[i + j + t];
    }
    assert s[i + j..i + j + |q|] == q;
    ContainsAt(s, q, i + j);
  }

  /** `s.strip()` is a contiguous piece of `s`. */
  lemma {:induction false} StripContained(s: string)
    ensures Contains(s, Strip(s))
  {
    var l := LStrip(s);
    var r := RStrip(l);
    LStripSuffix(s);
    RStripPrefix(l);
    ContainsSlice(s, |s| - |l|, |s|);
    assert s[|s| - |l|..|s|] == l;
    ContainsSlice(l, 0, |r|);
    assert l[0..|r|] == r;
    ContainsTransitive(s, l, r);
  }

  lemma {:induction false} PrefixTransitive(s: string, p: string, q: string)
    requires StartsWith(s, p) && StartsWith(p, q)
    ensures StartsWith(s, q)
  {
    assert s[..|q|] == s[..|p|][..|q|];
  }

  /** Stripping keeps a last character that is not whitespace. */
  lemma {:induction false} StripKeepsLast(s: string)
    requires |s| > 0 && !IsSpace(s[|s| - 1])
    ensures |Strip(s)| > 0 && Strip(s)[|Strip(s)| - 1] == s[|s| - 1]
  {
    LStripKeepsLast(s);
    RStripEndsInText(LStrip(s));
  }

  lemma {:induction false} LStripKeepsLast(s: string)
    requires |s| > 0 && !IsSpace(s[|s| - 1])
    ensures var l := LStrip(s); |l| > 0 && l[|l| - 1] == s[|s| - 1]
  {
    var l := LStrip(s);
    LStripSuffix(s);
    LStripDropsSpaces(s);
    assert |l| > 0;
    assert l[|l| - 1] == s[|s| - 1];
  }

  /** Right-stripping a string that ends in non-whitespace changes nothing. */
  lemma {:induction false} RStripEndsInText(s: string)
    requires |s| > 0 && !IsSpace(s[|s| - 1])
    ensures RStrip(s) == s
  {
  }

  /** A text is its left-stripped form after some whitespace. */
  lemma {:induction false} LStripSplit(s: string) returns (pre: string)
    ensures s == pre + LStrip(s)
    ensures forall i :: 0 <= i < |pre| ==> IsSpace(pre[i])
  {
    var l := LStrip(s);
    LStripSuffix(s);
    LStripDropsSpaces(s);
    pre := s[..|s| - |l|];
    forall i | 0 <= i < |pre|
      ensures IsSpace(pre[i])
    {
      assert pre[i] == s[i];
    }
  }

  /** A text is its right-stripped form followed by some whitespace. */
  lemma {:induction false} RStripSplit(s: string) returns (post: string)
    ensures s == RStrip(s) + post
    ensures forall i :: 0 <= i < |post| ==> IsSpace(post[i])
  {
    var r := RStrip(s);
    RStripPrefix(s);
    RStripDropsSpaces(s);
    post := s[|r|..];
    forall i | 0 <= i < |post|
      ensures IsSpace(post[i])
    {
      assert post[i] == s[|r| + i];
    }
  }

  /** A text is its stripped form with whitespace on either side. */
  lemma {:induction false} StripSplits(s: string) returns (pre: string, post: string)
    ensures s == pre + Strip(s) + post
    ensures forall i :: 0 <= i < |pre| ==> IsSpace(pre[i])
    ensures forall i :: 0 <= i < |post| ==> IsSpace(post[i])
  {
    var l := LStrip(s);
    pre := LStripSplit(s);
    post := RStripSplit(l);
    var core := Strip(s);
    assert core == RStrip(l);
    assert s == pre + (core + post);
    AppendAssoc(pre, core, post);
  }

  /** Whatever extends the right-stripped text keeps its stripped form as a
      prefix once stripped itself. */
  lemma {:induction false} StripKeepsStrippedPrefix(s: string, t: string)
    requires StartsWith(t, RStrip(s))
    ensures StartsWith(Strip(t), Strip(s))
  {
    var core := Strip(s);
    if |core| > 0 {
      var pre, post := StripSplits(s);
      assert s == (pre + core) + post;
      assert (pre + core)[|pre + core| - 1] == core[|core| - 1];
      RStripPadded(pre + core, post);
      var x := t[|pre + core|..];
      assert t == pre + (core + x);
      LStripPadded(pre, core + x);
      assert (core + x)[0] == core[0];
      LStripStartsInText(core + x);
      RStripKeepsPrefix(core, x);
      assert Strip(t) == RStrip(LStrip(t));
    }
  }
}

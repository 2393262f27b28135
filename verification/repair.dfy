/** `_repair_truncated_json`: closes a JSON text a model cut short, in four
    steps (finish or drop the last line, close an odd quote, balance braces,
    balance brackets), then strips the result. */
module Repair {
  import opened Wrappers
  import opened Text

  /** How the repair counts a character: `s.count(c) - s.count('\\' + c)`,
      i.e. occurrences of `c` minus occurrences escaped by a backslash. */
  function Unescaped(s: string, c: char): int {
    PyCount(s, [c]) - PyCount(s, ['\\', c])
  }

  /** The same count, written with plain occurrence counts. */
  function Net(s: string, c: char): int {
    CountChar(s, c) - CountPair(s, '\\', c)
  }

  lemma {:induction false} UnescapedIsNet(s: string, c: char)
    requires c != '\\'
    ensures Unescaped(s, c) == Net(s, c)
  {
    PyCountChar(s, c);
    PyCountPair(s, '\\', c);
  }

  /** Appending text adds its count, minus one when a backslash at the end of
      the first part escapes the first character of the second. */
  lemma {:induction false} NetAppend(s: string, t: string, c: char)
    ensures Net(s + t, c) == Net(s, c) + Net(t, c)
      - (if |s| > 0 && |t| > 0 && s[|s| - 1] == '\\' && t[0] == c then 1 else 0)
  {
    CountCharAppend(s, t, c);
    CountPairAppend(s, t, '\\', c);
  }

  lemma {:induction false} NetWithout(t: string, c: char)
    requires c !in t
    ensures Net(t, c) == 0
  {
    CountCharWithout(t, c);
    CountPairWithout(t, '\\', c);
  }

  /** Appending text that holds no `c` and does not start right after a
      backslash with `c` leaves the count of `c` unchanged. */
  lemma {:induction false} NetAppendWithout(s: string, t: string, c: char)
    requires c !in t
    ensures Net(s + t, c) == Net(s, c)
  {
    NetAppend(s, t, c);
    NetWithout(t, c);
  }

  lemma {:induction false} NetRepeat(x: char, n: nat, c: char)
    requires x != '\\'
    ensures Net(Repeat(x, n), c) == (if x == c then n else 0)
  {
    CountCharRepeat(x, n, c);
    CountPairWithout(Repeat(x, n), '\\', c);
  }

  lemma {:induction false} NetStrip(s: string, c: char)
    requires !IsSpace(c)
    ensures Net(Strip(s), c) == Net(s, c)
  {
    StripKeepsCounts(s, '\\', c);
  }

  lemma {:induction false} NetRStrip(s: string, c: char)
    requires !IsSpace(c)
    ensures Net(RStrip(s), c) == Net(s, c)
  {
    RStripKeepsCounts(s, '\\', c);
  }

  // ---------------------------------------------------------------------
  // Step 1: the last line
  // ---------------------------------------------------------------------

  /** The lines Step 1 works on: those of the stripped input. */
  function Lines(json: string): seq<string> {
    Split(Strip(json), '\n')
  }

  /** The stripped last line, which Step 1 inspects: the text after the last
      newline of the stripped input (the last of its `Lines`, by
      `SplitLastPiece`), stripped. */
  function LastLine(json: string): (r: string)
    ensures '\n' !in r
    // it is `lines[-1].strip()`
    ensures r == Strip(Lines(json)[|Lines(json)| - 1])
  {
    var raw := LastPiece(Strip(json), '\n');
    SplitLastPiece(Strip(json), '\n');
    LastPieceFree(Strip(json), '\n');
    StripKeepsOut(raw, '\n');
    Strip(raw)
  }

  /** The characters that end a value on a line: `}`, `]`, `"` and `,`. */
  predicate IsCloser(ch: char) {
    ch == '}' || ch == ']' || ch == '"' || ch == ','
  }

  /** A line that already ends a value. */
  predicate EndsInCloser(line: string) {
    |line| > 0 && IsCloser(line[|line| - 1])
  }

  /** Step 1 fires on a non-empty last line that does not end a value. */
  predicate IsTruncatedLine(line: string) {
    line != "" && !EndsInCloser(line)
  }

  /** A line that looks like an open key/string pair. */
  predicate OpensStringValue(line: string) {
    Contains(line, "\": \"") || Contains(line, "': '")
  }

  /** The quote that closes a truncated string value: double when the line
      holds `": "`, single otherwise. */
  function ClosingQuote(line: string): char {
    if Contains(line, "\": \"") then '"' else '\''
  }

  /** Appending only characters that cannot end the pattern keeps `p in s`
      false. */
  lemma {:induction false} ContainsAppendNothingNew(s: string, t: string, p: string)
    requires |p| > 0 && p[|p| - 1] !in t
    requires !Contains(s, p)
    ensures !Contains(s + t, p)
  {
    if Contains(s + t, p) {
      var i := ContainsWitness(s + t, p);
      if i + |p| <= |s| {
        assert s[i..i + |p|] == (s + t)[i..i + |p|];
        ContainsAt(s, p, i);
      }
    }
  }

  /** By how many `open` outnumbers `close` in `s`, or 0. */
  function Deficit(s: string, open: char, close: char): nat {
    if CountChar(s, open) > CountChar(s, close) then CountChar(s, open) - CountChar(s, close) else 0
  }

  /** Appends as many `close` as `open` outnumbers it in `line`, which is how
      Step 1 closes parentheses and then brackets. */
  function CloseUnbalanced(line: string, open: char, close: char): (r: string)
    requires open != close
    ensures StartsWith(r, line)
    // exactly the deficit is appended, and nothing but `close`
    ensures |r| == |line| + Deficit(line, open, close)
    ensures forall i :: |line| <= i < |r| ==> r[i] == close
    ensures CountChar(r, open) <= CountChar(r, close)
  {
    var missing := PyCount(line, [open]) - PyCount(line, [close]);
    PyCountChar(line, open);
    PyCountChar(line, close);
    if missing > 0 then
      CountCharAppend(line, Repeat(close, missing as nat), open);
      CountCharAppend(line, Repeat(close, missing as nat), close);
      CountCharRepeat(close, missing as nat, open);
      CountCharRepeat(close, missing as nat, close);
      line + Repeat(close, missing as nat)
    else line
  }

  /** Closes an open string value on the last line: first every unbalanced
      `(`, then every unbalanced `[`, then the quote if it is missing. */
  function CloseValue(line: string): (r: string)
    requires '\n' !in line
    ensures StartsWith(r, line)
    ensures '\n' !in r
    ensures CountChar(r, '(') <= CountChar(r, ')')
    ensures CountChar(r, '[') <= CountChar(r, ']')
    ensures |r| > 0 && r[|r| - 1] == ClosingQuote(line)
    // what is appended: the missing `)`, then the missing `]`, then the quote
    // unless the line already ends with it
    ensures var p := Deficit(line, '(', ')'); var b := Deficit(line, '[', ']');
      && (|r| == |line| + p + b || |r| == |line| + p + b + 1)
      && (forall i :: |line| <= i < |line| + p ==> r[i] == ')')
      && (forall i :: |line| + p <= i < |line| + p + b ==> r[i] == ']')
      && (|r| == |line| + p + b + 1 <==> p + b > 0 || !EndsWith(line, [ClosingQuote(line)]))
  {
    var l1 := CloseUnbalanced(line, '(', ')');
    var l2 := CloseUnbalanced(l1, '[', ']');
    var quote := if Contains(l2, "\": \"") then '"' else '\'';
    var r := if EndsWith(l2, [quote]) then l2 else l2 + [quote];
    CloseValueEnds(line, l1, l2, r);
    CloseValueShape(line, l1, l2, r);
    r
  }

  /** What `CloseValue` keeps and how it ends: the quote it picks from the
      closed line is the one picked from the original line. */
  lemma {:induction false} CloseValueEnds(line: string, l1: string, l2: string, r: string)
    requires '\n' !in line
    requires l1 == CloseUnbalanced(line, '(', ')')
    requires l2 == CloseUnbalanced(l1, '[', ']')
    requires r == if EndsWith(l2, [if Contains(l2, "\": \"") then '"' else '\''])
      then l2 else l2 + [if Contains(l2, "\": \"") then '"' else '\'']
    ensures r == if EndsWith(l2, [ClosingQuote(line)]) then l2 else l2 + [ClosingQuote(line)]
    ensures StartsWith(r, line)
    ensures '\n' !in r
    ensures CountChar(r, '(') <= CountChar(r, ')')
    ensures CountChar(r, '[') <= CountChar(r, ']')
    ensures |r| > 0 && r[|r| - 1] == ClosingQuote(line)
  {
    CloseValueFacts(line, l1, l2);
    var q := ClosingQuote(line);
    var t := r[|l2|..];
    assert r == l2 + t;
    assert forall i :: 0 <= i < |t| ==> t[i] == q;
    CountCharAppendWithout(l2, t, '(');
    CountCharAppendWithout(l2, t, ')');
    CountCharAppendWithout(l2, t, '[');
    CountCharAppendWithout(l2, t, ']');
  }

  /** The closing characters of `CloseValue`, position by position. */
  lemma {:induction false} CloseValueShape(line: string, l1: string, l2: string, r: string)
    requires l1 == CloseUnbalanced(line, '(', ')')
    requires l2 == CloseUnbalanced(l1, '[', ']')
    requires r == if EndsWith(l2, [ClosingQuote(line)]) then l2 else l2 + [ClosingQuote(line)]
    ensures var p := Deficit(line, '(', ')'); var b := Deficit(line, '[', ']');
      && (|r| == |line| + p + b || |r| == |line| + p + b + 1)
      && (forall i :: |line| <= i < |line| + p ==> r[i] == ')')
      && (forall i :: |line| + p <= i < |line| + p + b ==> r[i] == ']')
      && (|r| == |line| + p + b + 1 <==> p + b > 0 || !EndsWith(line, [ClosingQuote(line)]))
  {
    var p := Deficit(line, '(', ')');
    var t1 := l1[|line|..];
    assert l1 == line + t1;
    assert '[' !in t1 && ']' !in t1;
    CountCharAppendWithout(line, t1, '[');
    CountCharAppendWithout(line, t1, ']');
    assert Deficit(l1, '[', ']') == Deficit(line, '[', ']');
    var b := Deficit(line, '[', ']');
    assert |l2| == |line| + p + b;
    forall i | |line| <= i < |line| + p
      ensures r[i] == ')'
    {
      assert r[i] == l2[i] == l1[i];
    }
    forall i | |line| + p <= i < |line| + p + b
      ensures r[i] == ']'
    {
      assert r[i] == l2[i];
    }
    var q := ClosingQuote(line);
    assert q != ')' && q != ']';
    if p + b > 0 {
      assert l2[|l2| - 1] == ')' || l2[|l2| - 1] == ']';
      assert !EndsWith(l2, [q]);
    } else {
      assert l2 == line;
    }
  }

  lemma {:induction false} CloseValueFacts(line: string, l1: string, l2: string)
    requires '\n' !in line
    requires l1 == CloseUnbalanced(line, '(', ')')
    requires l2 == CloseUnbalanced(l1, '[', ']')
    ensures StartsWith(l2, line) && '\n' !in l2
    ensures CountChar(l2, '(') <= CountChar(l2, ')')
    ensures Contains(l2, "\": \"") == Contains(line, "\": \"")
  {
    var t2 := l2[|l1|..];
    assert l2 == l1 + t2;
    assert '(' !in t2 && ')' !in t2;
    CountCharAppendWithout(l1, t2, '(');
    CountCharAppendWithout(l1, t2, ')');
    var t := l2[|line|..];
    assert l2 == line + t;
    assert forall i :: 0 <= i < |t| ==> t[i] == ')' || t[i] == ']';
    assert '"' !in t;
    if Contains(line, "\": \"") {
      ContainsExtend(line, "\": \"", t);
    } else {
      ContainsAppendNothingNew(line, t, "\": \"");
    }
  }

  /** Step 1, first branch: the last line is replaced by its closed form. */
  function CloseLastLine(json: string): (r: string)
    requires IsTruncatedLine(LastLine(json))
    // every earlier line is kept, only the last one changes
    ensures var lines := Lines(json);
      Split(r, '\n') == lines[..|lines| - 1] + [CloseValue(LastLine(json))]
  {
    var lines := Lines(json);
    var parts := lines[..|lines| - 1] + [CloseValue(LastLine(json))];
    SplitPiecesFree(Strip(json), '\n');
    NoNewlines(lines, CloseValue(LastLine(json)));
    SplitJoin(parts, '\n');
    Join(parts, '\n')
  }

  lemma {:induction false} NoNewlines(lines: seq<string>, last: string)
    requires |lines| > 0
    requires PiecesFree(lines, '\n')
    requires '\n' !in last
    ensures PiecesFree(lines[..|lines| - 1] + [last], '\n')
  {
    var parts := lines[..|lines| - 1] + [last];
    forall k | 0 <= k < |parts|
      ensures '\n' !in parts[k]
    {
      if k < |lines| - 1 {
        assert parts[k] == lines[k];
      }
    }
  }

  /** What is left of the input loses one trailing comma, if it has one
      after its trailing whitespace. */
  function DropTrailingComma(kept: string): (r: string)
    ensures StartsWith(kept, r)
    ensures r == kept || |r| < |kept|
    // the comma and the whitespace after it go, and nothing else
    ensures EndsWith(RStrip(kept), ",") ==> RStrip(kept) == r + ","
    ensures !EndsWith(RStrip(kept), ",") ==> r == kept
  {
    var t := RStrip(kept);
    RStripPrefix(kept);
    if EndsWith(t, ",") then
      assert t == t[..|t| - 1] + t[|t| - 1..];
      t[..|t| - 1]
    else kept
  }

  /** The input's lines without the last one, joined back together. */
  function KeptLines(json: string): string {
    var lines := Lines(json);
    Join(lines[..|lines| - 1], '\n')
  }

  /** Step 1, second branch: the last line is dropped, then a trailing comma
      of what is left. */
  function DropLastLine(json: string): (r: string)
    requires IsTruncatedLine(LastLine(json))
    // dropping only ever cuts the stripped input short
    ensures StartsWith(Strip(json), r) && |r| < |Strip(json)|
    // what is dropped after the other lines is at most a trailing comma
    ensures EndsWith(RStrip(KeptLines(json)), ",") ==> RStrip(KeptLines(json)) == r + ","
    ensures !EndsWith(RStrip(KeptLines(json)), ",") ==> r == KeptLines(json)
  {
    var kept := KeptLines(json);
    KeptShorter(json);
    var r := DropTrailingComma(kept);
    PrefixTransitive(Strip(json), kept, r);
    r
  }

  /** The last of the `Lines` is the raw last line; it is non-empty when its
      stripped form is. */
  lemma {:induction false} LastOfLines(json: string)
    requires LastLine(json) != ""
    ensures var lines := Lines(json); lines[|lines| - 1] != ""
  {
    var raw := LastPiece(Strip(json), '\n');
    SplitLastPiece(Strip(json), '\n');
    assert LastLine(json) == Strip(raw);
    assert 0 < |Strip(raw)| <= |raw|;
  }

  /** Without its last line, the stripped input is a strictly shorter prefix. */
  lemma {:induction false} KeptShorter(json: string)
    requires LastLine(json) != ""
    ensures StartsWith(Strip(json), KeptLines(json)) && |KeptLines(json)| < |Strip(json)|
  {
    LastOfLines(json);
    JoinSplit(Strip(json), '\n');
    KeptIsPrefix(Strip(json), Lines(json));
  }

  lemma {:induction false} InitLast<T>(s: seq<T>)
    requires |s| > 0
    ensures s == s[..|s| - 1] + [s[|s| - 1]]
  {
  }

  /** Without its last, non-empty line, a text is a strictly shorter prefix. */
  lemma {:induction false} KeptIsPrefix(text: string, lines: seq<string>)
    requires |lines| > 0 && Join(lines, '\n') == text
    requires lines[|lines| - 1] != ""
    ensures var kept := Join(lines[..|lines| - 1], '\n');
      StartsWith(text, kept) && |kept| < |text|
  {
    var init := lines[..|lines| - 1];
    var raw := lines[|lines| - 1];
    InitLast(lines);
    if |init| == 0 {
      assert Join(init, '\n') == "";
      assert lines == [raw];
    } else {
      JoinSnoc(init, raw, '\n');
      assert text == Join(init, '\n') + (['\n'] + raw);
    }
  }

  /** Step 1: a last line that stops in the middle of a value is either closed
      (when it opens a string value) or dropped; any other input is left
      exactly as it is. */
  function FinishLastLine(json: string): (r: string)
    // a last line that already ends a value (or is empty) leaves the input untouched
    ensures !IsTruncatedLine(LastLine(json)) ==> r == json
    // a truncated string value is closed in place: the other lines survive
    ensures IsTruncatedLine(LastLine(json)) && OpensStringValue(LastLine(json)) ==>
      var lines := Lines(json);
      Split(r, '\n') == lines[..|lines| - 1] + [CloseValue(LastLine(json))]
    // any other truncated line is dropped, cutting the stripped input short;
    // of the other lines only a trailing comma goes
    ensures IsTruncatedLine(LastLine(json)) && !OpensStringValue(LastLine(json)) ==>
      && StartsWith(Strip(json), r) && |r| < |Strip(json)|
      && (EndsWith(RStrip(KeptLines(json)), ",") ==> RStrip(KeptLines(json)) == r + ",")
      && (!EndsWith(RStrip(KeptLines(json)), ",") ==> r == KeptLines(json))
  {
    var last := LastLine(json);
    if IsTruncatedLine(last) then
      if OpensStringValue(last) then CloseLastLine(json) else DropLastLine(json)
    else json
  }

  // ---------------------------------------------------------------------
  // Steps 2 to 4: quotes, braces, brackets
  // ---------------------------------------------------------------------

  /** Step 2: an odd count of unescaped double quotes gets one more quote. */
  function CloseQuote(s: string): (r: string)
    ensures StartsWith(r, s) && |r| <= |s| + 1
    ensures Unescaped(s, '"') % 2 == 0 ==> r == s
    ensures Unescaped(s, '"') % 2 != 0 ==> r == s + "\""
    // parity is fixed unless the appended quote lands right after a backslash
    ensures (|s| == 0 || s[|s| - 1] != '\\') ==> Unescaped(r, '"') % 2 == 0
  {
    if Unescaped(s, '"') % 2 != 0 then
      QuoteAppended(s);
      s + "\""
    else s
  }

  /** One more quote flips the parity, unless a backslash escapes it. */
  lemma {:induction false} QuoteAppended(s: string)
    ensures |s| == 0 || s[|s| - 1] != '\\' ==> Unescaped(s + "\"", '"') == Unescaped(s, '"') + 1
  {
    UnescapedIsNet(s, '"');
    UnescapedIsNet(s + "\"", '"');
    NetAppend(s, "\"", '"');
  }

  /** Step 3 adds no comma after `,`, `{` or `[`. */
  predicate TakesNoComma(ch: char) {
    ch == ',' || ch == '{' || ch == '['
  }

  /** The braces Step 3 closes: unescaped `{` over unescaped `}`. */
  function MissingBraces(s: string): int {
    Unescaped(s, '{') - Unescaped(s, '}')
  }

  /** The brackets Step 4 closes: unescaped `[` over unescaped `]`. */
  function MissingBrackets(s: string): int {
    Unescaped(s, '[') - Unescaped(s, ']')
  }

  /** Step 3: when `{` outnumbers `}`, the string (right-stripped) gets a comma
      unless it already ends in `,`, `{` or `[`, then a newline and the
      missing `}`. `None` stands for the `IndexError` of indexing an empty
      right-stripped string, which the source turns into "no repair". */
  function CloseBraces(s: string): (r: Option<string>)
    ensures r.Some?
    ensures MissingBraces(s) <= 0 ==> r == Some(s)
    // afterwards the braces balance exactly, the `{` count is unchanged
    ensures MissingBraces(s) > 0 ==>
      && MissingBraces(r.value) == 0
      && Unescaped(r.value, '{') == Unescaped(s, '{')
      && StartsWith(r.value, RStrip(s))
      && EndsWith(r.value, "}")
    // after the right-stripped input come only a comma, whitespace and `}`
    ensures MissingBraces(s) > 0 ==>
      forall i :: |RStrip(s)| <= i < |r.value| ==> r.value[i] == ',' || r.value[i] == '}' || IsSpace(r.value[i])
    // the comma is added before the closing braces even after a complete value
    ensures MissingBraces(s) > 0 && RStrip(s) != "" && !TakesNoComma(RStrip(s)[|RStrip(s)| - 1]) ==>
      StartsWith(r.value, RStrip(s) + ",")
    // exactly one comma, then the newline and the missing `}`
    ensures MissingBraces(s) > 0 && RStrip(s) != "" && !TakesNoComma(RStrip(s)[|RStrip(s)| - 1]) ==>
      r == Some(RStrip(s) + "," + "\n" + Repeat('}', MissingBraces(s) as nat))
    // after `,`, `{` or `[` the input is kept whole, trailing whitespace
    // included, and only the newline and the braces follow
    ensures MissingBraces(s) > 0 && RStrip(s) != "" && TakesNoComma(RStrip(s)[|RStrip(s)| - 1]) ==>
      r == Some(s + "\n" + Repeat('}', MissingBraces(s) as nat))
  {
    var openBraces := Unescaped(s, '{');
    var closeBraces := Unescaped(s, '}');
    if openBraces > closeBraces then
      var t := RStrip(s);
      if |t| == 0 then
        BraceNeedsText(s);
        None
      else
        var base := if !TakesNoComma(t[|t| - 1]) then t + "," else s;
        var tail := "\n" + Repeat('}', (openBraces - closeBraces) as nat);
        CloseBracesFacts(s, base, tail);
        Some(base + tail)
    else Some(s)
  }

  /** A `{` that outnumbers `}` is a non-space character, so right-stripping
      cannot empty the string: the source's `[-1]` never fails here. */
  lemma {:induction false} BraceNeedsText(s: string)
    requires MissingBraces(s) > 0
    ensures |RStrip(s)| > 0
  {
    UnescapedIsNet(s, '{');
    UnescapedIsNet(s, '}');
    CountPairAtMostChar(s, '\\', '}');
    NetRStrip(s, '{');
  }

  lemma {:induction false} CloseBracesFacts(s: string, base: string, tail: string)
    requires MissingBraces(s) > 0
    requires |RStrip(s)| > 0
    requires base == if !TakesNoComma(RStrip(s)[|RStrip(s)| - 1]) then RStrip(s) + "," else s
    requires tail == "\n" + Repeat('}', MissingBraces(s) as nat)
    ensures MissingBraces(base + tail) == 0
    ensures Unescaped(base + tail, '{') == Unescaped(s, '{')
    ensures StartsWith(base + tail, RStrip(s))
    ensures EndsWith(base + tail, "}")
    ensures forall i :: |RStrip(s)| <= i < |base + tail| ==> (base + tail)[i] == ',' || (base + tail)[i] == '}' || IsSpace((base + tail)[i])
    ensures TakesNoComma(RStrip(s)[|RStrip(s)| - 1]) ==> base + tail == s + "\n" + Repeat('}', MissingBraces(s) as nat)
    ensures !TakesNoComma(RStrip(s)[|RStrip(s)| - 1]) ==> base + tail == RStrip(s) + "," + "\n" + Repeat('}', MissingBraces(s) as nat)
  {
    var r := base + tail;
    AppendAssoc(s, "\n", Repeat('}', MissingBraces(s) as nat));
    AppendAssoc(RStrip(s) + ",", "\n", Repeat('}', MissingBraces(s) as nat));
    assert r[|r| - 1] == tail[|tail| - 1] == '}';
    assert r[|r| - 1..] == "}";
    BaseCounts(s, base);
    TailCounts(tail, MissingBraces(s) as nat);
    ClosedCounts(s, base, tail);
    TailChars(tail, MissingBraces(s) as nat);
    ClosedShape(s, base, tail);
  }

  /** The comma Step 3 may add changes no brace count. */
  lemma {:induction false} BaseCounts(s: string, base: string)
    requires |RStrip(s)| > 0
    requires base == if !TakesNoComma(RStrip(s)[|RStrip(s)| - 1]) then RStrip(s) + "," else s
    ensures Net(base, '{') == Net(s, '{') && Net(base, '}') == Net(s, '}')
  {
    var t := RStrip(s);
    NetRStrip(s, '{');
    NetRStrip(s, '}');
    if base != s {
      NetAppendWithout(t, ",", '{');
      NetAppendWithout(t, ",", '}');
    }
  }

  /** The closing tail holds `k` braces `}` and no `{`. */
  lemma {:induction false} TailCounts(tail: string, k: nat)
    requires tail == "\n" + Repeat('}', k)
    ensures Net(tail, '{') == 0 && Net(tail, '}') == k
  {
    assert tail == ['\n'] + Repeat('}', k);
    NetAppend(['\n'], Repeat('}', k), '{');
    NetAppend(['\n'], Repeat('}', k), '}');
    NetWithout(['\n'], '{');
    NetWithout(['\n'], '}');
    NetRepeat('}', k, '{');
    NetRepeat('}', k, '}');
  }

  lemma {:induction false} ClosedCounts(s: string, base: string, tail: string)
    requires MissingBraces(s) > 0
    requires Net(base, '{') == Net(s, '{') && Net(base, '}') == Net(s, '}')
    requires |tail| > 0 && tail[0] == '\n'
    requires Net(tail, '{') == 0 && Net(tail, '}') == MissingBraces(s)
    ensures MissingBraces(base + tail) == 0
    ensures Unescaped(base + tail, '{') == Unescaped(s, '{')
  {
    UnescapedIsNet(s, '{');
    UnescapedIsNet(s, '}');
    UnescapedIsNet(base + tail, '{');
    UnescapedIsNet(base + tail, '}');
    NetAppend(base, tail, '{');
    NetAppend(base, tail, '}');
  }

  /** The closing tail is a newline and then braces `}`. */
  lemma {:induction false} TailChars(tail: string, k: nat)
    requires tail == "\n" + Repeat('}', k)
    ensures |tail| > 0 && tail[0] == '\n'
    ensures forall j :: 0 <= j < |tail| ==> tail[j] == '}' || IsSpace(tail[j])
  {
    forall j | 0 <= j < |tail|
      ensures tail[j] == '}' || IsSpace(tail[j])
    {
      if j > 0 {
        assert tail[j] == Repeat('}', k)[j - 1];
      }
    }
  }

  /** After Step 3 the right-stripped input is followed only by a comma,
      whitespace and `}`. */
  lemma {:induction false} ClosedShape(s: string, base: string, tail: string)
    requires |RStrip(s)| > 0
    requires base == if !TakesNoComma(RStrip(s)[|RStrip(s)| - 1]) then RStrip(s) + "," else s
    requires forall j :: 0 <= j < |tail| ==> tail[j] == '}' || IsSpace(tail[j])
    ensures StartsWith(base + tail, RStrip(s))
    ensures forall i :: |RStrip(s)| <= i < |base + tail| ==> (base + tail)[i] == ',' || (base + tail)[i] == '}' || IsSpace((base + tail)[i])
  {
    var t := RStrip(s);
    var r := base + tail;
    RStripPrefix(s);
    RStripDropsSpaces(s);
    assert base[..|t|] == t;
    assert r[..|t|] == base[..|t|];
    forall i | |t| <= i < |r|
      ensures r[i] == ',' || r[i] == '}' || IsSpace(r[i])
    {
      if i >= |base| {
        assert r[i] == tail[i - |base|];
      } else if base != s {
        assert r[i] == base[i] == ',';
      } else {
        assert r[i] == s[i];
      }
    }
  }

  /** Step 4: the missing `]` are appended when `[` outnumbers `]`. */
  function CloseBrackets(s: string): (r: string)
    ensures StartsWith(r, s)
    ensures forall i :: |s| <= i < |r| ==> r[i] == ']'
    // exactly the missing `]` are appended, and a balanced text is left alone
    ensures |r| == |s| + (if MissingBrackets(s) > 0 then MissingBrackets(s) else 0)
    ensures MissingBrackets(s) <= 0 ==> r == s
    // balanced afterwards unless the first `]` lands right after a backslash
    ensures (|s| == 0 || s[|s| - 1] != '\\') ==> Unescaped(r, '[') <= Unescaped(r, ']')
    ensures (|s| == 0 || s[|s| - 1] != '\\') && MissingBrackets(s) >= 0 ==> MissingBrackets(r) == 0
  {
    var openBrackets := Unescaped(s, '[');
    var closeBrackets := Unescaped(s, ']');
    if openBrackets > closeBrackets then
      var tail := Repeat(']', (openBrackets - closeBrackets) as nat);
      UnescapedIsNet(s, '[');
      UnescapedIsNet(s, ']');
      UnescapedIsNet(s + tail, '[');
      UnescapedIsNet(s + tail, ']');
      NetAppend(s, tail, '[');
      NetAppend(s, tail, ']');
      NetRepeat(']', |tail|, '[');
      NetRepeat(']', |tail|, ']');
      s + tail
    else s
  }

  /** Appending only `]` characters changes no brace count. */
  lemma {:induction false} BracketsKeepBraces(s: string, c: char)
    requires c == '{' || c == '}'
    ensures Unescaped(CloseBrackets(s), c) == Unescaped(s, c)
  {
    var r := CloseBrackets(s);
    var tail := r[|s|..];
    assert r == s + tail;
    assert c !in tail;
    UnescapedIsNet(s, c);
    UnescapedIsNet(r, c);
    NetAppendWithout(s, tail, c);
  }

  /** `_repair_truncated_json`. */
  function RepairTruncated(json: string): (r: Option<string>)
    // the repair never gives up
    ensures r.Some?
    ensures IsStripped(r.value)
    // no unescaped `{` is left unclosed
    ensures Unescaped(r.value, '{') <= Unescaped(r.value, '}')
    // Steps 2 to 4 extend the trimmed result of Step 1
    ensures StartsWith(r.value, Strip(FinishLastLine(json)))
    // quotes and brackets are closed, unless Step 1 left a trailing backslash
    ensures var s1 := FinishLastLine(json);
      (|s1| == 0 || s1[|s1| - 1] != '\\') ==>
        Unescaped(r.value, '"') % 2 == 0 && Unescaped(r.value, '[') <= Unescaped(r.value, ']')
    // only the missing `}` are added: the braces balance exactly, unless `}`
    // already outnumbered `{`, and then nothing changes their counts
    ensures var m := MissingBraces(FinishLastLine(json));
      MissingBraces(r.value) == if m > 0 then 0 else m
    // likewise only the missing `]`, unless Step 1 left a trailing backslash
    ensures var s1 := FinishLastLine(json); var m := MissingBrackets(s1);
      (|s1| == 0 || s1[|s1| - 1] != '\\') ==> MissingBrackets(r.value) == if m > 0 then 0 else m
  {
    var s1 := FinishLastLine(json);
    var s2 := CloseQuote(s1);
    match CloseBraces(s2)
    case None => None
    case Some(s3) =>
      var s4 := CloseBrackets(s3);
      RepairKeepsPrefix(s1);
      StripKeepsStrippedPrefix(s1, s4);
      RepairBalances(s1);
      RepairCounts(s1);
      BracketsKeepBraces(s3, '{');
      BracketsKeepBraces(s3, '}');
      UnescapedIsNet(s4, '{');
      UnescapedIsNet(s4, '}');
      NetStrip(s4, '{');
      NetStrip(s4, '}');
      UnescapedIsNet(Strip(s4), '{');
      UnescapedIsNet(Strip(s4), '}');
      Some(Strip(s4))
  }

  /** Steps 2 to 4 extend the right-stripped input: Step 3 may drop trailing
      whitespace, and everything else only appends. */
  lemma {:induction false} RepairKeepsPrefix(s1: string)
    ensures var s3 := CloseBraces(CloseQuote(s1)).value;
      StartsWith(CloseBrackets(s3), RStrip(s1))
  {
    RStripPrefix(s1);
    var s2 := CloseQuote(s1);
    PrefixTransitive(s2, s1, RStrip(s1));
    var s3 := CloseBraces(s2).value;
    if MissingBraces(s2) > 0 {
      if s2 != s1 {
        assert s2 == s1 + "\"";
        RStripEndsInText(s2);
      }
      PrefixTransitive(s3, RStrip(s2), RStrip(s1));
    }
    PrefixTransitive(CloseBrackets(s3), s3, RStrip(s1));
  }

  /** Steps 2 to 4 and the final strip close exactly the missing braces, and,
      unless the input ends in a backslash, exactly the missing brackets. */
  lemma {:induction false} RepairCounts(s1: string)
    ensures var s4 := CloseBrackets(CloseBraces(CloseQuote(s1)).value); var m := MissingBraces(s1);
      MissingBraces(Strip(s4)) == if m > 0 then 0 else m
    ensures var s4 := CloseBrackets(CloseBraces(CloseQuote(s1)).value); var m := MissingBrackets(s1);
      (|s1| == 0 || s1[|s1| - 1] != '\\') ==> MissingBrackets(Strip(s4)) == if m > 0 then 0 else m
  {
    var s2 := CloseQuote(s1);
    QuoteStepKeepsCount(s1, '{');
    QuoteStepKeepsCount(s1, '}');
    QuoteStepKeepsCount(s1, '[');
    QuoteStepKeepsCount(s1, ']');
    var s3 := CloseBraces(s2).value;
    BraceStepKeepsCount(s2, '[');
    BraceStepKeepsCount(s2, ']');
    var s4 := CloseBrackets(s3);
    BracketsKeepBraces(s3, '{');
    BracketsKeepBraces(s3, '}');
    StripKeepsUnescaped(s4, '{');
    StripKeepsUnescaped(s4, '}');
    StripKeepsUnescaped(s4, '[');
    StripKeepsUnescaped(s4, ']');
    if |s1| == 0 || s1[|s1| - 1] != '\\' {
      QuoteStepEnd(s1);
      BraceStepEnd(s2);
    }
  }

  /** Step 2 appends at most a quote, which changes no brace or bracket count. */
  lemma {:induction false} QuoteStepKeepsCount(s1: string, c: char)
    requires c == '{' || c == '}' || c == '[' || c == ']'
    ensures Unescaped(CloseQuote(s1), c) == Unescaped(s1, c)
  {
    var s2 := CloseQuote(s1);
    if s2 != s1 {
      assert s2 == s1 + "\"";
      UnescapedIsNet(s1, c);
      UnescapedIsNet(s2, c);
      NetAppendWithout(s1, "\"", c);
    }
  }

  /** Step 3 removes only trailing whitespace and adds only a comma, a newline
      and `}`, so the bracket counts stay as they were. */
  lemma {:induction false} BraceStepKeepsCount(s2: string, c: char)
    requires c == '[' || c == ']'
    ensures Unescaped(CloseBraces(s2).value, c) == Unescaped(s2, c)
  {
    var s3 := CloseBraces(s2).value;
    if MissingBraces(s2) > 0 {
      var t := RStrip(s2);
      var x := s3[|t|..];
      assert s3 == t + x;
      forall j | 0 <= j < |x|
        ensures x[j] != c
      {
        assert x[j] == s3[|t| + j];
      }
      UnescapedIsNet(s2, c);
      NetRStrip(s2, c);
      UnescapedIsNet(s3, c);
      NetAppendWithout(t, x, c);
    }
  }

  /** Unless the input ends in a backslash, Steps 2 to 4 and the final strip
      leave an even count of unescaped quotes and no unclosed `[`. */
  lemma {:induction false} RepairBalances(s1: string)
    ensures var s4 := CloseBrackets(CloseBraces(CloseQuote(s1)).value);
      (|s1| == 0 || s1[|s1| - 1] != '\\') ==>
        Unescaped(Strip(s4), '"') % 2 == 0 && Unescaped(Strip(s4), '[') <= Unescaped(Strip(s4), ']')
  {
    if |s1| == 0 || s1[|s1| - 1] != '\\' {
      var s2 := CloseQuote(s1);
      QuoteStepEnd(s1);
      var s3 := CloseBraces(s2).value;
      BraceStepEnd(s2);
      BracketStepKeepsQuotes(s3);
      var s4 := CloseBrackets(s3);
      StripKeepsUnescaped(s4, '"');
      StripKeepsUnescaped(s4, '[');
      StripKeepsUnescaped(s4, ']');
    }
  }

  /** Step 2 does not leave a trailing backslash that was not there. */
  lemma {:induction false} QuoteStepEnd(s1: string)
    requires |s1| == 0 || s1[|s1| - 1] != '\\'
    ensures var s2 := CloseQuote(s1); |s2| == 0 || s2[|s2| - 1] != '\\'
  {
    var s2 := CloseQuote(s1);
    if s2 != s1 {
      assert s2 == s1 + "\"";
    }
  }

  /** Step 3 keeps the quote count and adds no trailing backslash. */
  lemma {:induction false} BraceStepEnd(s2: string)
    requires |s2| == 0 || s2[|s2| - 1] != '\\'
    ensures var s3 := CloseBraces(s2).value;
      && Unescaped(s3, '"') == Unescaped(s2, '"')
      && (|s3| == 0 || s3[|s3| - 1] != '\\')
  {
    var s3 := CloseBraces(s2).value;
    if MissingBraces(s2) > 0 {
      QuoteFreeTail(RStrip(s2), s3);
      UnescapedIsNet(s2, '"');
      NetRStrip(s2, '"');
      UnescapedIsNet(RStrip(s2), '"');
      assert s3[|s3| - 1] == s3[|s3| - 1..][0];
    }
  }

  /** The stripped last line of a stripped text keeps the text's last
      character when that is not a newline. */
  lemma {:induction false} LastLineKeepsEnd(c: string)
    requires IsStripped(c) && |c| > 0 && c[|c| - 1] != '\n'
    ensures var l := LastLine(c); |l| > 0 && l[|l| - 1] == c[|c| - 1]
  {
    var p := LastPiece(c, '\n');
    StripStripped(c);
    assert LastLine(c) == Strip(LastPiece(Strip(c), '\n'));
    assert LastLine(c) == Strip(p);
    LastPieceEnd(c, '\n');
    assert !IsSpace(p[|p| - 1]);
    StripKeepsLast(p);
  }

  /** A text that starts with `{` and ends with `}` (every text the Stage A
      scan hands to the repair) has a complete last line, so Step 1 leaves it
      alone. */
  lemma {:induction false} BracedTextSkipsStep1(c: string)
    requires |c| > 0 && c[0] == '{' && c[|c| - 1] == '}'
    ensures FinishLastLine(c) == c
  {
    LastLineKeepsEnd(c);
    var last := LastLine(c);
    assert IsCloser(last[|last| - 1]);
  }

  /** Appending characters that are never `"` keeps the quote count. */
  lemma {:induction false} QuoteFreeTail(s: string, r: string)
    requires StartsWith(r, s)
    requires forall i :: |s| <= i < |r| ==> r[i] == ',' || r[i] == '}' || IsSpace(r[i])
    ensures Unescaped(r, '"') == Unescaped(s, '"')
  {
    var x := r[|s|..];
    assert r == s + x;
    forall j | 0 <= j < |x|
      ensures x[j] != '"'
    {
      assert x[j] == r[|s| + j];
    }
    UnescapedIsNet(s, '"');
    UnescapedIsNet(r, '"');
    NetAppendWithout(s, x, '"');
  }

  /** After Step 3, a string that ended in `}` or `"` still does, and its
      quote count is unchanged: Step 3 adds no quote and no backslash. */
  lemma {:induction false} BraceStepKeepsQuotes(s2: string)
    requires |s2| > 0 && (s2[|s2| - 1] == '}' || s2[|s2| - 1] == '"')
    ensures var s3 := CloseBraces(s2).value;
      StartsWith(s3, s2) && |s3| > 0 && (s3[|s3| - 1] == '}' || s3[|s3| - 1] == '"')
      && Unescaped(s3, '"') == Unescaped(s2, '"')
  {
    assert !IsSpace(s2[|s2| - 1]);
    assert RStrip(s2) == s2;
    var s3 := CloseBraces(s2).value;
    if MissingBraces(s2) > 0 {
      QuoteFreeTail(s2, s3);
      assert s3[|s3| - 1] == s3[|s3| - 1..][0];
    }
  }

  /** Step 4 adds only `]`, so the quote count stays as it was. */
  lemma {:induction false} BracketStepKeepsQuotes(s3: string)
    ensures Unescaped(CloseBrackets(s3), '"') == Unescaped(s3, '"')
  {
    var s4 := CloseBrackets(s3);
    var y := s4[|s3|..];
    assert s4 == s3 + y;
    assert '"' !in y;
    UnescapedIsNet(s3, '"');
    UnescapedIsNet(s4, '"');
    NetAppendWithout(s3, y, '"');
  }

  /** Stripping keeps the unescaped count of a non-whitespace character. */
  lemma {:induction false} StripKeepsUnescaped(s: string, c: char)
    requires !IsSpace(c) && c != '\\'
    ensures Unescaped(Strip(s), c) == Unescaped(s, c)
  {
    UnescapedIsNet(s, c);
    NetStrip(s, c);
    UnescapedIsNet(Strip(s), c);
  }

  /** The final strip keeps the counts and a braced prefix. */
  lemma {:induction false} FinalStripKeeps(s4: string, c: string)
    requires |c| > 0 && c[0] == '{' && c[|c| - 1] == '}'
    requires StartsWith(s4, c)
    ensures StartsWith(Strip(s4), c)
    ensures Unescaped(Strip(s4), '"') == Unescaped(s4, '"')
    ensures Unescaped(Strip(s4), '[') == Unescaped(s4, '[')
    ensures Unescaped(Strip(s4), ']') == Unescaped(s4, ']')
  {
    StripKeepsUnescaped(s4, '"');
    StripKeepsUnescaped(s4, '[');
    StripKeepsUnescaped(s4, ']');
    BracedPrefixSurvivesStrip(s4, c);
  }

  lemma {:induction false} BracedPrefixSurvivesStrip(s4: string, c: string)
    requires |c| > 0 && c[0] == '{' && c[|c| - 1] == '}'
    requires StartsWith(s4, c)
    ensures StartsWith(Strip(s4), c)
  {
    assert s4[0] == '{';
    assert LStrip(s4) == s4;
    assert c + s4[|c|..] == s4;
    RStripKeepsPrefix(c, s4[|c|..]);
  }

  /** Repairing such a text only appends to it, and leaves an even count of
      unescaped quotes and no unclosed `[` or `{`. */
  lemma {:induction false} RepairOfBracedText(c: string)
    requires |c| > 0 && c[0] == '{' && c[|c| - 1] == '}'
    ensures var r := RepairTruncated(c).value;
      && StartsWith(r, c)
      && Unescaped(r, '"') % 2 == 0
      && Unescaped(r, '[') <= Unescaped(r, ']')
      && Unescaped(r, '{') <= Unescaped(r, '}')
  {
    BracedTextSkipsStep1(c);
    var s2 := CloseQuote(c);
    assert (s2[|s2| - 1] == '}' || s2[|s2| - 1] == '"') by {
      if s2 != c {
        assert s2 == c + "\"";
      }
    }
    BraceStepKeepsQuotes(s2);
    var s3 := CloseBraces(s2).value;
    BracketStepKeepsQuotes(s3);
    var s4 := CloseBrackets(s3);
    PrefixTransitive(s3, s2, c);
    PrefixTransitive(s4, s3, c);
    FinalStripKeeps(s4, c);
  }
}

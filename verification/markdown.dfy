/** `_clean_markdown_wrapper`: removes the code fence a model often wraps
    around its JSON answer. */
module Markdown {
  import opened Text

  const Fence := "```"
  const JsonFence := "```json"

  /** A generic block the unwrapper accepts: more than two lines, the last of
      which is exactly a fence once stripped. */
  predicate IsClosedBlock(lines: seq<string>) {
    |lines| > 2 && Strip(lines[|lines| - 1]) == Fence
  }

  /** The lines between the first and the last, joined back together. */
  function Interior(lines: seq<string>): string
    requires |lines| > 2
  {
    Join(lines[1..|lines| - 1], '\n')
  }

  /** What follows "```json", without a closing fence if there is one. */
  function AfterJsonFence(c: string): (r: string)
    requires StartsWith(c, JsonFence)
    // only the opening "```json" and, when present, one closing "```" go
    ensures EndsWith(c[|JsonFence|..], Fence) ==> c == JsonFence + r + Fence
    ensures !EndsWith(c[|JsonFence|..], Fence) ==> c == JsonFence + r
  {
    var inner := c[|JsonFence|..];
    assert c == JsonFence + inner;
    if EndsWith(inner, Fence) then
      assert inner == inner[..|inner| - |Fence|] + Fence;
      inner[..|inner| - |Fence|]
    else inner
  }

  /** The unwrapped text. A "```json" opening (with an optional closing fence)
      is always removed; a generic "```" block only when it has more than two
      lines and its last line, stripped, is exactly "```". */
  function Clean(content: string): (r: string)
    ensures IsStripped(r)
    // a "```json" opening is removed, with a closing fence if there is one
    ensures StartsWith(Strip(content), JsonFence) ==> r == Strip(AfterJsonFence(Strip(content)))
    // text that does not open with a fence is only trimmed
    ensures !StartsWith(Strip(content), Fence) ==> r == Strip(content)
    // a generic fence is removed exactly from a closed block, keeping its interior
    ensures StartsWith(Strip(content), Fence) && !StartsWith(Strip(content), JsonFence) ==>
      (r != Strip(content) ==> IsClosedBlock(Split(Strip(content), '\n')))
      && (IsClosedBlock(Split(Strip(content), '\n')) ==> r == Strip(Interior(Split(Strip(content), '\n'))))
  {
    var c := Strip(content);
    if StartsWith(c, JsonFence) then
      JsonFenceIsFence(c);
      Strip(AfterJsonFence(c))
    else if StartsWith(c, Fence) then
      var lines := Split(c, '\n');
      if IsClosedBlock(lines) then Strip(Interior(lines)) else c
    else c
  }

  lemma {:induction false} JsonFenceIsFence(c: string)
    requires StartsWith(c, JsonFence)
    ensures StartsWith(c, Fence)
  {
    assert c[..3] == c[..7][..3];
  }

  /** A join of three or more pieces is the first piece, the joined interior
      and the last piece, separated. */
  lemma {:induction false} JoinInterior(lines: seq<string>, sep: char)
    requires |lines| > 2
    ensures Join(lines, sep) == (lines[0] + [sep]) + Join(lines[1..|lines| - 1], sep) + ([sep] + lines[|lines| - 1])
  {
    var mid := lines[1..|lines| - 1];
    assert lines[1..] == mid + [lines[|lines| - 1]];
    JoinSnoc(mid, lines[|lines| - 1], sep);
  }

  lemma {:induction false} AfterJsonFenceContained(c: string)
    requires StartsWith(c, JsonFence)
    ensures Contains(c, AfterJsonFence(c))
  {
    var body := AfterJsonFence(c);
    assert body == c[|JsonFence|..|JsonFence| + |body|];
    ContainsSlice(c, |JsonFence|, |JsonFence| + |body|);
  }

  lemma {:induction false} InteriorContained(c: string)
    requires |Split(c, '\n')| > 2
    ensures Contains(c, Interior(Split(c, '\n')))
  {
    var lines := Split(c, '\n');
    var mid := Interior(lines);
    var a := lines[0] + ['\n'];
    var b := ['\n'] + lines[|lines| - 1];
    JoinInterior(lines, '\n');
    JoinSplit(c, '\n');
    assert c == a + mid + b;
    ContainsMiddle(a, mid, b);
  }

  /** The unwrapped text is a contiguous piece of the input, so it is never
      longer than the input. */
  lemma {:induction false} CleanTakesPiece(content: string)
    ensures Contains(content, Clean(content))
    ensures |Clean(content)| <= |content|
  {
    var c := Strip(content);
    StripContained(content);
    var body: string;
    if StartsWith(c, JsonFence) {
      body := AfterJsonFence(c);
      AfterJsonFenceContained(c);
    } else if StartsWith(c, Fence) && IsClosedBlock(Split(c, '\n')) {
      body := Interior(Split(c, '\n'));
      InteriorContained(c);
    } else {
      body := c;
      StripStripped(c);
      ContainsSlice(c, 0, |c|);
      assert c[0..|c|] == c;
    }
    assert Clean(content) == Strip(body);
    StripContained(body);
    ContainsTransitive(c, body, Strip(body));
    ContainsTransitive(content, c, Strip(body));
    ContainsLength(content, Clean(content));
  }

  /** Round trip: fencing a trimmed text as "```json" and unwrapping it gives
      the text back. */
  lemma {:induction false} JsonFenceRoundTrip(s: string)
    requires IsStripped(s)
    ensures Clean("```json\n" + s + "\n```") == s
  {
    var w := "```json\n" + s + "\n```";
    assert w[0] == '`' && w[|w| - 1] == '`';
    StripStripped(w);
    assert StartsWith(w, JsonFence);
    var inner := w[|JsonFence|..];
    assert inner == "\n" + s + "\n```";
    assert EndsWith(inner, Fence);
    assert AfterJsonFence(w) == "\n" + s + "\n";
    StripPadded("\n", s, "\n");
  }

  /** The lines of a text between two fence lines: the fence, the text's own
      lines, the fence. */
  lemma {:induction false} FencedLines(s: string) returns (lines: seq<string>)
    ensures lines == [Fence] + Split(s, '\n') + [Fence]
    ensures Split("```\n" + s + "\n```", '\n') == lines
  {
    var pieces := Split(s, '\n');
    lines := [Fence] + pieces + [Fence];
    SplitPiecesFree(s, '\n');
    PiecesFreeSnoc(pieces, Fence, '\n');
    PiecesFreeCons(Fence, pieces + [Fence], '\n');
    assert [Fence] + (pieces + [Fence]) == lines;
    JoinSplit(s, '\n');
    JoinInterior(lines, '\n');
    assert lines[1..|lines| - 1] == pieces;
    FenceAround(s);
    SplitJoin(lines, '\n');
  }

  lemma {:induction false} FenceAround(s: string)
    ensures (Fence + ['\n']) + s + (['\n'] + Fence) == "```\n" + s + "\n```"
  {
  }

  /** Round trip for a generic fence: a trimmed text between a "```" line and
      a closing "```" line comes back unchanged. */
  lemma {:induction false} GenericFenceRoundTrip(s: string)
    requires IsStripped(s)
    ensures Clean("```\n" + s + "\n```") == s
  {
    var w := "```\n" + s + "\n```";
    assert w[0] == '`' && w[|w| - 1] == '`';
    StripStripped(w);
    assert StartsWith(w, Fence) by {
      assert w[..3] == Fence;
    }
    assert !StartsWith(w, JsonFence) by {
      assert w[3] == '\n' && JsonFence[3] == 'j';
    }
    var lines := FencedLines(s);
    assert IsClosedBlock(lines) by {
      StripStripped(Fence);
    }
    assert Interior(lines) == s by {
      assert lines[1..|lines| - 1] == Split(s, '\n');
      JoinSplit(s, '\n');
    }
    StripStripped(s);
  }
}

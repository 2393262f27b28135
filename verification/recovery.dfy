/** `_extract_json_with_regex`: recovers a JSON object from a reply that holds
    more than the object. Stage A scans candidates from the first `{` to each
    `}`, rightmost first, parsing each directly or after the truncation
    repair; Stage B tries the matches of two regular expressions, which the
    model receives as a list. `json.loads` is the `parse` oracle: it gives the
    parsed value or the text of the `JSONDecodeError` it raised. */
module Recovery {
  import opened Wrappers
  import opened Text
  import opened Repair

  /** The candidate ending at index `i`: `content[first_brace:i+1]`. */
  function Candidate(content: string, first: nat, i: nat): (r: string)
    requires first <= i < |content|
    ensures |r| == i + 1 - first
    ensures r[0] == content[first] && r[|r| - 1] == content[i]
  {
    content[first..i + 1]
  }

  /** One candidate: parsed directly, else repaired and parsed; a repair that
      gives nothing (or the empty string) skips the candidate. */
  function Attempt<J(==)>(candidate: string, parse: string -> Result<J, string>): (r: Option<J>)
    // a direct parse wins and is not repaired
    ensures parse(candidate).Success? ==> r == Some(parse(candidate).value)
  {
    match parse(candidate)
    case Success(v) => Some(v)
    case Failure(_) => ParseRepaired(RepairTruncated(candidate), parse)
  }

  /** The second try of a candidate: the repaired text, when there is a
      non-empty one, parsed. */
  function ParseRepaired<J>(repaired: Option<string>, parse: string -> Result<J, string>): Option<J> {
    match repaired
    case None => None
    case Some(t) =>
      if t == "" then None
      else
        match parse(t)
        case Success(v) => Some(v)
        case Failure(_) => None
  }

  /** When the direct parse fails, the only other source of a value is the
      repaired text, and only when the repair gives a non-empty one. */
  lemma {:induction false} AttemptRepaired<J>(candidate: string, parse: string -> Result<J, string>)
    requires parse(candidate).Failure?
    ensures var r := Attempt(candidate, parse);
      var repaired := RepairTruncated(candidate);
      && (r.Some? <==> repaired.Some? && repaired.value != "" && parse(repaired.value).Success?)
      && (r.Some? ==> r.value == parse(repaired.value).value)
  {
    var repaired := RepairTruncated(candidate);
    assert Attempt(candidate, parse) == ParseRepaired(repaired, parse);
    ParseRepairedMeans(repaired, parse);
  }

  lemma {:induction false} ParseRepairedMeans<J>(repaired: Option<string>, parse: string -> Result<J, string>)
    ensures var r := ParseRepaired(repaired, parse);
      && (r.Some? <==> repaired.Some? && repaired.value != "" && parse(repaired.value).Success?)
      && (r.Some? ==> r.value == parse(repaired.value).value)
  {
  }

  /** The `}` positions the scan visits, from `i` down to just after `first`:
      exactly the candidates Stage A tries, in order. */
  function Ends(content: string, first: nat, i: nat): (r: seq<nat>)
    requires first <= i < |content|
    ensures forall k :: 0 <= k < |r| ==> first < r[k] <= i
    decreases i
  {
    if i == first then []
    else if content[i] == '}' then [i] + Ends(content, first, i - 1)
    else Ends(content, first, i - 1)
  }

  /** The candidates tried are exactly the `}` positions after `first` up to
      `i`, each once, rightmost first. */
  lemma {:induction false} EndsAreCloseBraces(content: string, first: nat, i: nat)
    requires first <= i < |content|
    ensures forall k :: 0 <= k < |Ends(content, first, i)| ==>
      first < Ends(content, first, i)[k] <= i && content[Ends(content, first, i)[k]] == '}'
    ensures forall k, l :: 0 <= k < l < |Ends(content, first, i)| ==> Ends(content, first, i)[k] > Ends(content, first, i)[l]
    ensures forall j :: first < j <= i && content[j] == '}' ==> j in Ends(content, first, i)
  {
    EndsHoldCloseBraces(content, first, i);
    EndsDescend(content, first, i);
    EndsComplete(content, first, i);
  }

  lemma {:induction false} EndsHoldCloseBraces(content: string, first: nat, i: nat)
    requires first <= i < |content|
    ensures forall k :: 0 <= k < |Ends(content, first, i)| ==> content[Ends(content, first, i)[k]] == '}'
    decreases i
  {
    if i > first {
      EndsHoldCloseBraces(content, first, i - 1);
      var t := Ends(content, first, i - 1);
      if content[i] == '}' {
        var r := [i] + t;
        assert Ends(content, first, i) == r;
        forall k | 0 <= k < |r|
          ensures content[r[k]] == '}'
        {
          if k > 0 {
            assert r[k] == t[k - 1];
          }
        }
      }
    }
  }

  lemma {:induction false} EndsDescend(content: string, first: nat, i: nat)
    requires first <= i < |content|
    ensures forall k, l :: 0 <= k < l < |Ends(content, first, i)| ==> Ends(content, first, i)[k] > Ends(content, first, i)[l]
    decreases i
  {
    if i > first {
      EndsDescend(content, first, i - 1);
      var t := Ends(content, first, i - 1);
      if content[i] == '}' {
        var r := [i] + t;
        assert Ends(content, first, i) == r;
        forall k, l | 0 <= k < l < |r|
          ensures r[k] > r[l]
        {
          assert r[l] == t[l - 1];
          if k > 0 {
            assert r[k] == t[k - 1];
          }
        }
      }
    }
  }

  lemma {:induction false} EndsComplete(content: string, first: nat, i: nat)
    requires first <= i < |content|
    ensures forall j :: first < j <= i && content[j] == '}' ==> j in Ends(content, first, i)
    decreases i
  {
    if i > first {
      EndsComplete(content, first, i - 1);
      var t := Ends(content, first, i - 1);
      if content[i] == '}' {
        assert Ends(content, first, i) == [i] + t;
      }
    }
  }

  /** A winning candidate: where it ends and what it parsed to. */
  datatype Found<J> = Found(end: nat, value: J)

  /** The Stage A loop `for i in range(len(content) - 1, first_brace, -1)`,
      from index `i` downwards; `attempt` is what the loop body does with one
      candidate (`Attempt` with the parser). */
  function Scan<J>(content: string, first: nat, i: nat, attempt: string -> Option<J>): (r: Option<Found<J>>)
    requires first <= i < |content|
    // the winner ends in `}`, after `first`, and its attempt gives the value
    ensures r.Some? ==>
      && first < r.value.end <= i
      && content[r.value.end] == '}'
      && attempt(Candidate(content, first, r.value.end)) == Some(r.value.value)
    // every candidate to its right was tried and failed: the longest parseable span wins
    ensures r.Some? ==> forall j :: r.value.end < j <= i && content[j] == '}' ==>
      attempt(Candidate(content, first, j)).None?
    // no value means every candidate failed
    ensures r.None? ==> forall j :: first < j <= i && content[j] == '}' ==>
      attempt(Candidate(content, first, j)).None?
    decreases i
  {
    if i == first then None
    else if content[i] == '}' then
      match attempt(Candidate(content, first, i))
      case Some(v) => Some(Found(i, v))
      case None => Scan(content, first, i - 1, attempt)
    else Scan(content, first, i - 1, attempt)
  }

  /** The first candidate of `ends` whose attempt gives a value: the
      reference Stage A's scan is checked against. */
  function FirstSuccess<J>(content: string, first: nat, ends: seq<nat>, attempt: string -> Option<J>): (r: Option<Found<J>>)
    requires forall k :: 0 <= k < |ends| ==> first <= ends[k] < |content|
  {
    if |ends| == 0 then None
    else
      match attempt(Candidate(content, first, ends[0]))
      case Some(v) => Some(Found(ends[0], v))
      case None => FirstSuccess(content, first, ends[1..], attempt)
  }

  /** The scan tries exactly the `}` positions of `Ends`, in that order, and
      stops at the first candidate that gives a value. */
  lemma {:induction false} ScanFollowsEnds<J>(content: string, first: nat, i: nat, attempt: string -> Option<J>)
    requires first <= i < |content|
    ensures Scan(content, first, i, attempt) == FirstSuccess(content, first, Ends(content, first, i), attempt)
    decreases i
  {
    if i > first {
      ScanFollowsEnds(content, first, i - 1, attempt);
      var t := Ends(content, first, i - 1);
      if content[i] == '}' {
        var e := [i] + t;
        assert Ends(content, first, i) == e;
        assert e[0] == i && e[1..] == t;
      } else {
        assert Ends(content, first, i) == t;
        assert Scan(content, first, i, attempt) == Scan(content, first, i - 1, attempt);
      }
    }
  }

  /** No candidate of Stage A gives a value: there is no `{`, or every span
      from the first `{` to a later `}` fails both direct parsing and repair. */
  predicate NoCandidateParses<J(==)>(content: string, parse: string -> Result<J, string>) {
    var first := Find(content, '{');
    first == -1 ||
      forall j :: first < j < |content| && content[j] == '}' ==> Attempt(Candidate(content, first, j), parse).None?
  }

  /** Stage A: from the first `{`, or nothing when there is none. */
  function StageA<J(==)>(content: string, parse: string -> Result<J, string>): (r: Option<J>)
    ensures '{' !in content ==> r.None?
    // nothing is recovered exactly when no candidate gives a value
    ensures r.None? <==> NoCandidateParses(content, parse)
    // the value comes from the longest candidate that gives one
    ensures r.Some? ==>
      var first := Find(content, '{');
      && first >= 0
      && exists e :: (first < e < |content| && content[e] == '}'
        && Attempt(Candidate(content, first, e), parse) == Some(r.value)
        && forall j :: e < j < |content| && content[j] == '}' ==> Attempt(Candidate(content, first, j), parse).None?)
  {
    var first := Find(content, '{');
    FindFirst(content, '{');
    if first == -1 then None
    else
      var attempt := c => Attempt(c, parse);
      match Scan(content, first, |content| - 1, attempt)
      case None =>
        StageAFails(content, parse, first);
        None
      case Some(f) =>
        StageAWins(content, parse, first, f);
        Some(f.value)
  }

  lemma {:induction false} StageAFails<J>(content: string, parse: string -> Result<J, string>, first: nat)
    requires first < |content| && Find(content, '{') == first
    requires Scan(content, first, |content| - 1, c => Attempt(c, parse)).None?
    ensures NoCandidateParses(content, parse)
  {
    var attempt := c => Attempt(c, parse);
    forall j | first < j < |content| && content[j] == '}'
      ensures Attempt(Candidate(content, first, j), parse).None?
    {
      assert attempt(Candidate(content, first, j)).None?;
    }
  }

  lemma {:induction false} StageAWins<J>(content: string, parse: string -> Result<J, string>, first: nat, f: Found<J>)
    requires first < |content| && Find(content, '{') == first
    requires Scan(content, first, |content| - 1, c => Attempt(c, parse)) == Some(f)
    ensures first < f.end < |content| && content[f.end] == '}'
    ensures Attempt(Candidate(content, first, f.end), parse) == Some(f.value)
    ensures forall j :: f.end < j < |content| && content[j] == '}' ==> Attempt(Candidate(content, first, j), parse).None?
    ensures !NoCandidateParses(content, parse)
  {
    var attempt := c => Attempt(c, parse);
    assert attempt(Candidate(content, first, f.end)) == Some(f.value);
    forall j | f.end < j < |content| && content[j] == '}'
      ensures Attempt(Candidate(content, first, j), parse).None?
    {
      assert attempt(Candidate(content, first, j)).None?;
    }
  }

  /** Stage B: the first regular-expression match that parses. */
  function FirstParsed<J(==)>(matches: seq<string>, parse: string -> Result<J, string>): (r: Option<J>)
    // the value comes from the first match that parses
    ensures r.Some? ==> exists k :: (0 <= k < |matches| && parse(matches[k]) == Success(r.value)
      && forall j :: 0 <= j < k ==> parse(matches[j]).Failure?)
    ensures r.None? ==> forall k :: 0 <= k < |matches| ==> parse(matches[k]).Failure?
  {
    if |matches| == 0 then None
    else match parse(matches[0])
      case Success(v) =>
        assert parse(matches[0]) == Success(v);
        Some(v)
      case Failure(_) =>
        var r := FirstParsed(matches[1..], parse);
        if r.Some? then
          var k :| 0 <= k < |matches[1..]| && parse(matches[1..][k]) == Success(r.value)
            && forall j :: 0 <= j < k ==> parse(matches[1..][j]).Failure?;
          assert parse(matches[k + 1]) == Success(r.value);
          assert forall j :: 0 <= j < k + 1 ==> parse(matches[j]).Failure? by {
            forall j | 0 <= j < k + 1
              ensures parse(matches[j]).Failure?
            {
              if j > 0 {
                assert matches[j] == matches[1..][j - 1];
              }
            }
          }
          r
        else
          assert forall k :: 1 <= k < |matches| ==> matches[k] == matches[1..][k - 1];
          r
  }

  /** `_extract_json_with_regex`: Stage A, then Stage B on `matches`, the
      matches of the two patterns in order. */
  function Extract<J(==)>(content: string, parse: string -> Result<J, string>, matches: seq<string>): (r: Option<J>)
    ensures StageA(content, parse).Some? ==> r == StageA(content, parse)
    ensures StageA(content, parse).None? ==> r == FirstParsed(matches, parse)
    // nothing is recovered exactly when every candidate and every match fails
    ensures r.None? <==>
      NoCandidateParses(content, parse) && forall k :: 0 <= k < |matches| ==> parse(matches[k]).Failure?
  {
    match StageA(content, parse)
    case Some(v) => Some(v)
    case None => FirstParsed(matches, parse)
  }

  // ---------------------------------------------------------------------
  // properties of Stage A
  // ---------------------------------------------------------------------

  /** Without a `{` no candidate exists and Stage A gives nothing. */
  lemma {:induction false} NoOpenBraceNoCandidate<J>(content: string, parse: string -> Result<J, string>)
    requires '{' !in content
    ensures StageA(content, parse) == None
  {
    FindFirst(content, '{');
  }

  /** Without a `}` after the first `{` no candidate is tried, so the repair
      is never reached, and Stage A gives nothing. */
  lemma {:induction false} NoCloseBraceNoCandidate<J>(content: string, parse: string -> Result<J, string>)
    requires '{' in content
    requires '}' !in content
    ensures var first := Find(content, '{'); first >= 0 && Ends(content, first, |content| - 1) == []
    ensures StageA(content, parse) == None
  {
    FindFirst(content, '{');
    var first := Find(content, '{');
    assert forall k :: first < k <= |content| - 1 ==> content[k] != '}';
    EndsSkip(content, first, first, |content| - 1);
    ScanSkips(content, first, first, |content| - 1, c => Attempt(c, parse));
  }

  /** Positions without `}` add no candidate. */
  lemma {:induction false} EndsSkip(content: string, first: nat, j: nat, i: nat)
    requires first <= j <= i < |content|
    requires forall k :: j < k <= i ==> content[k] != '}'
    ensures Ends(content, first, i) == Ends(content, first, j)
    decreases i
  {
    if i > j {
      EndsSkip(content, first, j, i - 1);
    }
  }

  /** Every candidate Stage A tries starts with `{` and ends with `}`: Step 1
      of the repair leaves it unchanged, and the repair only appends to it,
      leaving even quotes and no unclosed `[` or `{`. */
  lemma {:induction false} CandidatesAreBraced(content: string, first: nat, i: nat)
    requires first <= i < |content|
    requires content[first] == '{' && content[i] == '}'
    ensures var c := Candidate(content, first, i);
      && FinishLastLine(c) == c
      && StartsWith(RepairTruncated(c).value, c)
      && Unescaped(RepairTruncated(c).value, '"') % 2 == 0
      && Unescaped(RepairTruncated(c).value, '[') <= Unescaped(RepairTruncated(c).value, ']')
      && Unescaped(RepairTruncated(c).value, '{') <= Unescaped(RepairTruncated(c).value, '}')
  {
    var c := Candidate(content, first, i);
    BracedTextSkipsStep1(c);
    RepairOfBracedText(c);
  }

  /** Scanning down over positions that hold no `}` changes nothing. */
  lemma {:induction false} ScanSkips<J>(content: string, first: nat, j: nat, i: nat, attempt: string -> Option<J>)
    requires first <= j <= i < |content|
    requires forall k :: j < k <= i ==> content[k] != '}'
    ensures Scan(content, first, i, attempt) == Scan(content, first, j, attempt)
    decreases i
  {
    if i > j {
      ScanSkips(content, first, j, i - 1, attempt);
    }
  }

  /** Recovery of an embedded object: prose without `{` before it and
      without `}` after it is ignored, and an object that parses is found. */
  lemma {:induction false} EmbeddedObjectFound<J>(pre: string, obj: string, post: string, parse: string -> Result<J, string>)
    requires '{' !in pre && '}' !in post
    requires |obj| > 0 && obj[0] == '{' && obj[|obj| - 1] == '}'
    requires parse(obj).Success?
    ensures StageA(pre + obj + post, parse) == Some(parse(obj).value)
  {
    var content := pre + obj + post;
    var first := |pre|;
    var last := |pre| + |obj| - 1;
    FindOpenBrace(pre, obj + post);
    AppendAssoc(pre, obj, post);
    assert Find(content, '{') == first;
    assert content[last] == '}' && last > first;
    forall k | last < k <= |content| - 1
      ensures content[k] != '}'
    {
      assert content[k] == post[k - |pre| - |obj|];
    }
    ScanSkips(content, first, last, |content| - 1, c => Attempt(c, parse));
    assert Candidate(content, first, last) == obj;
  }

  /** `Find` answers the position of a `c` with none before it. */
  lemma {:induction false} FindIs(s: string, c: char, k: nat)
    requires k < |s| && s[k] == c
    requires forall j :: 0 <= j < k ==> s[j] != c
    ensures Find(s, c) == k
    decreases k
  {
    if k > 0 {
      assert forall j :: 0 <= j < k - 1 ==> s[1..][j] == s[j + 1];
      FindIs(s[1..], c, k - 1);
    }
  }

  /** The first `{` of a text whose prefix holds none is where the rest starts. */
  lemma {:induction false} FindOpenBrace(pre: string, rest: string)
    requires '{' !in pre && |rest| > 0 && rest[0] == '{'
    ensures Find(pre + rest, '{') == |pre|
  {
    var s := pre + rest;
    assert forall j :: 0 <= j < |pre| ==> s[j] == pre[j];
    FindIs(s, '{', |pre|);
  }

  /** A text that is itself an object which parses is returned as is. */
  lemma {:induction false} WholeObjectFound<J>(obj: string, parse: string -> Result<J, string>, matches: seq<string>)
    requires |obj| > 0 && obj[0] == '{' && obj[|obj| - 1] == '}'
    requires parse(obj).Success?
    ensures Extract(obj, parse, matches) == Some(parse(obj).value)
  {
    assert "" + obj + "" == obj;
    EmbeddedObjectFound("", obj, "", parse);
    assert StageA(obj, parse) == Some(parse(obj).value);
  }
}

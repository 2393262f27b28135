/** `OllamaProvider.complete` and `complete_json`: request assembly, the
    retry loop with exponential backoff over a transport, and the JSON
    decoding that follows a completion. The transport (`litellm.completion`)
    is a parameter giving the outcome of each call by its position; the
    backoff sleeps are returned as the list of requested waits. */
module Provider {
  import opened Wrappers
  import opened Text
  import opened Errors
  import opened Markdown
  import opened Recovery

  /** The provider's configuration: endpoint, default model, per-call timeout
      and attempt limit. */
  datatype Config = Config(baseUrl: string, defaultModel: string, timeout: int, maxRetries: int)

  /** The fields of `LLMRequest` the provider reads (temperature is passed
      through untouched and left out). `None` and empty values are both
      falsy in the source. */
  datatype Request = Request(
    prompt: string,
    systemMessage: Option<string>,
    model: Option<string>,
    maxTokens: int,
    stopSequences: Option<seq<string>>)

  datatype Role = System | User

  datatype Message = Message(role: Role, content: string)

  /** The keyword arguments handed to the transport; `stop` is absent when
      `None`. */
  datatype CallParams = CallParams(
    model: string,
    messages: seq<Message>,
    maxTokens: int,
    apiBase: string,
    timeout: int,
    stop: Option<seq<string>>)

  /** What the transport returns. */
  datatype Choice = Choice(content: Option<string>, finishReason: string)

  /** The `usage` entry; an absent key is `None`. */
  datatype Usage = Usage(promptTokens: Option<int>, completionTokens: Option<int>, totalTokens: Option<int>)

  datatype Reply = Reply(choices: seq<Choice>, usage: Usage)

  /** One transport call: it raises with a message, or replies. */
  datatype Outcome = Raised(message: string) | Replied(reply: Reply)

  datatype Tokens = Tokens(prompt: int, completion: int, total: int)

  /** `LLMResponse` without the wall-clock duration. */
  datatype Response = Response(
    content: string,
    model: string,
    tokens: Tokens,
    finishReason: string,
    attempt: nat,
    baseUrl: string)

  const Prefix := "ollama/"
  const EmptyReply := "Ollama devolvió respuesta vacía"
  /** Python's message for indexing an empty list of choices. */
  const NoChoice := "list index out of range"
  const UnknownError := "Error desconocido en llamada a Ollama"

  // ---------------------------------------------------------------------
  // request assembly
  // ---------------------------------------------------------------------

  /** `request.model or self.default_model`, then the `ollama/` prefix. */
  function ResolveModel(requested: Option<string>, defaultModel: string): (r: string)
    ensures StartsWith(r, Prefix)
    // the chosen name is kept as it is when it already carries the prefix,
    // and otherwise gets the prefix exactly once in front
    ensures var m := if requested.Some? && requested.value != "" then requested.value else defaultModel;
      (StartsWith(m, Prefix) ==> r == m) && (!StartsWith(m, Prefix) ==> r == Prefix + m)
  {
    var m := if requested.Some? && requested.value != "" then requested.value else defaultModel;
    if StartsWith(m, Prefix) then m
    else
      assert (Prefix + m)[..|Prefix|] == Prefix;
      Prefix + m
  }

  /** Resolving an already resolved name changes nothing: the prefix is never
      doubled. */
  lemma {:induction false} ResolveModelIdempotent(requested: Option<string>, d1: string, d2: string)
    ensures ResolveModel(Some(ResolveModel(requested, d1)), d2) == ResolveModel(requested, d1)
  {
    var r := ResolveModel(requested, d1);
    assert r != "" by {
      assert |r| >= |Prefix|;
    }
  }

  /** The system message, when present and non-empty, then the user prompt. */
  function BuildMessages(req: Request): (r: seq<Message>)
    ensures 1 <= |r| <= 2
    ensures r[|r| - 1] == Message(User, req.prompt)
    ensures |r| == 2 <==> req.systemMessage.Some? && req.systemMessage.value != ""
    ensures |r| == 2 ==> r[0] == Message(System, req.systemMessage.value)
  {
    var user := Message(User, req.prompt);
    if req.systemMessage.Some? && req.systemMessage.value != "" then
      [Message(System, req.systemMessage.value), user]
    else [user]
  }

  /** The transport arguments. */
  function BuildParams(cfg: Config, req: Request): (r: CallParams)
    ensures r.model == ResolveModel(req.model, cfg.defaultModel)
    ensures StartsWith(r.model, Prefix)
    ensures r.apiBase == cfg.baseUrl && r.timeout == cfg.timeout && r.maxTokens == req.maxTokens
    ensures r.messages == BuildMessages(req)
    // the `stop` key is present exactly when there are stop sequences, and then holds them
    ensures r.stop.Some? <==> req.stopSequences.Some? && |req.stopSequences.value| > 0
    ensures r.stop.Some? ==> r.stop.value == req.stopSequences.value
  {
    var stop := if req.stopSequences.Some? && |req.stopSequences.value| > 0 then req.stopSequences else None;
    CallParams(ResolveModel(req.model, cfg.defaultModel), BuildMessages(req), req.maxTokens, cfg.baseUrl, cfg.timeout, stop)
  }

  // ---------------------------------------------------------------------
  // one attempt
  // ---------------------------------------------------------------------

  /** `usage.get(key, 0)`. */
  function CountOrZero(n: Option<int>): (r: int)
    ensures n.None? ==> r == 0
    ensures n.Some? ==> r == n.value
  {
    match n
    case None => 0
    case Some(v) => v
  }

  /** The body of one attempt: the response, or the text of what was raised
      (`str(e)`). An empty or missing content is raised like any other
      failure. */
  function ReadOutcome(cfg: Config, params: CallParams, attempt: nat, outcome: Outcome): (r: Result<Response, string>)
    ensures outcome.Raised? ==> r == Failure(outcome.message)
    ensures outcome.Replied? && |outcome.reply.choices| == 0 ==> r == Failure(NoChoice)
    // a response always has content, and records the attempt that produced it
    ensures r.Success? ==>
      && outcome.Replied? && |outcome.reply.choices| > 0
      && outcome.reply.choices[0].content == Some(r.value.content)
      && r.value.content != ""
      && r.value.attempt == attempt
      && r.value.model == params.model
      && r.value.baseUrl == cfg.baseUrl
      && r.value.tokens.prompt == CountOrZero(outcome.reply.usage.promptTokens)
      && r.value.tokens.completion == CountOrZero(outcome.reply.usage.completionTokens)
      && r.value.tokens.total == CountOrZero(outcome.reply.usage.totalTokens)
      && r.value.finishReason == outcome.reply.choices[0].finishReason
    ensures outcome.Replied? && |outcome.reply.choices| > 0 && r.Failure? ==> r.error == EmptyReply
    ensures outcome.Replied? && |outcome.reply.choices| > 0 ==>
      (r.Failure? <==> outcome.reply.choices[0].content in {None, Some("")})
  {
    match outcome
    case Raised(m) => Failure(m)
    case Replied(reply) =>
      if |reply.choices| == 0 then Failure(NoChoice)
      else
        var choice := reply.choices[0];
        match choice.content
        case None => Failure(EmptyReply)
        case Some(c) =>
          if c == "" then Failure(EmptyReply)
          else
            var u := reply.usage;
            var tokens := Tokens(CountOrZero(u.promptTokens), CountOrZero(u.completionTokens), CountOrZero(u.totalTokens));
            Success(Response(c, params.model, tokens, choice.finishReason, attempt, cfg.baseUrl))
  }

  // ---------------------------------------------------------------------
  // the retry loop
  // ---------------------------------------------------------------------

  /** `2 ** k`. */
  function Pow2(k: nat): (r: nat)
    ensures r >= 1
  {
    if k == 0 then 1 else 2 * Pow2(k - 1)
  }

  /** The waits after the first `n` failed attempts: 1, 2, 4, ... seconds. */
  function Waits(n: nat): (r: seq<nat>)
    ensures |r| == n
    ensures forall k :: 0 <= k < n ==> r[k] == Pow2(k)
  {
    if n == 0 then []
    else
      var prev := Waits(n - 1);
      assert forall k :: 0 <= k < n - 1 ==> (prev + [Pow2(n - 1)])[k] == prev[k];
      prev + [Pow2(n - 1)]
  }

  /** The attempts from `attempt` on, as a recursion: the reference the loop
      is checked against. */
  function RetryFrom(cfg: Config, params: CallParams, transport: nat -> Outcome, attempt: nat): (r: Result<Response, ProviderError>)
    requires attempt < cfg.maxRetries
    // a response has content and comes from one of the remaining attempts
    ensures r.Success? ==>
      && attempt < r.value.attempt <= cfg.maxRetries
      && r.value.content != ""
      && r.value.model == params.model
    // a failure is raised only after the last allowed attempt failed, and it
    // is that attempt's failure, classified
    ensures r.Failure? ==>
      && ReadOutcome(cfg, params, cfg.maxRetries, transport(cfg.maxRetries - 1)).Failure?
      && r.error == Classify(cfg.baseUrl, cfg.defaultModel, FailureText(cfg, params, cfg.maxRetries - 1, transport))
    decreases cfg.maxRetries - attempt
  {
    match ReadOutcome(cfg, params, attempt + 1, transport(attempt))
    case Success(resp) => Success(resp)
    case Failure(m) =>
      if attempt < cfg.maxRetries - 1 then RetryFrom(cfg, params, transport, attempt + 1)
      else Failure(Classify(cfg.baseUrl, cfg.defaultModel, m))
  }

  /** What `complete` returns or raises. */
  function RetryOutcome(cfg: Config, req: Request, transport: nat -> Outcome): (r: Result<Response, ProviderError>)
    // without any allowed attempt, the fallback unknown error is raised
    ensures cfg.maxRetries <= 0 ==> r == Failure(ProviderError(Generic, UnknownError))
    ensures r.Success? ==>
      && 1 <= r.value.attempt <= cfg.maxRetries
      && r.value.content != ""
      && r.value.model == ResolveModel(req.model, cfg.defaultModel)
    ensures r.Failure? && cfg.maxRetries > 0 ==>
      && ReadOutcome(cfg, BuildParams(cfg, req), cfg.maxRetries, transport(cfg.maxRetries - 1)).Failure?
      && r.error == Classify(cfg.baseUrl, cfg.defaultModel, FailureText(cfg, BuildParams(cfg, req), cfg.maxRetries - 1, transport))
  {
    if cfg.maxRetries <= 0 then Failure(ProviderError(Generic, UnknownError))
    else RetryFrom(cfg, BuildParams(cfg, req), transport, 0)
  }

  /** The text of a failed attempt. */
  function FailureText(cfg: Config, params: CallParams, k: nat, transport: nat -> Outcome): string
    requires ReadOutcome(cfg, params, k + 1, transport(k)).Failure?
  {
    ReadOutcome(cfg, params, k + 1, transport(k)).error
  }

  /** How many transport calls the attempts from `attempt` on make: they stop
      at the first success or after the last allowed attempt. */
  function CallsFrom(cfg: Config, params: CallParams, transport: nat -> Outcome, attempt: nat): (r: nat)
    requires attempt < cfg.maxRetries
    decreases cfg.maxRetries - attempt
  {
    if ReadOutcome(cfg, params, attempt + 1, transport(attempt)).Success? || attempt == cfg.maxRetries - 1 then attempt + 1
    else CallsFrom(cfg, params, transport, attempt + 1)
  }

  /** How many transport calls `complete` makes. */
  function CallCount(cfg: Config, req: Request, transport: nat -> Outcome): nat {
    if cfg.maxRetries <= 0 then 0 else CallsFrom(cfg, BuildParams(cfg, req), transport, 0)
  }

  /** `complete`: up to `maxRetries` calls; after every failed call but the
      last, a wait of `2 ** attempt` seconds; the last failure, classified,
      is raised. `calls` counts transport calls, `sent` lists the arguments
      each call received and `sleeps` lists the waits. `RetryFacts` states
      what the results mean. */
  method Complete(cfg: Config, req: Request, transport: nat -> Outcome)
    returns (r: Result<Response, ProviderError>, calls: nat, sent: seq<CallParams>, sleeps: seq<nat>)
    ensures r == RetryOutcome(cfg, req, transport)
    ensures calls == CallCount(cfg, req, transport)
    // every call receives the same arguments, built from the request
    ensures |sent| == calls && forall k :: 0 <= k < |sent| ==> sent[k] == BuildParams(cfg, req)
    // one wait after each call but the last
    ensures sleeps == Waits(if calls == 0 then 0 else calls - 1)
  {
    var params := BuildParams(cfg, req);
    calls := 0;
    sent := [];
    sleeps := [];
    r := Failure(ProviderError(Generic, UnknownError));
    var attempt: nat := 0;
    while attempt < cfg.maxRetries
      invariant cfg.maxRetries > 0 ==> attempt < cfg.maxRetries
      invariant cfg.maxRetries <= 0 ==> attempt == 0
      invariant calls == attempt && sleeps == Waits(attempt)
      invariant sent == seq(attempt, _ => params)
      invariant r == Failure(ProviderError(Generic, UnknownError))
      invariant cfg.maxRetries > 0 ==>
        && RetryOutcome(cfg, req, transport) == RetryFrom(cfg, params, transport, attempt)
        && CallCount(cfg, req, transport) == CallsFrom(cfg, params, transport, attempt)
      decreases cfg.maxRetries - attempt
    {
      var outcome := transport(attempt);
      calls := calls + 1;
      sent := sent + [params];
      assert sent == seq(attempt + 1, _ => params);
      match ReadOutcome(cfg, params, attempt + 1, outcome)
      case Success(resp) =>
        r := Success(resp);
        return;
      case Failure(m) =>
        var err := Classify(cfg.baseUrl, cfg.defaultModel, m);
        if attempt < cfg.maxRetries - 1 {
          sleeps := sleeps + [Pow2(attempt)];
        } else {
          r := Failure(err);
          return;
        }
      attempt := attempt + 1;
    }
  }

  /** The attempts from `attempt` on stop after at least one and at most the
      remaining calls, and every call before the last one failed. */
  lemma {:induction false} CallsFromFacts(cfg: Config, params: CallParams, transport: nat -> Outcome, attempt: nat)
    requires attempt < cfg.maxRetries
    ensures var n := CallsFrom(cfg, params, transport, attempt);
      && attempt < n <= cfg.maxRetries
      && (forall k :: attempt <= k < n - 1 ==> ReadOutcome(cfg, params, k + 1, transport(k)).Failure?)
    decreases cfg.maxRetries - attempt
  {
    var n := CallsFrom(cfg, params, transport, attempt);
    var first := ReadOutcome(cfg, params, attempt + 1, transport(attempt));
    if first.Failure? && attempt < cfg.maxRetries - 1 {
      CallsFromFacts(cfg, params, transport, attempt + 1);
      assert n == CallsFrom(cfg, params, transport, attempt + 1);
      forall k | attempt <= k < n - 1
        ensures ReadOutcome(cfg, params, k + 1, transport(k)).Failure?
      {
        if k == attempt {
          assert ReadOutcome(cfg, params, k + 1, transport(k)) == first;
        }
      }
    } else {
      assert n == attempt + 1;
    }
  }

  /** The attempts from `attempt` on: a response comes from the last call and
      is numbered by it; on total failure all remaining attempts were used. */
  lemma {:induction false} RetryFromFacts(cfg: Config, params: CallParams, transport: nat -> Outcome, attempt: nat)
    requires attempt < cfg.maxRetries
    ensures var n := CallsFrom(cfg, params, transport, attempt);
      var r := RetryFrom(cfg, params, transport, attempt);
      r.Success? ==>
        && r.value.attempt == n
        && ReadOutcome(cfg, params, n, transport(n - 1)) == Success(r.value)
    ensures var n := CallsFrom(cfg, params, transport, attempt);
      var r := RetryFrom(cfg, params, transport, attempt);
      r.Failure? ==> n == cfg.maxRetries
    decreases cfg.maxRetries - attempt
  {
    var n := CallsFrom(cfg, params, transport, attempt);
    var first := ReadOutcome(cfg, params, attempt + 1, transport(attempt));
    if first.Failure? && attempt < cfg.maxRetries - 1 {
      RetryFromFacts(cfg, params, transport, attempt + 1);
      assert n == CallsFrom(cfg, params, transport, attempt + 1);
      assert RetryFrom(cfg, params, transport, attempt) == RetryFrom(cfg, params, transport, attempt + 1);
    } else {
      assert n == attempt + 1;
      if first.Success? {
        assert RetryFrom(cfg, params, transport, attempt) == Success(first.value);
      }
    }
  }

  /** What `complete`'s results mean: between 1 and `maxRetries` calls (none,
      and the unknown-error fallback, when `maxRetries <= 0`); every call
      before the last failed; a response comes from the last call, numbered
      by it; on total failure every call failed and the classification of the
      last failure is raised. */
  lemma {:induction false} RetryFacts(cfg: Config, req: Request, transport: nat -> Outcome)
    ensures cfg.maxRetries <= 0 ==>
      CallCount(cfg, req, transport) == 0 && RetryOutcome(cfg, req, transport) == Failure(ProviderError(Generic, UnknownError))
    ensures cfg.maxRetries > 0 ==> 1 <= CallCount(cfg, req, transport) <= cfg.maxRetries
    ensures forall k :: 0 <= k < CallCount(cfg, req, transport) - 1 ==>
      ReadOutcome(cfg, BuildParams(cfg, req), k + 1, transport(k)).Failure?
    ensures var n := CallCount(cfg, req, transport);
      var r := RetryOutcome(cfg, req, transport);
      r.Success? ==>
        && r.value.attempt == n && r.value.content != ""
        && ReadOutcome(cfg, BuildParams(cfg, req), n, transport(n - 1)) == Success(r.value)
    ensures var n := CallCount(cfg, req, transport);
      var r := RetryOutcome(cfg, req, transport);
      r.Failure? && cfg.maxRetries > 0 ==>
        && n == cfg.maxRetries
        && ReadOutcome(cfg, BuildParams(cfg, req), n, transport(n - 1)).Failure?
        && r.error == Classify(cfg.baseUrl, cfg.defaultModel, FailureText(cfg, BuildParams(cfg, req), n - 1, transport))
  {
    if cfg.maxRetries > 0 {
      CallsFromFacts(cfg, BuildParams(cfg, req), transport, 0);
      RetryFromFacts(cfg, BuildParams(cfg, req), transport, 0);
    }
  }

  /** When every call fails, `complete` makes exactly `maxRetries` calls and
      raises the classification of the last failure. */
  lemma {:induction false} AllFailRaisesLast(cfg: Config, params: CallParams, transport: nat -> Outcome, attempt: nat)
    requires attempt < cfg.maxRetries
    requires forall k :: attempt <= k < cfg.maxRetries ==> ReadOutcome(cfg, params, k + 1, transport(k)).Failure?
    ensures RetryFrom(cfg, params, transport, attempt)
      == Failure(Classify(cfg.baseUrl, cfg.defaultModel, FailureText(cfg, params, cfg.maxRetries - 1, transport)))
    decreases cfg.maxRetries - attempt
  {
    if attempt < cfg.maxRetries - 1 {
      AllFailRaisesLast(cfg, params, transport, attempt + 1);
    }
  }

  /** Two transports whose calls read the same way give the same result: the
      loop looks at a call only through `ReadOutcome`. */
  lemma {:induction false} SameReadsSameRetry(cfg: Config, params: CallParams, t1: nat -> Outcome, t2: nat -> Outcome, attempt: nat)
    requires attempt < cfg.maxRetries
    requires forall k :: attempt <= k < cfg.maxRetries ==>
      ReadOutcome(cfg, params, k + 1, t1(k)) == ReadOutcome(cfg, params, k + 1, t2(k))
    ensures RetryFrom(cfg, params, t1, attempt) == RetryFrom(cfg, params, t2, attempt)
    decreases cfg.maxRetries - attempt
  {
    if attempt < cfg.maxRetries - 1 {
      SameReadsSameRetry(cfg, params, t1, t2, attempt + 1);
    }
  }

  /** A reply whose first choice has empty or missing content reads exactly
      like a call that raised the empty-reply error, so it is classified and
      retried the same way. */
  lemma {:induction false} EmptyReplyIsRaised(cfg: Config, params: CallParams, attempt: nat, reply: Reply)
    requires |reply.choices| > 0 && reply.choices[0].content in {None, Some("")}
    ensures ReadOutcome(cfg, params, attempt, Replied(reply)) == ReadOutcome(cfg, params, attempt, Raised(EmptyReply))
  {
  }

  /** A transport that raises the same message on every call: `complete`
      raises that message's classification, and for a refused connection that
      is the connection error naming the endpoint. */
  lemma {:induction false} AlwaysRaising(cfg: Config, req: Request, m: string)
    requires cfg.maxRetries > 0
    ensures RetryOutcome(cfg, req, (k: nat) => Raised(m)) == Failure(Classify(cfg.baseUrl, cfg.defaultModel, m))
    ensures RuleFor(m) == ConnectionRule ==>
      && RetryOutcome(cfg, req, (k: nat) => Raised(m)).error.kind == Generic
      && StartsWith(RetryOutcome(cfg, req, (k: nat) => Raised(m)).error.message, ConnectionLead)
      && Contains(RetryOutcome(cfg, req, (k: nat) => Raised(m)).error.message, cfg.baseUrl)
  {
    var t := (k: nat) => Raised(m);
    var params := BuildParams(cfg, req);
    assert forall k :: 0 <= k < cfg.maxRetries ==> ReadOutcome(cfg, params, k + 1, t(k)) == Failure(m);
    AllFailRaisesLast(cfg, params, t, 0);
  }

  /** The waits double: 1, 2, 4, ... seconds. */
  lemma {:induction false} BackoffDoubles(k: nat)
    ensures Pow2(k + 1) == 2 * Pow2(k)
    ensures Pow2(0) == 1
  {
  }

  // ---------------------------------------------------------------------
  // complete_json
  // ---------------------------------------------------------------------

  /** The appended instruction, "\n\nIMPORTANTE: Responde ÚNICAMENTE con un
      objeto JSON válido. No incluyas explicaciones ni texto adicional.", in
      three parts around its mention of `JSON`. */
  const InstructionHead := "\n\nIMPORTANTE: Responde ÚNICAMENTE con un objeto "
  const InstructionTail := " válido. No incluyas explicaciones ni texto adicional."
  const JsonInstruction := InstructionHead + "JSON" + InstructionTail

  /** The prompt gets the JSON instruction unless it already mentions
      `JSON` or `json` (exactly these two spellings). */
  function JsonPrompt(prompt: string): (r: string)
    ensures StartsWith(r, prompt)
    ensures r == prompt <==> Contains(prompt, "JSON") || Contains(prompt, "json")
    ensures r != prompt ==> r == prompt + JsonInstruction
  {
    if !Contains(prompt, "JSON") && !Contains(prompt, "json") then
      assert (prompt + JsonInstruction)[..|prompt|] == prompt;
      prompt + JsonInstruction
    else prompt
  }

  /** Only the prompt of the request changes. */
  function JsonRequest(req: Request): (r: Request)
    ensures r.prompt == JsonPrompt(req.prompt)
    ensures r.systemMessage == req.systemMessage && r.model == req.model
    ensures r.maxTokens == req.maxTokens && r.stopSequences == req.stopSequences
  {
    req.(prompt := JsonPrompt(req.prompt))
  }

  /** The instruction itself mentions `JSON`, so it is added at most once. */
  lemma {:induction false} JsonPromptIdempotent(prompt: string)
    ensures JsonPrompt(JsonPrompt(prompt)) == JsonPrompt(prompt)
  {
    var r := JsonPrompt(prompt);
    if r != prompt {
      InstructionMentionsJson();
      ContainsMiddle(prompt, JsonInstruction, "");
      assert prompt + JsonInstruction + "" == r;
      ContainsTransitive(r, JsonInstruction, "JSON");
    }
  }

  lemma {:induction false} InstructionMentionsJson()
    ensures Contains(JsonInstruction, "JSON")
  {
    ContainsMiddle(InstructionHead, "JSON", InstructionTail);
  }

  /** At most the first `n` characters (`s[:n]`). */
  function Head(s: string, n: nat): (r: string)
    ensures |r| == if |s| < n then |s| else n
    ensures StartsWith(s, r)
  {
    if |s| <= n then s else s[..n]
  }

  const ParseFailureLead := "No se pudo parsear JSON: "
  const ContentLead := "\nContenido: "

  /** The error raised when neither parsing nor recovery succeeds: a generic
      error that leads with the parser's message and quotes at most the first
      200 characters of the unwrapped text. */
  function ParseFailure(parseError: string, cleaned: string): (r: ProviderError)
    ensures r.kind == Generic
    ensures StartsWith(r.message, ParseFailureLead + parseError)
    ensures Contains(r.message, Head(cleaned, 200))
    ensures EndsWith(r.message, "...")
    ensures |r.message| <= |ParseFailureLead + parseError + ContentLead| + 200 + 3
  {
    var h := Head(cleaned, 200);
    ParseMessageFacts(ParseFailureLead + parseError, h);
    ProviderError(Generic, ParseFailureLead + parseError + ContentLead + h + "...")
  }

  /** The decoding half of `complete_json`: trim and unwrap the content, parse
      it, fall back to recovery (`patterns` gives the Stage B matches of a
      text), and otherwise raise with the parser's message and an excerpt. */
  function DecodeJson<J(==)>(content: string, parse: string -> Result<J, string>, patterns: string -> seq<string>): (r: Result<J, ProviderError>)
    // a direct parse of the unwrapped text is returned without recovery
    ensures var cleaned := Clean(Strip(content));
      parse(cleaned).Success? ==> r == Success(parse(cleaned).value)
    // recovery is consulted only after a failed direct parse
    ensures var cleaned := Clean(Strip(content));
      parse(cleaned).Failure? && Extract(cleaned, parse, patterns(cleaned)).Some? ==>
        r == Success(Extract(cleaned, parse, patterns(cleaned)).value)
    // when both fail, the parser's message and an excerpt are raised
    ensures var cleaned := Clean(Strip(content));
      parse(cleaned).Failure? && Extract(cleaned, parse, patterns(cleaned)).None? ==>
        r == Failure(ParseFailure(parse(cleaned).error, cleaned))
    // total failure is a generic error that quotes the start of the unwrapped text
    ensures var cleaned := Clean(Strip(content));
      r.Failure? ==>
        && r.error.kind == Generic
        && StartsWith(r.error.message, ParseFailureLead + parse(cleaned).error)
        && Contains(r.error.message, Head(cleaned, 200))
        && EndsWith(r.error.message, "...")
  {
    var cleaned := Clean(Strip(content));
    match parse(cleaned)
    case Success(v) => Success(v)
    case Failure(e) =>
      match Extract(cleaned, parse, patterns(cleaned))
      case Some(v) => Success(v)
      case None =>
        Failure(ParseFailure(e, cleaned))
  }

  /** Round trip through the main path: a trimmed text that parses, wrapped
      in a "```json" fence, decodes to its own parse without recovery. */
  lemma {:induction false} FencedJsonDecodes<J>(s: string, parse: string -> Result<J, string>, patterns: string -> seq<string>)
    requires IsStripped(s) && parse(s).Success?
    ensures DecodeJson("```json\n" + s + "\n```", parse, patterns) == Success(parse(s).value)
  {
    var w := "```json\n" + s + "\n```";
    assert w[0] == '`' && w[|w| - 1] == '`';
    StripStripped(w);
    JsonFenceRoundTrip(s);
    assert Clean(Strip(w)) == s;
  }

  lemma {:induction false} ParseMessageFacts(a: string, h: string)
    ensures var m := a + ContentLead + h + "...";
      && StartsWith(m, a)
      && Contains(m, h)
      && EndsWith(m, "...")
  {
    var m := a + ContentLead + h + "...";
    assert m == a + (ContentLead + h + "...");
    assert m[..|a|] == a;
    ContainsMiddle(a + ContentLead, h, "...");
  }

  /** `complete_json`: the request with the JSON instruction is completed, and
      its content decoded; errors of the completion propagate unchanged. */
  method CompleteJson<J(==)>(cfg: Config, req: Request, transport: nat -> Outcome,
                             parse: string -> Result<J, string>, patterns: string -> seq<string>)
    returns (r: Result<J, ProviderError>)
    ensures RetryOutcome(cfg, JsonRequest(req), transport).Failure? ==>
      r == Failure(RetryOutcome(cfg, JsonRequest(req), transport).error)
    ensures RetryOutcome(cfg, JsonRequest(req), transport).Success? ==>
      r == DecodeJson(RetryOutcome(cfg, JsonRequest(req), transport).value.content, parse, patterns)
  {
    var response, _, _, _ := Complete(cfg, JsonRequest(req), transport);
    match response
    case Failure(err) =>
      r := Failure(err);
    case Success(resp) =>
      r := DecodeJson(resp.content, parse, patterns);
  }
}

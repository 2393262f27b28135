# Ollama provider: a Dafny model

This project models the core of `OllamaProvider`, the component of the
document-homologation tool that sends prompts to a local Ollama server through
LiteLLM and turns the answer into text or into a parsed JSON object. The model
covers these parts:

- request assembly: model-name resolution with the `ollama/` prefix, the
  message list, and the call parameters;
- the retry loop of `complete`, with its `2 ** attempt` second waits;
- the error classifier;
- the JSON path of `complete_json`:
  - markdown unwrapping;
  - the two-stage JSON recovery;
  - the heuristic repair of truncated JSON.

Modules, one per concern of the source:

| module | file | models |
|---|---|---|
| `Wrappers` | wrappers.dfy | `Option` and `Result` |
| `Text` | text.dfy | the Python string operations used: `strip`, `rstrip`, `find`, `in`, `startswith`, `endswith`, `split`, `join`, `count`, `lower` |
| `Errors` | errors.dfy | `_classify_error` and the two error classes it produces |
| `Markdown` | markdown.dfy | `_clean_markdown_wrapper` |
| `Repair` | repair.dfy | `_repair_truncated_json`, Steps 1 to 4 |
| `Recovery` | recovery.dfy | `_extract_json_with_regex` |
| `Provider` | provider.dfy | `complete` and `complete_json` |

How the outside world appears in the model:

- **The LiteLLM call is a parameter.** `transport: nat -> Outcome` gives the
  result of the call made at each attempt. A call either raises, with the text
  of its exception, or replies with choices and usage.
- **`time.sleep` is not performed.** `Provider.Complete` returns the list of
  waits it requests, together with the number of calls it made and the
  parameters each call received.
- **`json.loads` is a parameter.** `parse: string -> Result<J, string>` gives
  the parsed value, or the message of the `JSONDecodeError`.
- **Stage B of the recovery is a parameter.** `patterns` maps a text to its
  regular-expression matches: those of the object pattern, then those of the
  array pattern.
- **`str()` of the provider's own errors is their message.** This matters for
  the empty-reply error, which is raised inside the attempt and classified like
  any other failure.

## Model

| member | source | states |
|---|---|---|
| Errors.RuleFor | src/providers/ollama_provider.py:412-431 | The rules are tried in order on the lower-cased error text: timeout, then connection, then not-found, then fallback. Each rule fires exactly when its words occur and no earlier rule's words do. |
| Errors.Classify | src/providers/ollama_provider.py:402-431 | The timeout class is produced exactly when "timeout" or "timed out" occurs, with the original text appended. A connection error names the base URL and ends with the original text. A not-found error names the default model and drops the original text. Anything else is wrapped with the generic lead. |
| Errors.ClassifyIgnoresCase | src/providers/ollama_provider.py:412-425 | Two error texts that lower-case alike are classified by the same rule and get the same error class. |
| Markdown.Clean | src/providers/ollama_provider.py:254-279 | The result is always trimmed. A "```json" opening is removed together with a closing fence if there is one, and the rest is trimmed. Text that does not open with a fence is only trimmed. A generic fence is removed exactly from a block of more than two lines whose last line is a fence, and the block's interior is kept. |
| Markdown.AfterJsonFence | src/providers/ollama_provider.py:267-271 | Only the opening "```json" and, when the rest ends with one, a closing "```" are removed. |
| Markdown.CleanTakesPiece | src/providers/ollama_provider.py:264-279 | The unwrapped text is a contiguous piece of the input, so it is never longer than the input. |
| Markdown.JsonFenceRoundTrip | src/providers/ollama_provider.py:267-271 | Wrapping a trimmed text in a "```json" fence and unwrapping it gives the text back. |
| Markdown.GenericFenceRoundTrip | src/providers/ollama_provider.py:274-277 | Wrapping a trimmed text between "```" lines and unwrapping it gives the text back. |
| Markdown.FencedLines | src/providers/ollama_provider.py:275-276 | Splitting a fenced text into lines gives the opening fence, the text's own lines, and the closing fence. |
| Text.JoinSplit | src/providers/ollama_provider.py:342 | Splitting on newlines and joining with newlines gives the text back. |
| Repair.UnescapedIsNet | src/providers/ollama_provider.py:374 | `count(c) - count('\\' + c)` equals the occurrences of `c` minus those directly preceded by a backslash. |
| Repair.LastLine | src/providers/ollama_provider.py:342-345 | The result is the last of the lines of the trimmed input, stripped, and it holds no newline. |
| Repair.LastLineKeepsEnd | src/providers/ollama_provider.py:342-345 | The last line of a trimmed text ends with the text's own last character. |
| Repair.CloseUnbalanced | src/providers/ollama_provider.py:350-356 | Exactly as many closing characters are appended as openings outnumber closings, and nothing else, so the line ends balanced. |
| Repair.CloseValue | src/providers/ollama_provider.py:348-361 | Closing a truncated string value only appends to the line. First come exactly as many `)` as `(` outnumbers `)`, then exactly as many `]` as `[` outnumbers `]`. Last comes the quote its `": "` or `': '` calls for, and this quote is appended exactly when something was closed or the line does not already end with it. |
| Repair.CloseLastLine | src/providers/ollama_provider.py:363-365 | Every earlier line is kept, and only the last line is replaced by its closed form. |
| Repair.DropTrailingComma | src/providers/ollama_provider.py:369-371 | When the right-stripped remaining text ends with a comma, the result is that text without the comma. Otherwise the remaining text is kept unchanged. |
| Repair.DropLastLine | src/providers/ollama_provider.py:366-371 | Dropping the incomplete line gives a strictly shorter prefix of the trimmed input. It is the other lines, joined, with at most a trailing comma and the whitespace after it removed. |
| Repair.FinishLastLine | src/providers/ollama_provider.py:344-371 | A last line that ends a value, or is empty, leaves the input untouched. A truncated string value is closed in place, keeping every other line. Any other truncated line is dropped, and of the other lines only a trailing comma goes. |
| Repair.CloseQuote | src/providers/ollama_provider.py:373-376 | Exactly one `"` is appended when the unescaped count is odd, and the text is left alone when it is even. Afterwards the count is even, unless a trailing backslash escapes the new quote. |
| Repair.CloseBraces | src/providers/ollama_provider.py:378-388 | Afterwards the unescaped braces balance exactly, and the number of `{` is unchanged. After the right-stripped input come only a comma, whitespace and `}`. When the right-stripped input does not end in `,`, `{` or `[`, the result is that input, exactly one comma, a newline and the missing `}`, so a comma is added even after a complete value. After `,`, `{` or `[` the input is kept whole, and only a newline and the missing `}` follow. |
| Repair.BraceNeedsText | src/providers/ollama_provider.py:384 | When `{` outnumbers `}`, the right-stripped text is non-empty, so the `[-1]` index never raises. |
| Repair.CloseBrackets | src/providers/ollama_provider.py:390-395 | Exactly as many `]` are appended as unescaped `[` outnumber unescaped `]`, and nothing else. A text with no unclosed `[` is left alone. Afterwards the brackets balance exactly, unless a trailing backslash escapes the first `]`. |
| Repair.BracketsKeepBraces | src/providers/ollama_provider.py:390-395 | Step 4 changes no brace count. |
| Repair.RepairTruncated | src/providers/ollama_provider.py:329-400 | The repair always returns a trimmed text. Steps 2 to 4 extend the trimmed result of Step 1. Exactly the missing `}` are added: the braces balance, unless `}` already outnumbered `{`, and then their counts are unchanged. Unless Step 1 leaves a trailing backslash, the quotes are balanced, and exactly the missing `]` are added in the same way. |
| Repair.RepairCounts | src/providers/ollama_provider.py:373-397 | Steps 2 to 4 and the final strip close exactly the missing braces. Unless the input ends in a backslash, they also close exactly the missing brackets. |
| Repair.BracedTextSkipsStep1 | src/providers/ollama_provider.py:345-346 | A text that starts with `{` and ends with `}` has a complete last line, so Step 1 leaves it unchanged. |
| Repair.RepairOfBracedText | src/providers/ollama_provider.py:373-397 | Repairing a braced text only appends to it. The result has an even number of unescaped quotes and no unclosed `[` or `{`. |
| Recovery.Candidate | src/providers/ollama_provider.py:299 | The candidate runs from the first brace to index `i` inclusive. |
| Recovery.Attempt | src/providers/ollama_provider.py:300-309 | A candidate that parses directly is returned without repair. |
| Recovery.AttemptRepaired | src/providers/ollama_provider.py:302-309 | After a failed direct parse, a value comes only from a non-empty repaired text that parses. |
| Recovery.EndsAreCloseBraces | src/providers/ollama_provider.py:297-298 | `Ends` lists exactly the `}` positions after the first `{`, each once, from right to left. |
| Recovery.ScanFollowsEnds | src/providers/ollama_provider.py:297-309 | The scan gives the first candidate along `Ends` whose attempt succeeds, so it tries exactly those positions, in that order. |
| Recovery.Scan | src/providers/ollama_provider.py:297-309 | A winning candidate ends in `}` and its attempt gives the value. Every longer candidate failed, so the longest recoverable span wins. No result means every candidate failed. |
| Recovery.StageA | src/providers/ollama_provider.py:292-311 | Without a `{` nothing is recovered. Nothing is recovered exactly when no candidate from the first `{` to a later `}` parses, directly or after repair. A value comes from a `}`-ending candidate whose attempt succeeds, and every longer candidate failed. |
| Recovery.NoCloseBraceNoCandidate | src/providers/ollama_provider.py:297-304 | Without a `}`, no candidate is tried, so the repair is never reached, and Stage A gives nothing. |
| Recovery.CandidatesAreBraced | src/providers/ollama_provider.py:297-304 | Every candidate skips Step 1, and its repair only appends. The repaired candidate has balanced quotes and no unclosed `[` or `{`. |
| Recovery.EmbeddedObjectFound | src/providers/ollama_provider.py:292-301 | An object that parses is found, when the prose before it has no `{` and the prose after it has no `}`. |
| Recovery.WholeObjectFound | src/providers/ollama_provider.py:292-301 | A text that is itself a parseable object is returned as its own parse, whatever the pattern matches are. |
| Recovery.FindOpenBrace | src/providers/ollama_provider.py:294 | `find('{')` returns the position after a brace-free prefix. |
| Recovery.FirstParsed | src/providers/ollama_provider.py:319-325 | A value comes from the first match that parses: that match parses to it, and every earlier match failed. No value means no match parses. |
| Recovery.Extract | src/providers/ollama_provider.py:281-327 | Stage A's value wins, and Stage B is consulted only when Stage A gives nothing. Nothing is recovered exactly when every Stage A candidate and every match fails. |
| Provider.ResolveModel | src/providers/ollama_provider.py:86-90 | The requested model, or the default when it is missing or empty, is used as it is if it already carries `ollama/`. Otherwise it gets exactly one `ollama/` in front. |
| Provider.ResolveModelIdempotent | src/providers/ollama_provider.py:89-90 | Resolving a resolved name changes nothing: the prefix is never doubled. |
| Provider.BuildMessages | src/providers/ollama_provider.py:99-102 | The user prompt is always last. A system message comes first exactly when one is present and non-empty. |
| Provider.BuildParams | src/providers/ollama_provider.py:104-115 | The model is the resolved name, with its prefix. The base URL, timeout and token limit are passed on. The `stop` key is present exactly when the stop list is non-empty, and then holds it. |
| Provider.ReadOutcome | src/providers/ollama_provider.py:121-149 | A raised call fails with its text, and an empty choice list fails with Python's index error. A reply succeeds exactly when the first choice has non-empty content. A response carries that content, the resolved model, the finish reason, the base URL and the 1-based attempt. Each token count is its usage key, or 0 when the key is absent. |
| Provider.EmptyReplyIsRaised | src/providers/ollama_provider.py:124-126 | A reply with missing or empty content reads exactly like a call that raised the empty-reply error. |
| Provider.Complete | src/providers/ollama_provider.py:118-163 | The loop computes the recursive reference `RetryOutcome` and makes the number of calls `CallCount` counts. Every call receives the parameters built from the request. One wait is requested after each call but the last. |
| Provider.RetryFromFacts | src/providers/ollama_provider.py:119-161 | From any attempt on, a response comes from the last call made, numbered by it. On total failure every remaining attempt was used. |
| Provider.CallsFromFacts | src/providers/ollama_provider.py:119-161 | From any attempt on, at least one call and at most the remaining attempts are made, and every call before the last failed. |
| Provider.RetryFacts | src/providers/ollama_provider.py:118-163 | `complete` makes between 1 and `max_retries` calls, and every call before the last failed. A response comes from the last call, with non-empty content. On total failure every call failed, and the classification of the last failure is raised. With `max_retries <= 0` no call is made and the unknown-error fallback is raised. |
| Provider.Waits | src/providers/ollama_provider.py:154-159 | The k-th wait, counting from 0, is `2 ** k` seconds. |
| Provider.RetryFrom | src/providers/ollama_provider.py:119-161 | A response has content, the resolved model, and the number of one of the remaining attempts. A failure is raised only after the last allowed attempt failed, and it is that failure, classified. |
| Provider.RetryOutcome | src/providers/ollama_provider.py:118-163 | With `max_retries <= 0` the unknown-error fallback is raised. A response comes from an attempt between 1 and `max_retries`, with content and the resolved model. A failure is the classification of the last attempt's failure. |
| Provider.AllFailRaisesLast | src/providers/ollama_provider.py:151-161 | When every remaining attempt fails, the classification of the final attempt's failure is raised. |
| Provider.SameReadsSameRetry | src/providers/ollama_provider.py:119-161 | Two transports whose calls read alike give the same outcome. The loop sees a call only through what the attempt body makes of it. |
| Provider.AlwaysRaising | src/providers/ollama_provider.py:118-163 | A transport that raises the same text on every call makes `complete` raise that text's classification. For a refused connection this is a generic error naming the base URL. |
| Provider.JsonPrompt | src/providers/ollama_provider.py:179-186 | The prompt is kept as a prefix. It is unchanged exactly when it already contains `JSON` or `json`, and otherwise gets the instruction appended. |
| Provider.JsonRequest | src/providers/ollama_provider.py:186 | Only the prompt of the request changes. |
| Provider.JsonPromptIdempotent | src/providers/ollama_provider.py:180-185 | The instruction mentions `JSON`, so it is added at most once. |
| Provider.InstructionMentionsJson | src/providers/ollama_provider.py:183 | The appended instruction contains `JSON`. |
| Provider.Head | src/providers/ollama_provider.py:209 | `s[:n]` is a prefix of length `min(len(s), n)`. |
| Provider.ParseFailure | src/providers/ollama_provider.py:207-210 | The parse-failure error is generic. Its message starts with the lead and the parser's message, quotes at most the first 200 characters of the text, and ends with "...". |
| Provider.DecodeJson | src/providers/ollama_provider.py:188-210 | The content is trimmed and unwrapped. A direct parse of it is returned without recovery, and recovery is consulted only after a failed parse. When both fail, the parse-failure error is raised with the direct parse's message and the unwrapped text. |
| Provider.FencedJsonDecodes | src/providers/ollama_provider.py:188-199 | A trimmed text that parses, wrapped in a "```json" fence, decodes to its own parse. |
| Provider.CompleteJson | src/providers/ollama_provider.py:165-210 | The request with the JSON instruction is completed. Errors of the completion propagate unchanged, and a response's content is decoded. |

## Left out

- **The LiteLLM call, `time.time` and `time.sleep`.** The call is a parameter,
  the duration entry of the response metadata is not modelled, and waits are
  returned instead of slept.
- **Logging.** The `enable_logging` flag and every `print`.
- **The constructor's availability check, `get_model_info`, `is_available` and
  `create_ollama_provider`.** They are configuration and a connectivity probe
  around `complete`. `src/providers/__init__.py` only re-exports.
- **`temperature`.** It is passed to the call untouched.
- **`json.loads` and the two regular expressions of Stage B.** Both are
  parameters, so no property depends on how they parse.
- **Exceptions other than the parser's own error.** In the source these are:
  - the outer `except: pass` of Stage A;
  - the `except Exception` of the repair;
  - a non-`JSONDecodeError` from `json.loads` in `complete_json`.

  In the model the repair never fails (`Repair.BraceNeedsText`), and the parser
  returns a message instead of raising.
- **Usage keys present with the value `None`.** A present key is an integer
  here.
- **`src/interfaces/llm_provider.py` is not part of this model.** The error
  classes are `Errors.ErrorKind`, and `str()` of them is assumed to be their
  message.
- **Errors.RuleFor, Errors.Classify: `lower()` is modelled for ASCII letters
  only.** The only non-ASCII characters whose lower case is ASCII are
  U+212A (to `k`, which no rule mentions) and U+0130 (to `i` followed by a
  combining dot, which cannot complete a rule's word). Classification is
  therefore unaffected, but `Lower` differs from Python's `lower` on other
  characters.
- **Repair.CloseQuote, Repair.CloseBrackets: balance is stated only when the
  text does not end in a backslash.** In that case the source's appended
  character is itself escaped, and the count stays unbalanced. Stage A never
  hands such a text to the repair, because its candidates end in `}`.

A truncated object such as `{"name": "test", "value": "incomplete` (no `}`) is
not recovered by the code, although the docstrings of
`_extract_json_with_regex` (src/providers/ollama_provider.py:284, "handle JSON
truncated by small models") and of `_repair_truncated_json` (line 331, "repair
truncated JSON") announce it. The model follows the code:

- Stage A tries only candidates that end in `}`, so it never reaches the repair
  for such a text (`Recovery.NoCloseBraceNoCandidate`).
- Even applied to such a text directly, the repair's Step 3 adds a comma before the closing
  brace (`Repair.CloseBraces`). The result then ends in `",\n}`, which a JSON
  parser rejects.

# Output-contract engine of a task-answering service, in Dafny

The service takes a natural-language task and answers with text or with a JSON array
computed by generated Python code. This project models its core:

- **Format inference** (`make_format_spec`). It reads the expected output shape from
  phrase cues in the task and from the count of numbered questions (`FormatSpec`).
- **Validation and coercion** (`validate_and_coerce`). It locates the array in the
  program's output, truncates or pads it to the spec's length, coerces each element to
  its declared type, and checks the PNG data URIs (`Validator`).
- **The dummy answer** (`make_dummy_answer`). It is the placeholder returned when no
  valid answer can be produced (`Dummy`).
- **The sandbox runner's pure part** (`run_user_code`). It embeds the program as base64
  in a fixed runner script, builds the child environment and maps the process outcome
  to `(ok, stdout, stderr)` (`Executor`).
- **The model-client helpers.** `_strip_code` takes the code out of a reply, and
  `plan_task` falls back when the plan reply does not parse (`LlmClient`).
- **The request state machine** (`handle_request` / `main_flow`). It runs plan,
  generate, run and validate, makes one repair attempt while time remains, and falls
  back to the dummy on any failure (`Orchestrator`).

`handle_request` is modelled as a pure function of a `World`. A `World` supplies:

- the reading of the monotonic clock at each point where the flow looks at it;
- what each awaited stage did: returned a value, or raised (its own timeout, any
  exception, or the outer timeout expiring while it ran);
- `json.loads` and Python's float operations, as oracles;
- the bytes of the one-pixel PNG the imaging library writes.

The generated code comes into the model as a trace value. The flow therefore does not
depend on how `_strip_code` reads a reply.

Supporting modules model the Python library behaviour the core relies on:

- `Text`: `strip`, ASCII `lower`, `in`, `find`, `split` and `replace`.
- `Utf8`: `encode` and `decode(..., "replace")`.
- `Base64`: the alphabet of section 4 of RFC 4648. The decoder follows CPython's
  non-strict `b64decode`: it skips characters outside the alphabet, stops at completed
  padding and rejects a dangling quad.
- `Json`: loaded values, `json.dumps(..., ensure_ascii=False)` with its default `", "`
  separator, and Python's `str`, `int`, `float` and `bool` of a loaded value.

In these places the model follows the code as written:

- **JSON separators.** The answer is serialised with `json.dumps` defaults (`", "`
  between items), not compactly.
- **Question count.** It counts `re.findall(r"^\s*\d+\.\s+", text, re.M)` over the
  whole text. `\s*` can cross line feeds, so "1.\n2.\n3. x" counts three. It is not a
  per-line count.
- **Dummy length.** The dummy uses the spec's element list when there is one and
  ignores its length. Only without elements does it use `length or 1` strings, so a
  length of 0 gives one item.
- **Repair trigger.** A validation that raises anything other than `ValidationError`
  gets no repair attempt. Examples are an image position past the end of the array and
  a base64 payload that does not decode. Such a failure goes straight to the dummy.
- **Image ceiling.** An inferred image element always carries a 100000-byte ceiling.
  The "100,000" cue only restates the default.

## Model

| member | source | states |
|---|---|---|
| Text.Strip | format_handler.py:59 | `str.strip()`: the result is no longer than the input and has no whitespace at either end |
| Text.StripTrims | format_handler.py:59 | what `strip` keeps is a slice of the input with only whitespace outside it |
| Text.StripIdempotent | format_handler.py:59 | stripping an already stripped text changes nothing |
| Text.StripStripped | format_handler.py:59-62 | a text with no whitespace at either end is its own strip |
| Text.Lower | format_handler.py:6 | `lower()` keeps the length and lowers each ASCII capital, leaving every other character as it is |
| Text.Contains | format_handler.py:10-14 | `pat in s` holds exactly when `pat` occurs at some index of `s` |
| Text.IndexOf | format_handler.py:93 | the leftmost occurrence: a match at the index, none before it, and no result exactly when there is no match |
| Text.Split | llm_client.py:23 | `split(sep)` gives at least one piece, and no piece contains the separator |
| Text.JoinSplit | llm_client.py:23 | joining the pieces of a split with the separator gives back the original text |
| Text.SplitAtFirst | llm_client.py:23 | a text split at the first occurrence of the separator is the part before it followed by the pieces of the rest |
| Text.SplitNoSep | llm_client.py:23 | a text without the separator splits into itself alone |
| Text.ReplaceAbsent | executor.py:24 | `replace` leaves a text that lacks the pattern's first character unchanged |
| Text.ReplaceAfterPrefix | executor.py:24 | `replace` passes over a prefix that lacks the pattern's first character |
| Utf8.EncodeChar | executor.py:23 | a character's UTF-8 encoding has one to four bytes, and exactly one byte (its own code) for ASCII |
| Utf8.Encode | executor.py:23 | an encoding has at least one byte per character |
| Utf8.DecodeReplace | executor.py:44 | decoding with replacement never fails and yields at most one character per byte |
| Utf8.DecodeOneEncoded | executor.py:44 | decoding a character's own encoding gives the character back and consumes all of it |
| Utf8.DecodeEncode | executor.py:23-44 | decoding the UTF-8 encoding of any text with replacement gives that text back |
| Base64.ValueOf | executor.py:23 | an alphabet character's six-bit value, the inverse of the character for that value |
| Base64.Encode | executor.py:23 | an encoding is empty exactly when the bytes are, and never shorter than them |
| Base64.EncodeLength | executor.py:23 | an encoding has four characters per started group of three bytes |
| Base64.EncodeAlphabet | executor.py:7 | an encoding contains only alphabet characters and `=`, so it has no quote, backslash or line feed |
| Base64.Decode | format_handler.py:93 | `b64decode` reports a non-ASCII input exactly when the text has a character outside ASCII |
| Base64.DecodeEncodeFrom | format_handler.py:93 | from any quad boundary, decoding an encoding appends exactly the encoded bytes |
| Base64.DecodeEncode | format_handler.py:93 | `b64decode(b64encode(bs)) == bs` for every byte sequence |
| Json.NatToDecimal | format_handler.py:38 | a natural number's decimal text is non-empty and all digits |
| Json.ParseInt | format_handler.py:40 | `int(s)` succeeds only on base-10 digit groups, optionally signed, after stripping |
| Json.DecimalValue | format_handler.py:38-40 | the digits of a number's decimal text spell that number |
| Json.ParseUnsigned | format_handler.py:40 | `int()` of unsigned digit groups is the number they spell |
| Json.ParseNegative | format_handler.py:40 | `int()` of digit groups after a minus sign is the negated number |
| Json.ParseStripped | format_handler.py:40 | `int()` of a text without surrounding whitespace reads the sign and digits of the text as it stands |
| Json.ParseIntDecimal | format_handler.py:38-40 | `int(str(i)) == i` for every int |
| Json.Dumps | format_handler.py:97 | `json.dumps` writes an array between `[` and `]`, an object between `{` and `}`, and a string between quotes |
| Json.PyStr | format_handler.py:37-38 | `str(v)` of a str is the str itself, `str(v)` of an int parses back to that int, and a list is written between `[` and `]` |
| Json.PyInt | format_handler.py:39-41 | `int(v)` of an int is the int, of a str is the string parse, and of None, a list or a dict raises |
| Json.DumpsPlain | format_handler.py:97 | `json.dumps` writes a plain printable string between two quotes, unchanged |
| FormatSpec.MatchEnd | format_handler.py:7 | a match of `\s*\d+\.\s+` takes at least three characters and stays within the text |
| FormatSpec.CountFromPositive | format_handler.py:7-8 | the findall scan from an index counts something exactly when a match can start at or after that index |
| FormatSpec.CountNumbered | format_handler.py:7-8 | the count of numbered questions is non-zero exactly when the pattern matches at some line start |
| FormatSpec.CountNumberedPositive | format_handler.py:7-8 | the question count is non-zero (so `qcount` is not None) exactly when some line start admits the pattern |
| FormatSpec.LongerJsonArrayCue | format_handler.py:10 | the cue "respond with a json array" implies the cue "json array" |
| FormatSpec.MakeFormatSpec | format_handler.py:5-28 | the spec is a JSON array exactly when the lowered task mentions "json array", and text otherwise. Its length is the question count, present exactly when the count is non-zero. The spec is well formed |
| FormatSpec.InferElementsAt | format_handler.py:18-26 | the override sequence yields `n` elements, each equal to the position-by-position precedence rule |
| FormatSpec.InferredElements | format_handler.py:18-26 | every inferred element is the one the precedence rule gives: "array of strings" first, then the PNG on the last position, then the correlation float at index 2 |
| FormatSpec.InferredPngCeiling | format_handler.py:14-23 | every inferred image element carries a 100000-byte ceiling |
| FormatSpec.ArrayOfStringsWins | format_handler.py:24-25 | with the "array of strings" cue, every element is a plain string |
| Validator.FirstIndex | format_handler.py:65 | the first position of a character, or none when it does not occur |
| Validator.LastIndex | format_handler.py:65 | the last position of a character, or none when it does not occur |
| Validator.ArraySpan | format_handler.py:65-67 | the greedy `\[.*\]` match exists exactly when a `[` precedes a `]`, and runs from the first `[` to the last `]` |
| Validator.FitLength | format_handler.py:75-80 | without a target the array is unchanged. Otherwise the result has the target length, keeps the array's prefix and pads with "N/A" |
| Validator.CoerceValue | format_handler.py:35-55 | strings and image URIs become `str(v)`, and booleans `bool(v)`. An int becomes `int(v)`, or 0 when that raises. A float element gives a float. An unknown type leaves the value alone |
| Validator.CoerceAll | format_handler.py:82-87 | coercion keeps the length. It applies position by position exactly when elements are listed and match the array's length, and otherwise leaves the array alone |
| Validator.Zip | format_handler.py:85-86 | the zipped coercion gives each position its own element's coercion |
| Validator.FirstCommaEndsPrefix | format_handler.py:93 | in a PNG data URI, the first comma is the one that ends the prefix |
| Validator.UriPayload | format_handler.py:93 | `split(",", 1)[1]` of a PNG data URI is the text after the prefix |
| Validator.CheckImage | format_handler.py:89-96 | an image position passes exactly when it is a str with the PNG data-URI prefix whose payload decodes to at most the ceiling; anything without the prefix is rejected as not a PNG URI, a prefixed payload crashes exactly when it fails to decode, and one that decodes to more than the ceiling is rejected as too large with its size |
| Validator.FirstImageFailure | format_handler.py:89-96 | the image loop reports the first failing image position: an IndexError past the end of the array, else that position's own failure |
| Validator.CheckImagesFromOk | format_handler.py:89-96 | the image loop passes exactly when every image position lies in the array and holds a PNG URI within its ceiling |
| Validator.ShapeArray | format_handler.py:64-96 | output without a bracket pair stops with "no array"; a span that does not parse stops as invalid JSON, and one that parses to a non-array as not an array. Once the span parses as an array, the items are that array fitted to the spec's length and coerced; they come through exactly when every image position of them passes, and otherwise the image loop's failure is the result |
| Validator.TextAnswer | format_handler.py:61-62 | the free-text answer is the stripped output, or "N/A" when nothing is left, and is never empty |
| Validator.ArrayVerdict | format_handler.py:64-97 | the JSON-array branch rejects output without a bracket pair. An accepted answer is the dumped array, of the spec's length, with every image position acceptable. Validator.ArrayBranch ties that array to the parsed output |
| Validator.ValidateAndCoerce | format_handler.py:57-99 | free text is always accepted and an unknown container rejected. A JSON answer without a bracket pair is rejected. An accepted JSON answer is the dumped array, of the spec's length, with every image position acceptable; which array that is, and what a failed image check gives, is stated by Validator.ArrayBranch and Validator.ImageFailureNotAccepted |
| Validator.FailVerdict | format_handler.py:57-99 | a `ValidationError` becomes a rejection and any other exception a crash; neither is an accepted answer |
| Validator.ArrayBranch | format_handler.py:64-97 | once the output's bracketed part parses as an array, the answer is accepted exactly when every image position of the fitted and coerced array passes, and it is then that array dumped; otherwise the image loop's first failure is the verdict |
| Validator.CoerceIdempotent | format_handler.py:35-55 | coercing a coerced value again changes nothing, given that rounding is stable |
| Validator.SpanOfBracketed | format_handler.py:65-67 | a text that opens with `[` and closes with `]` is stripped and is its own span |
| Validator.SpanOfDumpedArray | format_handler.py:65-67 | a dumped array is stripped and is its own span |
| Validator.FitLengthIdempotent | format_handler.py:75-80 | fitting a fitted array again changes nothing |
| Validator.CoerceAllIdempotent | format_handler.py:82-87 | coercing a coerced array again changes nothing |
| Validator.ShapeStable | format_handler.py:64-96 | an array that is already fitted, coerced and image-checked passes the JSON branch unchanged once dumped, when `json.loads` reads that dumped array back |
| Validator.ValidateIdempotent | format_handler.py:57-97 | validating an accepted answer again with the same spec accepts it unchanged, when rounding is stable and `json.loads` reads the accepted array back |
| Validator.LengthMismatchNeverRejects | format_handler.py:75-87 | once the output parses as an array, a spec without image positions accepts the fitted and coerced array: a wrong length is never an error |
| Validator.BadJsonRejected | format_handler.py:68-73 | a bracketed part that does not parse is rejected as invalid JSON, and one that parses to a non-array as not an array |
| Validator.ImageFailureNotAccepted | format_handler.py:89-96 | when an image position fails and every image position before it passed, the answer is not accepted: past the end of the array it crashes with an IndexError, otherwise the position's own failure is the verdict, and a value that is not a PNG data URI is rejected as such |
| Validator.DecodeErrorCrashes | format_handler.py:89-96 | when the first failing image position holds a prefixed str whose base64 payload fails to decode, the answer crashes rather than being rejected |
| Validator.BracketedArrayAccepted | format_handler.py:64-97 | output that is exactly a bracketed JSON array is accepted as its fitted and coerced items, dumped |
| Validator.TruncateExample | format_handler.py:77-78 | `["a","b","c"]` against a length-2 spec is accepted as its first two items |
| Validator.DumpsStrings2 | format_handler.py:97 | two plain strings are dumped with the `", "` separator |
| Validator.PadExample | format_handler.py:79-80 | `["a"]` against a spec of three strings is accepted padded with "N/A" twice |
| Validator.PadOne | format_handler.py:79-80 | padding one item to three appends two "N/A" |
| Validator.StringsStayStrings | format_handler.py:37-38 | coercing strings to strings leaves the array unchanged |
| Dummy.TinyPngUri | format_handler.py:105-110 | the tiny image URI has the PNG prefix, and its payload is the base64 of the PNG bytes |
| Dummy.MakeDummyAnswer | format_handler.py:112-132 | a non-array spec gets "N/A"; an array spec gets a text that opens with `[` and closes with `]` |
| Dummy.DummyShape | format_handler.py:112-132 | a non-array spec gets "N/A". An array spec gets a dumped array of one item per listed element, or `length or 1` items when none are listed |
| Dummy.DummyIgnoresLength | format_handler.py:117-118 | once elements are listed, the spec's length does not change the dummy |
| Dummy.DummyDefaultsToOne | format_handler.py:117-118 | an array spec with no elements and no positive length gets `["N/A"]` |
| Dummy.PlaceholderCoerces | format_handler.py:120-130 | each placeholder already has its element's type: coercion leaves it unchanged |
| Dummy.TinyPngAccepted | format_handler.py:89-96 | the image placeholder passes the image check whenever the PNG fits the ceiling |
| Dummy.DummyValidates | format_handler.py:112-132 | the validator accepts the dummy unchanged for an inferred spec, given that `json.loads` reads the dummy's array back and rounding keeps 0.0 |
| Executor.PayloadQuoteSafe | executor.py:7-13 | the encoded program has no quote, backslash or line feed that could break the literal it is placed in |
| Executor.WrapperShape | executor.py:8-24 | the runner script is the template's head, the encoded program and the template's tail: only the placeholder is replaced |
| Executor.LiteralBetween | executor.py:13 | a quote-free text placed after the head and before a tail opening with a quote is read back whole |
| Executor.WrapperRoundTrip | executor.py:13-23 | the runner's literal is exactly the encoded program. Decoding it gives the program's UTF-8 bytes, which decode back to the program |
| Executor.ChildEnv | executor.py:34-39 | the child environment is the parent's plus `PYTHONUNBUFFERED=1` and an empty `OPENAI_API_KEY`, with every other variable unchanged |
| Executor.ChildEnvIdempotent | executor.py:34-39 | building the child environment from a child environment changes nothing |
| Executor.JoinPath | executor.py:26 | the joined path starts with the directory and ends with the file name |
| Executor.RunUserCode | executor.py:19-50 | nothing is launched exactly when the code is blank, and that gives `(False, "", "empty code")`. The launched script embeds the encoded program. `ok` holds exactly when the process exited with code 0, and then stdout and stderr are the captured bytes decoded with replacement. A timeout gives `(False, "", "timeout")` |
| Executor.LaunchTarget | executor.py:26-40 | every launch runs the fixed script name in the working directory, under the child environment, with the program as its literal |
| Executor.KillFailureIgnored | executor.py:45-50 | after a timeout, whether `kill` failed makes no difference to the result |
| LlmClient.StripCode | llm_client.py:20-27 | the result is stripped. It is the stripped reply when the reply does not open with a fence |
| LlmClient.SplitClosed | llm_client.py:23 | a fenced block without backticks, followed by backtick-free text, splits into "", the body and the text after |
| LlmClient.FencedPieces | llm_client.py:22-26 | a reply opening with a fence gives its third piece when there are three or more, else its last, stripped |
| LlmClient.TextAfterClosingFence | llm_client.py:22-25 | for a reply fenced on both sides, the result is the stripped text after the closing fence |
| LlmClient.FencedReplyIsEmpty | llm_client.py:22-25 | a reply that is exactly one fenced block gives the empty string |
| LlmClient.SingleFence | llm_client.py:22-26 | with a single opening fence, the stripped text after it comes back |
| LlmClient.PythonBlockExample | llm_client.py:22-25 | the reply "```python\nprint(1)\n```" gives the empty string |
| LlmClient.StripCodeFenced | llm_client.py:20-27 | corrected reading: the result is stripped, and it is the stripped reply when the reply does not open with a fence |
| LlmClient.DropTagAfterLine | llm_client.py:23-25 | corrected reading: a language tag on its own line is dropped whole |
| LlmClient.FencedBody | llm_client.py:23-25 | corrected reading: a block fenced on both sides gives its body, without the tag line, stripped |
| LlmClient.FencedCodeRecovered | llm_client.py:20-27 | for "```lang\ncode```" the corrected reading gives the stripped code, where the function as written gives "" |
| LlmClient.PlanTask | llm_client.py:33-37 | a parsable reply is the plan. An unparsable one gives the default plan with empty inputs, steps and assumptions. An empty reply is read as "{}" |
| LlmClient.PlanTaskReadsPlan | llm_client.py:33-37 | a reply that is a serialised plan object, read back by `json.loads`, is taken as that plan |
| Orchestrator.StageTimeout | orchestrator.py:32 | a stage timeout never exceeds its budget and never falls below the smaller of budget and floor. It is the remaining time when that lies between the two |
| Orchestrator.OuterTimeout | orchestrator.py:87 | the outer timeout is the remaining time, but at least one second |
| Orchestrator.RepairContextHoldsBoth | orchestrator.py:62 | the repair context holds the failed run's stdout and then its stderr, at fixed offsets |
| Orchestrator.Repair | orchestrator.py:60-84 | the repair path only appends to the log and the calls, makes at most two calls, and returns a payload only after an accepted second validation |
| Orchestrator.MainFlow | orchestrator.py:30-84 | the flow makes one to five calls, the first to the planner, and a returned payload follows an accepted validation |
| Orchestrator.HandleRequest | orchestrator.py:17-93 | the outer timeout is at least one second, the log opens with the attachments and the inferred spec, and one to five calls are made, the first to the planner |
| Orchestrator.CompleteLogOrdered | orchestrator.py:24-92 | a complete log names each phase at most once, in flow order. Each validation directly follows a successful run of the same attempt. The fallback, if present, is last |
| Orchestrator.RepairLog | orchestrator.py:60-84 | the repair path continues a log that ended in a failed run or a rejected answer, keeps it chained, and ends on an accepted validation when it returns |
| Orchestrator.FlowLogChained | orchestrator.py:30-84 | on every path the flow's log is chained from the spec on, and a returned payload ends on an accepted validation |
| Orchestrator.FlowCalls | orchestrator.py:30-73 | each call is made only once the stage before it returned, with that stage's timeout. The repair generator is called only before the deadline, with the first plan and both streams of the first run |
| Orchestrator.CallsWithinBudgets | orchestrator.py:30-73 | the flow's calls come in order, each within its budget and above the smaller of budget and floor |
| Orchestrator.RepairGate | orchestrator.py:51-61 | the repair is attempted exactly when the first run failed or its output was rejected, and the deadline had not yet passed |
| Orchestrator.FlowPayload | orchestrator.py:51-82 | a returned payload is the accepted validation of the run the last phase names: the first, after 3 calls, or the second, after 5 |
| Orchestrator.FlowFirstAccepted | orchestrator.py:51-56 | an accepted first run ends the flow at once with its payload, after 3 calls |
| Orchestrator.FlowCrashed | orchestrator.py:51-58 | a validation raising anything but `ValidationError` ends the flow after 3 calls, without repair |
| Orchestrator.FlowEarlyRaise | orchestrator.py:32-48 | a planner, generator or first run that raises ends the flow before any validation, with at most 3 calls |
| Orchestrator.FlowTwoFailedRuns | orchestrator.py:60-84 | two failed runs with time left for the repair use all five calls and end in the raise |
| Orchestrator.ConcludeTraced | orchestrator.py:86-93 | a chained flow log gives a complete response log, and the answer is traced to the dummy or to the accepted run |
| Orchestrator.ConcludePhases | orchestrator.py:86-93 | the response log is the start, the spec, the flow's phases, and the fallback when the flow raised |
| Orchestrator.ResponseShape | orchestrator.py:17-93 | every response log is complete and opens with the attachments and the inferred spec. The outer timeout is at least one second |
| Orchestrator.AnswerSource | orchestrator.py:50-93 | the answer is the dummy when the fallback is logged, and otherwise the payload `validate_and_coerce` accepted from the run the last phase names |
| Orchestrator.ResponseCalls | orchestrator.py:30-73 | every response's calls come in order, each within its stage's budget |
| Orchestrator.DefaultTimeouts | config.py:18-25 | under the default configuration each call gets between its floor and its budget |
| Orchestrator.RepairHappens | orchestrator.py:50-68 | the repair call is made exactly when the first run failed or was rejected and the clock was before the deadline. It reuses the plan and passes both streams of the first run |
| Orchestrator.FirstAcceptedReturnsAtOnce | orchestrator.py:51-56 | an answer accepted on the first run is returned as is, after 3 calls, with the log stopping at the first validation |
| Orchestrator.CrashSkipsRepair | orchestrator.py:51-58 | a validation crash returns the dummy after 3 calls, with no repair |
| Orchestrator.Base64ErrorSkipsRepair | orchestrator.py:51-58 | a first run whose first failing image position holds an undecodable base64 payload returns the dummy after 3 calls, with no repair |
| Orchestrator.EarlyRaiseFallsBack | orchestrator.py:86-93 | a raising planner, generator or first run returns the dummy, with the fallback logged last and no validation |
| Orchestrator.FailingRunsGiveOneItemDummy | tests/test_orchestrator.py:9-23 | a JSON-array task without numbered items whose code fails twice gets `["N/A"]` after five calls, with the full log |

## Left out

- I/O: the run directory, the plan, code, stdout, stderr and final files, the request id,
  and the log backend (`storage/`) are outside the model. The log is kept as the
  sequence of phases with their `ok`/`result` fields only.
- The model service calls (`generate_code`, `compose_answer`, the prompts, the client)
  are oracles. A stage's result comes from the `World`.
- `executor_b64.run_user_code`, which the orchestrator imports, is not part of this
  model. The orchestrator takes each run's `(ok, stdout, stderr)` from the `World`,
  and `executor.run_user_code` is modelled on its own.
- Asyncio cancellation: the outer `wait_for` expiring while a stage runs is modelled as
  that stage raising. The child process's kill is modelled only as ignored.
- Orchestrator.FlowFirstAccepted: the `World` gives an outcome to each stage, not to each
  `await logger.save(...)` inside `main_flow` (orchestrator.py:34-82). In the source the
  outer timer can also expire, or a log back end raise, at one of those saves, for example
  between an accepted first validation and `return payload`; `handle_request` then returns
  the dummy, where this lemma and Orchestrator.FirstAcceptedReturnsAtOnce give the payload.
- The clock is a set of real readings measured from the start of the request, so the
  deadline is `client_respond`. The budgets, integers in the source, are reals.
  `TOTAL_DEADLINE_SEC` is read but never used, and is left out.
- Reading the configuration from the environment, and the `getenv` cast fallback, are
  left out. `DefaultConfig` holds the defaults.
- An attachment without a "filename" key makes `handle_request` raise before any phase.
  The model takes the attachment names as given.
- Float arithmetic (`float(...)`, `round`, `int(float)`) is an oracle. Float values are
  known by their `repr`.
- `json.loads` is an oracle. No oracle can read back everything `json.dumps` writes,
  since the int 1 and the float 1.0 both dump to `1`. Each lemma that re-reads a
  dumped array therefore assumes the read-back for that one array only.
- The PNG bytes the imaging library writes are an input.
- Text.Lower: only ASCII capitals are lowered. Python's `lower()` maps every cased
  character, so a cue spelled with non-ASCII letters (such as the dotted capital I)
  can match in Python and not in the model.
- FormatSpec.DigitRun: `\d` is read as the ASCII digits. Python's `\d` on a str
  matches every Unicode decimal digit, so a task numbered in another script's digits
  is counted in Python and not in the model.
- FormatSpec.CountNumbered: counts ASCII-numbered questions only, as FormatSpec.DigitRun.
- FormatSpec.CountFromPositive: stated over the ASCII reading of `\d`, as FormatSpec.DigitRun.
- FormatSpec.CountNumberedPositive: stated over the ASCII reading of `\d`, as FormatSpec.DigitRun.
- FormatSpec.MakeFormatSpec: the length is the count of ASCII-numbered questions, so a
  task numbered in other decimal digits gets a length in Python and none in the model.
- Json.ParseInt: accepts ASCII digits only, where Python's `int()` accepts every
  Unicode decimal digit. The limit on integer-string conversion (4300 digits by
  default, since Python 3.11) is not modelled: longer digit strings parse here.
- Json.ParseUnsigned: holds for any number of digits; Python 3.11 and later raise
  past 4300 digits.
- Json.ParseNegative: holds for any number of digits; Python 3.11 and later raise
  past 4300 digits.
- Json.ParseIntDecimal: `int(str(i)) == i` is proved for every int. On Python 3.11 and
  later both conversions raise for an int of more than 4300 digits.
- Json.StrRepr: escapes only the non-printable characters below U+0100. Python's
  `repr` also escapes other non-printable characters (U+2028, U+200B, U+3000 and
  more), so `str()` of a nested list holding them differs.
- Utf8.Encode: a Dafny char is never a surrogate, so the model cannot hold the lone
  surrogate a JSON `\ud800` escape can put into a Python str. For such code
  `run_user_code` raises `UnicodeEncodeError` in Python instead of launching.
- `app.py`, the storage back ends and `compose_answer` are not part of the core.
- Validator.CoerceValue: for float elements the contract says only that the result is
  a float. Its value comes from the `float()`, `int()` and `round()` oracles.
- Dummy.DummyValidates: assumes that `json.loads` reads the dummy's own array back
  and that rounding keeps 0.0. Neither is proved, because both are library behaviour
  left as oracles.
- Utf8.DecodeReplace: the contract states only the length bound. What replaces an
  ill-formed sequence is fixed by the body, and only well-formed input is related back
  to its text (Utf8.DecodeEncode).

## Findings

| source | as written | input that shows it | evidently intended | confidence | as-written member | corrected member |
|---|---|---|---|---|---|---|
| llm_client.py:22-25 | a reply that opens with a fence returns the third fence-separated piece, which is the text after the closing fence | the reply "```python\nprint(1)\n```" gives "", so the runner reports "empty code" | the code between the fences, without the language tag line | medium, not executed | LlmClient.PythonBlockExample | LlmClient.FencedCodeRecovered |

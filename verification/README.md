# Chat relay server: message normaliser, payload builder, stream relay and input validation

This project models the core of a small FastAPI server that sits between an
editor extension and a local Ollama instance. Every model is in Dafny and is a
pure function or a short method.

- **Normaliser** (`normalizer.dfy`, `rewrite.dfy`, `text.dfy`). This is `fine_tune_user_message`, which rewrites every user message before it is forwarded. The steps are:
  - trim the message;
  - repair the contractions `cant … werent`;
  - fix the typos `teh`, `adn`, `yoru` and `you are right`;
  - prefix short statements with `Please explain: `;
  - turn question-like messages into questions;
  - collapse whitespace;
  - capitalise the first letter;
  - end statements with a period.

  Each `re.sub` pass is written as the left-to-right scan the regular-expression engine performs (`Rewrite.SubFrom`). The main theorem proves that, for the single-word rules, this scan equals a word-by-word reading of the text: split the text into maximal runs of word and non-word characters, and rewrite the word runs that are listed words in any letter case (`Rewrite.MapWords`).
- **Payload** (`payload.dfy`). This covers model-name resolution with its fall-back to a default, and the loop that normalises the user messages and keeps every other message verbatim.
- **Relay** (`relay.dfy`). The stream relay is a transducer from what Ollama did to the events the client receives. Ollama's behaviour is an input value (`Backend`). Decoding a line's JSON is an abstract classifier (`LineClass`).
- **Chat** (`chat.dfy`). The endpoint end to end: build the request, then relay the answer.
- **Validation** (`validation.dfy`). The input-validation endpoint.

The characters are ASCII throughout:
- whitespace (`\s`, `strip()`, `split()`, `isspace`) is the ASCII part of Python's `str.isspace`, code points 9–13 and 28–32;
- `\w` is `[A-Za-z0-9_]`;
- `\b` is a change between word and non-word characters;
- `lower`, `upper`, `isalpha`, `isupper` and `isalnum` act on ASCII letters and digits.

## Where the model follows the code rather than its comments

- The comment at fastapi_server.py:131 says the model name is made sure not to be empty, invalid or the placeholder. The code compares the *untrimmed* lower-cased name with `string` and only then trims it, so `" string"` is forwarded as `string` (`Payload.PaddedPlaceholderIsKept`, `Payload.PlaceholderAfterTrimmingIsForwarded`). The model follows the code.
- The same comment promises a non-empty name, but the default name comes from the environment, so it is a parameter here. An empty default is forwarded as it is; `Payload.ResolveModel` promises a non-empty name only when the requested name is kept.

## Model

| member | source | states |
|---|---|---|
| `Text.Strip` | fastapi_server.py:53 | `strip()` returns the slice between the leading and the trailing whitespace. Both removed parts are blank. The result is empty exactly when the input is blank, and otherwise starts and ends with a visible character. |
| `Text.StripKeepsNonSpace` | fastapi_server.py:53 | Trimming never adds, drops or reorders a visible character. |
| `Text.RStripChars` | fastapi_server.py:83 | `rstrip('.!')` returns a prefix of its input. Every removed character is one of the given characters, and the last kept character is not. |
| `Text.Tokens` | fastapi_server.py:71 | `split()` yields no token exactly when the text is blank. |
| `Text.TokensAreVisibleRuns` | fastapi_server.py:71 | Every token of `split()` is a non-empty run of non-whitespace characters. |
| `Text.StripKeepsTokens` | fastapi_server.py:96 | Trimming does not change `split()`. |
| `Text.AnyContained` | fastapi_server.py:73 | `any(w in s for w in words)` holds exactly when some listed word occurs in `s`; the greeting test at :73 and the question-word test at :105 use it. |
| `Text.AnyPrefix` | fastapi_server.py:81 | `any(s.startswith(w) for w in words)` holds exactly when some listed word is a prefix of `s`. |
| `Text.ContainsIff` | fastapi_server.py:73 | `Contains(s, w)`, the model of Python's `w in s`, holds if and only if `s[i..i + |w|] == w` for some index `i`. |
| `Rewrite.FirstAlternative` | fastapi_server.py:57 | The alternation `(cant\|wont\|…)` matches when some alternative occurs there as a whole word, in any letter case. The match length is that word's length. When nothing matches, no alternative occurs there as a whole word. |
| `Rewrite.MatchAt` | fastapi_server.py:57-67 | A match of any of the patterns is non-empty and lies inside the text. |
| `Rewrite.YouAreRightAt` | fastapi_server.py:64 | A match of `\byou\s+are\s+right\b` is non-empty and lies inside the text. Each `\s+` takes the whole whitespace run, which is exact because a letter follows it. |
| `Rewrite.Sub` | fastapi_server.py:57 | No contract of its own: one case-insensitive `re.sub` pass, as the left-to-right scan `SubFrom`. What it computes for the word rules is stated by `Rewrite.WordRuleRewritesWholeWords`. |
| `Rewrite.SubAll` | fastapi_server.py:66-67 | No contract of its own: the fixes applied one after another, in the order the dictionary lists them. |
| `Rewrite.MapWords` | fastapi_server.py:57-67 | No contract of its own: the independent word-by-word reading (split into maximal word and non-word runs, rewrite listed word runs) that `Rewrite.WordRuleRewritesWholeWords` proves equal to the scan. |
| `Rewrite.WordRuleRewritesWholeWords` | fastapi_server.py:57-67 | The case-insensitive `re.sub` of the contraction pattern, or of one typo pattern, rewrites exactly the maximal word runs that are listed words in any case, and keeps everything else. |
| `Rewrite.ListedWordAlone` | fastapi_server.py:57-67 | A text that is one listed word, in any letter case, is replaced as a whole. |
| `Rewrite.ContractionAlone` | fastapi_server.py:57 | A contraction, in any letter case, keeps its own letters and their case and gets an apostrophe after its first character. With the source's list, "cant" becomes "c'ant" and "Dont" becomes "D'ont". |
| `Rewrite.SubWithoutMatchIsIdentity` | fastapi_server.py:57-67 | A pass whose pattern matches nowhere leaves the text unchanged. |
| `Rewrite.SubAllKeepsVisible` | fastapi_server.py:57-67 | No sequence of substitution passes, `you\s+are\s+right` included, turns text with a visible character into blank text. |
| `Rewrite.FixesAreWellFormed` | fastapi_server.py:60-65 | The typo table lists lower-case words with visible replacements. |
| `Normalizer.Clarify` | fastapi_server.py:71-76 | The text gets the prefix `Please explain: ` exactly when all of these hold: it has fewer than three tokens, it has no `?` anywhere, and no greeting word is a substring of its lower-cased form. Otherwise it is unchanged. |
| `Normalizer.ClarifyKeepsVisible` | fastapi_server.py:71-76 | The prefix never makes a message blank. |
| `Normalizer.MarkQuestion` | fastapi_server.py:80-83 | The question words are a parameter; the normaliser passes the source's list. Consider text that starts with a question word as a raw prefix and ends in neither `?` nor `.`. It loses the whole trailing run of `!` and `.` (the character before the new `?` is neither) and gains a `?`, and everything before that run is kept. All other text is unchanged. |
| `Normalizer.MarkQuestionKeepsVisible` | fastapi_server.py:80-83 | Marking a question never makes a message blank. |
| `Normalizer.Collapse` | fastapi_server.py:95 | After `re.sub(r'\s+', ' ', …)` no two whitespace characters are adjacent and every whitespace character is a plain space. The result is empty only for empty input, and it starts with whitespace exactly when the input does. |
| `Normalizer.CollapseKeepsNonSpace` | fastapi_server.py:95 | Collapsing keeps every visible character, in order. |
| `Normalizer.CollapseKeepsLast` | fastapi_server.py:95 | Collapsing keeps whether the text ends in whitespace. |
| `Normalizer.CollapseKeepsTokens` | fastapi_server.py:95 | Collapsing does not change `split()`: every whitespace run becomes a single space, never nothing, so no two words are joined and none is split. |
| `Normalizer.CollapseIdempotent` | fastapi_server.py:95 | Collapsing twice is the same as collapsing once. |
| `Normalizer.StripIsTidy` | fastapi_server.py:95-96 | Trimming text that has no double or non-plain whitespace leaves it tidy: no whitespace at either end, no double whitespace, only plain spaces. |
| `Normalizer.NormalizeSpace` | fastapi_server.py:95-96 | The whitespace step keeps every visible character in order. Its result is empty exactly when the input is blank, and tidy otherwise. |
| `Normalizer.TidyIsJoined` | fastapi_server.py:95-96 | A tidy text equals `" ".join` of its own `split()`. |
| `Normalizer.NormalizeSpaceJoinsTokens` | fastapi_server.py:95-96 | The whitespace step has the same `split()` as its input and equals `" ".join(s.split())`. |
| `Normalizer.Capitalize` | fastapi_server.py:99-100 | The first character is no longer a lower-case letter. Every later character is unchanged, and the lower-cased text is unchanged. |
| `Normalizer.CapitalizeKeepsTidy` | fastapi_server.py:99-100 | Capitalising keeps a tidy text tidy. |
| `Normalizer.Terminate` | fastapi_server.py:103-106 | The question words are a parameter, as for `MarkQuestion`. A `.` is appended exactly when the last character is a letter or digit and no question word is a substring of the lower-cased text. Afterwards, a result ending in a letter or digit contains a question word. |
| `Normalizer.TerminateKeepsTidy` | fastapi_server.py:103-106 | The final period keeps a tidy text tidy. |
| `Normalizer.StagesKeepVisible` | fastapi_server.py:53-83 | No stage between trimming and the whitespace step can make a non-blank message blank. |
| `Normalizer.ContextIgnored` | fastapi_server.py:86-92 | The context step only executes `pass`, so the result is the same whatever conversation context is given. |
| `Normalizer.FineTune` | fastapi_server.py:43-108 | Empty or whitespace-only input comes back unchanged. Any other input comes back with no outer whitespace, no double whitespace and only plain spaces. Its first character is not a lower-case letter, and it ends in a letter or digit only when a question word occurs in it. |
| `Payload.ResolveModel` | fastapi_server.py:132-139 | The default is used exactly when the name is empty, blank, or lower-cases to `string` before trimming. Otherwise the forwarded name is `strip()` of the requested one: it is non-empty, has no outer whitespace and keeps every visible character. |
| `Payload.ResolveKeptNameIsStable` | fastapi_server.py:138-139 | Resolving a kept name a second time does not change it, unless the trimmed name reads as the placeholder: `" string"` is kept as `string`, which a second resolution replaces by the default (`Payload.PaddedPlaceholderIsKept`). |
| `Payload.PaddedPlaceholderIsKept` | fastapi_server.py:133-139 | `" string"` is not replaced by the default and is forwarded as `string`. |
| `Payload.PlaceholderAfterTrimmingIsForwarded` | fastapi_server.py:133-139 | Any name that is not the placeholder as sent, but is once trimmed, is forwarded trimmed and so still lower-cases to `string`. |
| `Payload.PreparedAt` | fastapi_server.py:143-160 | No contract of its own: message `i` as forwarded, a user message with its content normalised with context `messages[:i] if i > 0 else None`, and any other message verbatim. |
| `Payload.PreparedUserMessagesAreTidy` | fastapi_server.py:143-150 | A forwarded user message that was blank is forwarded as it came. Any other is tidy and does not start with a lower-case letter. |
| `Payload.ContextBefore` | fastapi_server.py:146 | The first message gets no context. Message `i > 0` gets the non-empty prefix `messages[:i]`. |
| `Payload.PrepareMessages` | fastapi_server.py:142-160 | The prepared conversation has the same length, order and roles as the input. Non-user messages are verbatim. Each user message's content is the normaliser's result for it, with its context. |
| `Payload.BuildRequest` | fastapi_server.py:168-172 | The forwarded request carries the resolved model, the prepared messages and the client's `stream` flag. |
| `Relay.Diagnose` | fastapi_server.py:201-206 | The first rule that applies wins. A message with the runner-timeout phrase, or with "timeout" in any case, is a load timeout. Otherwise one with "model" and "not found" or "does not exist" is a missing model. Anything else is passed on verbatim. |
| `Relay.Wire` | fastapi_server.py:189-222 | Every chunk sent to the client ends in a newline. A relayed line is sent as it came, before that newline. An error is sent as `{"error": "`, then its text unchanged, then `"}`. |
| `Relay.RunnerPhraseIsLoadTimeout` | fastapi_server.py:198-202 | The runner phrase alone is explained as a load timeout, which is what an `error` list or object holding that phrase receives. |
| `Relay.DiagnosisText` | fastapi_server.py:201-206 | No contract of its own: reproduces the three texts of :202, :204 and :206 (load timeout, missing model, the message verbatim); `Relay.DiagnosisNamesModel` states their property. |
| `Relay.FaultText` | fastapi_server.py:215-222 | No contract of its own: reproduces the transport-failure texts of :216 (timeout), :219 (connection, naming the base URL) and :222 (any other exception, with its text). |
| `Relay.StatusText` | fastapi_server.py:182-186 | No contract of its own: the text for a non-200 response, the body's string `error` member when present and otherwise `Ollama API error: ` with the status code. |
| `Relay.DiagnosisNamesModel` | fastapi_server.py:201-206 | The load-timeout and missing-model explanations quote the model name the request was sent with, between backslash-escaped quotes. Any other error text is passed on as Ollama wrote it. |
| `Relay.FirstStop` | fastapi_server.py:192-207 | This is the first non-empty line that decodes to an error object, or the end of the stream. |
| `Relay.Forwarded` | fastapi_server.py:192-211 | Only non-empty lines that decode to nothing the relay acts on are relayed, as data events, one per line at most. |
| `Relay.ForwardedAppend` | fastapi_server.py:192-211 | Relaying distributes over concatenation of line sequences. |
| `Relay.StreamEvents` | fastapi_server.py:192-220 | No contract of its own: the reference reading of a 200 response, namely the relayed lines before the first error object, then that error's explanation, or the failure that ended the stream, or nothing. |
| `Relay.Outcome` | fastapi_server.py:177-222 | No contract of its own: the reference reading for every backend behaviour, one error for a failed connection or a non-200 status and otherwise `StreamEvents`. `Relay.RelayStream` is proved equal to it. |
| `Relay.RelayStream` | fastapi_server.py:181-220 | The relay loop produces exactly the reference outcome: a connect failure or non-200 status gives one error; otherwise the relayed lines up to the first error object, followed by its explanation or by the failure that ended the stream. |
| `Relay.ErrorOnlyLast` | fastapi_server.py:181-222 | For every backend behaviour, every event but the last is a relayed line: at most one error reaches the client and it is last. There are never more events than lines plus one. |
| `Relay.ErrorExactlyWhenSomethingFailed` | fastapi_server.py:181-222 | The stream ends in an error exactly when one of these happened: the connection failed, the status was not 200, a line decoded to an error object, or the stream broke off. |
| `Relay.CleanStreamIsRelayed` | fastapi_server.py:192-211 | A stream without error objects or failures is relayed line for line. |
| `Relay.LinesAfterErrorAreIgnored` | fastapi_server.py:207 | Lines after the first error object, and any later failure, never reach the client. |
| `Relay.EndingReportedAfterLines` | fastapi_server.py:215-220 | A failure that ends a clean stream is reported once, after all the relayed lines. |
| `Chat.HandleChat` | fastapi_server.py:130-222 | The endpoint forwards the resolved model, the prepared messages and the `stream` flag. The client receives the relay outcome of Ollama's answer to exactly that request, with errors naming the resolved model. |
| `Validation.EffectiveMax` | fastapi_server.py:250 | The limit is never 0. `None` and `0` both mean 10000, and any other value, negative ones included, is used as it is. |
| `Validation.Validate` | fastapi_server.py:249-269 | Blank input is rejected with "Input cannot be empty", before any length check. Otherwise input longer than the limit is reported with its length and the limit, and anything else is accepted with its length. |
| `Validation.OversizedError` | fastapi_server.py:261 | No contract of its own: reproduces the text `Input exceeds maximum length of <limit> characters`. |
| `Validation.AcceptedUnderLargerLimit` | fastapi_server.py:258-269 | Raising the limit never rejects a message that was accepted. |
| `Validation.NegativeLimitRejectsAll` | fastapi_server.py:250-264 | A negative limit reports every non-blank message as too long. |
| `Validation.DefaultLimitBoundary` | fastapi_server.py:250-269 | Without a limit, 10000 visible characters are accepted and 10001 are too long. |

## Left out

- Networking and async iteration are not modelled: `httpx`, `StreamingResponse`, its headers and the no-timeout client configuration. Ollama's behaviour is the `Backend` input value.
- A failure in the middle of a stream happens after some prefix of the lines, so `Backend.lines` holds the lines delivered before it.
- JSON decoding is an abstract classifier for stream lines. For a non-200 body it is an optional string `error` field. Two consequences follow:
  - A non-200 body whose `error` value is not a string is not modelled. Python would format that value, for example `None`, into the text.
  - Reading the non-200 body is assumed to succeed.
- The classifier is a parameter, so the model does not decide which JSON is which class. Its documentation (`Relay.LineClass`) fixes the intended reading. An `error` list holding the runner phrase, or an `error` object with the phrase as a key, passes the source's first `in` test, so it is `ErrorObj(RUNNER_TIMEOUT)`. Every other non-string `error` value, every JSON number, `true`, `false` and `null`, and every JSON string or list that contains "error", is `Dropped`, because the source raises on it and skips the line. A JSON string or list without "error" passes the test at fastapi_server.py:198 untouched and is `PassThrough`.
- Exceptions raised while preparing the messages cannot happen in the model.
- Error texts are spliced into `{"error": "…"}` without JSON escaping, as in the source. The model does not reason about the result being valid JSON.
- `os.getenv` and `print` are not modelled. The default model name and Ollama's base URL are parameters, and log output is dropped.
- The other endpoints are not modelled: `/api/health`, `/api/submit` (a plain delegation to the chat endpoint), `/api/ollama/endpoint`, `/api/model/preload`, `/api/responses` and `/`. Neither are the FastAPI app with CORS, the request schemas beyond their fields, or the start-up block.
- Unicode is not modelled. Characters outside ASCII are neither letters, digits nor whitespace, and there is no case mapping for them.
- Rewrite.WordRuleRewritesWholeWords: the word-by-word theorem covers the contraction rule and the three single-word typo rules, not `you\s+are\s+right`. For that rule the model has the scanner itself (each `\s+` takes the whole whitespace run, which is exact because a letter follows) and the visibility lemma.
- The context check of the normaliser (step 4) has no effect in the source, so `FineTune` ignores its context argument; `Normalizer.ContextIgnored` records that.

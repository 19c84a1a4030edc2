# GitHub webhooks: story ticking and the intake gate, in Dafny

This project models the decision logic of a small GitHub webhook service. When a work
issue is closed, the service finds the "story" issue that the work issue's body refers
to. It fetches that story and ticks the checklist line `- [ ] … (owner/repo#number)` for
the closed issue. Every request first passes an intake gate. The gate checks the HTTP
method and the event kind and, when a secret is configured, the `X-Hub-Signature` HMAC.

Modules, one concept each:

- `Results` (results.dfy): `Option` and `Result`.
- `Text` (text.dfy): what the Go formatting verbs produce.
  - `%d` decimal and `hex.EncodeToString` lower-case hex, each with a parser and round-trip lemmas.
  - `[]byte` of an ASCII string.
  - The set of regular-expression metacharacters.
- `Models` (models.dfy): the webhook payload types of `github/models.go`.
  - The issue, repository and owner are plain values, not optional ones, because the Go code dereferences them unchecked.
- `Story` (story.dfy): `findStory` as a leftmost-first scanner with two fixed-length alternatives.
- `Checklist` (checklist.dfy): `tickReferencedIssue` as a scanner that copies the RE2 pattern.
  - `Checklist.Tick` carries the reference meaning of the rewrite: the character at `k` becomes `x` exactly when `k - 3` starts the first matchable marker of its line.
  - The lemmas in `ChecklistProperties` (checklist_properties.dfy) derive the promises callers rely on from that meaning.
- `Issues` (issues.dfy): `handleIssues` with the GitHub client as an oracle.
  - It returns a trace of client calls and log lines.
- `Handler` (handler.dfy): `ServeHTTP` and `verifySignature`.
  - HMAC-SHA1 is a function parameter returning 20 bytes.
  - The `sha1=` + hex rendering and the `hmac.Equal` XOR/OR fold are modelled concretely.
- `StoryExamples`, `ChecklistExamples`, `IssuesExamples` and `HandlerExamples` hold concrete scenarios, including the three handler tests.

Behaviours of the code that a reader might not expect:

- The checklist rewrite is not idempotent in general. A line with two unchecked markers before the token gets its first marker ticked on the first pass and its second on the next pass (`ChecklistExamples.TickNotIdempotentInGeneral`). Idempotence holds on every line with at most one matchable marker (`ChecklistProperties.TickIdempotentOnLine`), and so on a story where every line is like that (`ChecklistProperties.TickIdempotentOnSingleMatchLines`).
- `findStory` captures a single digit, so `acme/stories#42` resolves to story 4 (`StoryExamples.ShorthandKeepsFirstDigit`). The `.` in `github.com` is unescaped, so it matches any character except a newline (`StoryExamples.UnescapedDotMatchesAnyChar`).
- A non-POST request writes `Ready...` and returns. It logs nothing and dispatches nothing; nothing after the method check runs.
- For `issues` with a secret, the digest covers only the bytes the JSON decoder pulled from the body (`Request.decoderRead`). The body is not drained first. For `ping` the whole body is drained before the check.

## Model

| member | source | states |
|---|---|---|
| Text.Decimal | handlers/issues.go:62 | `%d` of a natural: at least one digit, all digits, no leading zero unless the number is 0 |
| Text.DecimalRoundTrip | handlers/issues.go:62 | parsing the decimal rendering of `n` gives back `n` |
| Text.DecimalInjective | handlers/issues.go:62 | distinct issue numbers render as distinct decimals, so the token of one issue never names another |
| Text.HexLower | handlers/handler.go:76 | two characters per byte, every one a lower-case hex digit |
| Text.HexLowerAt | handlers/handler.go:76 | byte `i` is rendered at positions `2i` and `2i+1`, high nibble first |
| Text.HexRoundTrip | handlers/handler.go:76 | decoding the hex rendering of a digest gives back the digest |
| Text.HexDecodeSound | handlers/handler.go:76 | any string the hex decoder accepts is the rendering of what it returns |
| Text.HexInjective | handlers/handler.go:76 | distinct digests have distinct hex renderings |
| Text.AsciiBytes | handlers/handler.go:77 | `[]byte(s)` of an ASCII string has one byte per character with the same code |
| Checklist.TokenDeterminesNumber | handlers/issues.go:62 | for a given owner and repository, equal tokens have equal issue numbers |
| Checklist.TokenIsValid | handlers/issues.go:62 | with owner and repository free of metacharacters, the token `(O/R#N)` starts with `(`, ends with `)` and holds no square bracket |
| Story.RefDigit | handlers/issues.go:53-56 | the story number taken from a match is a single decimal digit |
| Story.StoryApiUrlShape | handlers/issues.go:58 | the API URL of a story is `https://api.github.com/repos/`, the repository, `/issues/` and the digit, with the length of those parts |
| Story.LeftmostRef | handlers/issues.go:45-47 | the scan returns the first position at or after `i` where either alternative matches, or none when no position matches |
| Story.FindStory | handlers/issues.go:44-59 | empty exactly when no position of the body holds `https://github?com/R/issues/\d` or `R#\d`; otherwise the API URL with the digit of the leftmost match, the URL alternative winning at a shared position |
| Story.FoundStoryShape | handlers/issues.go:53-58 | a found URL is `https://api.github.com/repos/`, the story repository, `/issues/` and exactly one digit |
| StoryExamples.ShorthandResolves | handlers/issues.go:45-58 | a body `P + R + "#" + d + …` resolves to the digit `d`, provided `P + R` holds no `#` and `P` and the tail together are under 28 characters, so that no URL reference can start in the body |
| StoryExamples.UrlResolves | handlers/issues.go:45-58 | a body opening with a URL reference resolves to that URL's digit, whatever non-newline character stands for the dot |
| StoryExamples.ShorthandKeepsFirstDigit | handlers/issues.go:53-58 | `fixes acme/stories#42` resolves to story 4 |
| StoryExamples.UnescapedDotMatchesAnyChar | handlers/issues.go:45 | `https://github_com/acme/stories/issues/7` counts as a reference to story 7 |
| StoryExamples.OtherRepositoryIgnored | handlers/issues.go:45-51 | a reference to another repository resolves to nothing |
| Checklist.LineEnd | handlers/issues.go:62 | the end of a line is the next newline or the end of the text, with no newline before it |
| Checklist.LastTokenIn | handlers/issues.go:62 | the last token occurrence in a range, or none when the range holds no token |
| Checklist.LastClose | handlers/issues.go:62 | the greedy `.+` takes a match from a marker to the last token on its line, at least one character after the marker; no match starts at a non-marker |
| Checklist.TickFrom | handlers/issues.go:63-67 | the left-to-right replacement from any position keeps the length of the rest of the text |
| Checklist.Tick | handlers/issues.go:61-68 | the length is kept; position `k` becomes `x` exactly when `k - 3` is an unchecked marker with the token after it on its line and no earlier such marker on that line; every other character is kept |
| Checklist.TickFromMeaning | handlers/issues.go:65-67 | the left-to-right, non-overlapping replacement from any position agrees with the per-line reference meaning |
| ChecklistProperties.TickChangesOnlyMarkers | handlers/issues.go:65-67 | every changed character was the blank of a `- [ ]` marker and is now `x` |
| ChecklistProperties.TickWithoutTokenIsIdentity | handlers/issues.go:62-67 | a story without the exact token comes back unchanged |
| ChecklistProperties.TickAtMostOnePerLine | handlers/issues.go:62-67 | two ticked markers are always separated by a line break |
| ChecklistProperties.TickLeavesTokenlessLineAlone | handlers/issues.go:62-67 | a line without the exact token (another number, another repository) is untouched |
| ChecklistProperties.TickIdempotentOnLine | handlers/issues.go:62-67 | on a line where at most one unchecked marker precedes the token, a second application changes nothing, whatever the other lines hold |
| ChecklistProperties.TickIdempotentOnSingleMatchLines | handlers/issues.go:62-67 | a second application changes nothing when no line has two matchable markers |
| ChecklistProperties.SoleMarkerTicked | handlers/issues.go:62-67 | the only marker of a text, with the token on its line, is ticked and nothing else changes |
| ChecklistExamples.ShipItTicked | handlers/issues.go:61-68 | closing acme/worker#7 turns `- [ ] ship it (acme/worker#7)` into `- [x] ship it (acme/worker#7)` |
| ChecklistExamples.ShipItOtherNumberUntouched | handlers/issues.go:62 | closing acme/worker#17 leaves the line for #7 alone |
| ChecklistExamples.TickNotIdempotentInGeneral | handlers/issues.go:62-67 | with two unchecked markers before the token, the first pass ticks only the first, the second pass ticks the second, so the second pass changes the text |
| Issues.Calls | handlers/issues.go:29-41 | the client calls of a trace: never longer than the trace, and no log lines |
| Issues.Line | handlers/issues.go:24-41 | a `Println` line of three operands starts with the first operand and a space and is two separators longer than its operands |
| Issues.HandleIssues | handlers/issues.go:17-42 | no action for a non-closed event or one from the story repository; only the "could not find story" line when no story is referenced; exactly one fetch, of the resolved URL, whenever a story is resolved, and none otherwise; an update if and only if the fetch succeeded, sent to the fetched story's own URL with its body ticked for the closed issue; every log line starts with the issue URL; after a resolved story, the first line names it and the last is `error getting story:` with the fetch error, `error updating issue body:` with the update error, or `updated story:` with the story URL, according to the client's answers; each resolved story gives exactly two log lines, one before the fetch and one at the end; the closed issue's owner and repository need to be literal only when the story is fetched |
| IssuesExamples.ClosingTicksStory | handlers/issues.go:17-42 | closing acme/worker#7 with body `fixes acme/stories#4` fetches story 4 and sends its `- [ ] ship it (acme/worker#7)` line back ticked |
| IssuesExamples.OtherEventsIgnored | handlers/issues.go:18-20 | a reopened issue, or a closed issue of the story repository, causes nothing |
| IssuesExamples.FetchFailureStopsBeforeUpdate | handlers/issues.go:29-33 | a failed fetch is the only client call |
| IssuesExamples.MetacharRepositoryFetchFails | handlers/issues.go:22-33 | a closed issue of `acme/socket.io` referring to `acme/stories#4` is handled; when the fetch fails, that fetch is the only client call |
| IssuesExamples.MetacharRepositoryReopenedIgnored | handlers/issues.go:17-20 | a reopened issue of `acme/socket.io`, whose name is not literal, causes nothing |
| Handler.XorZero | handlers/handler.go:77 | the XOR of two bytes is zero exactly when they are equal |
| Handler.OrZero | handlers/handler.go:77 | the OR of two values is zero exactly when both are |
| Handler.DiffBits | handlers/handler.go:77 | the accumulator that ORs in `x[i] ^ y[i]` for every `i` of equally long inputs is zero exactly when the inputs are equal |
| Handler.HmacEqual | handlers/handler.go:77 | `hmac.Equal` holds exactly when the two byte strings are equal |
| Handler.ExpectedSignature | handlers/handler.go:76-77 | the expected header for a 20-byte digest is 45 bytes long |
| Handler.VerifySignature | handlers/handler.go:75-78 | true exactly when the header equals `sha1=` plus the digest's lower-case hex; any header not 45 bytes long is rejected |
| Handler.VerifyMeansParse | handlers/handler.go:75-78 | a header verifies against a digest exactly when it reads back, as `sha1=` plus 40 lower-case hex digits, to that digest |
| Handler.ServeHTTP | handlers/handler.go:25-73 | non-POST: nothing; `ping`: `pong`, then `ping: invalid signature` exactly when a secret is set and the header mismatches the digest of the whole body; `issues`: a dispatch of the decoded event with the configured story repository exactly when no secret is set or the header matches the digest of what the decoder read, otherwise only `issues: invalid signature`; any other event: nothing |
| Handler.NoSecretIgnoresSignature | handlers/handler.go:37-43 | without a secret, neither the signature header nor the digest function affects the outcome |
| Handler.DispatchExcludesLogs | handlers/handler.go:58-69 | a request that dispatches logs nothing |
| HandlerExamples.PingWithoutSecret | handlers/handler_test.go:14-33 | a ping to a handler without a secret logs exactly `pong` |
| HandlerExamples.PingWithSignature | handlers/handler_test.go:35-56 | a ping whose header is `sha1=` plus the hex of the body's digest logs only `pong` |
| HandlerExamples.PingWithInvalidSignature | handlers/handler_test.go:58-79 | a ping whose header differs in the last hex digit logs `pong` then `ping: invalid signature` |

## Left out

- HMAC-SHA1 itself is a parameter (`Handler.Mac`) returning 20 bytes. The test vector `cd85d074…b1` cannot be related to `this is the body` without SHA-1, so the handler test lemmas take the digest as given.
- The constant-time property of `hmac.Equal` is not stated: only its value is modelled.
- Stream handling: `io.TeeReader`, draining with `io.Copy`, and `json.NewDecoder`. The decoded event and the number of bytes the decoder consumed are request fields.
- Malformed JSON, which leaves a zero-valued event in Go, is not modelled apart from being whatever `Request.decoded` holds.
- The `go` statement that starts `handleIssues` is a `Dispatch` value in the outcome. Concurrency is not modelled.
- Handler.ServeHTTP: HTTP status codes and the `Ready...` response text are not modelled.
- Logger prefixes, flags and timestamps are left out. A log line is the text `Println` joins with spaces.
- `github/client.go` is not part of this model. It is the HTTP/JSON transport that the `Issues.Client` oracle stands for.
- `webhook.go` is not part of this model: the OAuth flow, random codes, environment bootstrap and webhook installation.
- Story.FindStory: requires the story repository to hold no regular-expression metacharacter. Other names would change the pattern itself.
- Issues.HandleIssues: requires the story repository to be literal. It also requires the closed issue's owner and repository to be literal when a story is found and fetched, because only then does the code build the ticking pattern. With other names Go builds a pattern that means something else, or, for a name with an unbalanced `(` or `[`, `regexp.MustCompile` panics in the handler's goroutine and the process ends. Neither is modelled.
- Checklist.Tick: requires the same of owner and repository, and takes the issue number as a natural. A negative Go `int` would render with a minus sign.
- Strings are sequences of characters. Go's byte-oriented UTF-8 matching is not modelled.

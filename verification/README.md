# gDeepLX request fabrication and response classification, in Dafny

gDeepLX is a Go client for the DeepL JSON-RPC endpoint used by DeepL's iOS app.
It makes each request look like one from the app. The request id is
`(draw + 8300000) * 1000 + 1`. When the text contains `i`, the timestamp is the
clock moved to the next multiple of one more than the number of `i`s, strictly
after the clock: a clock already on a multiple still moves one period on. The compact JSON key
`"method":"` is respaced to `"method": "` or `"method" : "`, and the id decides
which. After the HTTP exchange, the JSON-RPC error code and the HTTP status
decide between an error and a result.

This project models that pure logic of `gdeeplx.go` as Dafny functions and
proves properties about it. The modules are:

- `Wrappers`, `Errors` (`wrappers.dfy`): the `Result` type and the four
  errors `Translate` can return.
- `GoArith` (`go_arith.dfy`): Go's truncating `%`. Dafny's `%` is Euclidean,
  so the model writes Go's operator out and proves where the two agree.
- `GoStrings` (`go_strings.dfy`): `strings.Count`, and `strings.Replace` with
  `n = -1`. Matches are non-overlapping and taken from the left; an empty
  pattern is handled as Go does. This module also holds a general theory of
  when a replace-all leaves no pattern behind and when it can be undone.
- `Fabrication` (`fabrication.dfy`): `getRandomNumber`, the `+1` in
  `Translate`, `getICount` and `getTimeStamp`.
- `Payload` (`payload.dfy`): the spacing selector and the respacing rewrite.
- `Request` (`request.dfy`): the request records, `initData`, the language
  defaults, building one request, and its wire form.
- `Response` (`response.dfy`): the parsed reply, the alternatives loop, and
  the error/result classification.
- `Client` (`client.dfy`): `Translate` end to end.

Nondeterminism and foreign code are parameters:

- `draw`: what `rand.Int63n(99999)` returns, so `0 <= draw < 99999`.
- `ts`: the `time.Now().UnixMilli()` reading, a signed integer.
- `detect`: the `whatlanggo` detector followed by `strings.ToUpper`.
- `marshal`: `json.Marshal`.
- `exchange`: sending the payload and reading the reply.

Three facts about the code shape the model:

- The largest id quotient is 8399998: `Int63n(99999)` draws from 0 to 99998
  (gdeeplx.go:85).
- An empty target language becomes `"EN"`, and an empty source language goes
  to detection (gdeeplx.go:108-115). The code tests for the empty string, so a
  language passed as `""` and a language left out are the same.
- Go's `%` truncates toward zero (gdeeplx.go:93). For a negative clock reading
  the timestamp is still a multiple of `iCount + 1` and still later than the
  clock, but not the least such multiple: `TimeStamp(-5, 2) == 0`, not `-3`.

Some rewrite properties are true only for inputs the serialiser actually
produces:

- The rewrite removes every `"method":"` unless the input contains
  `"method":"method":"` (the constant `DoubledToken`). On that input one token
  survives: `"method":"method":"` becomes `"method": "method":"`
  (`RewriteCanLeaveToken`).
- Collapsing the respaced key back gives the input, unless the input already
  contained the respaced key.
- Compact JSON from `json.Marshal` contains neither text, because quotes
  inside string values are escaped.

## Model

| member | source | states |
|---|---|---|
| GoArith.TruncRem | gdeeplx.go:93 | Go's `ts % n` for a positive `n`: `ts` minus it is a multiple of `n`, it has the sign of `ts`, and its magnitude is below `n` |
| GoArith.TruncRemAgrees | gdeeplx.go:93 | for a non-negative clock, Go's remainder equals the Euclidean one |
| GoArith.TruncRemZeroIff | gdeeplx.go:135 | for any sign, Go's remainder is zero exactly when the Euclidean one is, so the selector's `== 0` tests mean "divisible" |
| GoStrings.CountZeroIff | gdeeplx.go:80 | `strings.Count` of a non-empty pattern is 0 exactly when the pattern does not occur |
| GoStrings.CountChar | gdeeplx.go:80 | `strings.Count` of a one-character pattern is that character's multiplicity in the text |
| GoStrings.ReplaceAllLength | gdeeplx.go:136-138 | a replace-all changes the length by `|rep| - |pat|` per counted occurrence |
| GoStrings.ReplaceAllAbsent | gdeeplx.go:136-138 | text without the pattern is returned unchanged |
| GoStrings.ReplaceRemovesPattern | gdeeplx.go:136-138 | for a valid respacing, no pattern survives unless a pattern is directly followed by the rest of another |
| GoStrings.ReplaceInverse | gdeeplx.go:136-138 | for a valid respacing, replacing `rep` back by `pat` gives the input, provided the input held no `rep` |
| Fabrication.RandomNumber | gdeeplx.go:83-87 | `getRandomNumber` is a multiple of 1000 between 8300000000 and 8399998000 |
| Fabrication.RequestId | gdeeplx.go:123 | the id is 1 modulo 1000, its quotient by 1000 lies in [8300000, 8399998], and it lies in [8300000001, 8399998001] |
| Fabrication.IdRoundTrip | gdeeplx.go:85-86 | draws and well-formed ids correspond one to one: the draw is recovered from its id, and every well-formed id comes from a draw |
| Fabrication.ICount | gdeeplx.go:79-81 | `getICount` is the number of `i` characters in the text; it is at most the length, and 0 exactly when there is no `i` |
| Fabrication.TimeStamp | gdeeplx.go:89-97 | with no `i` the clock is returned unchanged; otherwise the result is divisible by `iCount + 1` and later than the clock, and at most `iCount + 1` later for a non-negative clock |
| Fabrication.TimeStampLeast | gdeeplx.go:91-93 | for a non-negative clock, the timestamp is the least multiple of `iCount + 1` after the clock |
| Payload.Spacing | gdeeplx.go:135-139 | the double-spaced key is chosen iff `(id+5) % 29 == 0` or `(id+3) % 13 == 0`, and otherwise the single-spaced key |
| Payload.SpacingsCollapse | gdeeplx.go:136-138 | either respaced key with its spaces removed is the compact key |
| Payload.SpacingPeriodic | gdeeplx.go:135 | the choice of spacing repeats every 377 ids |
| Payload.Rewrite | gdeeplx.go:135-139 | the rewritten payload has no compact key (input without `DoubledToken`); collapsing the chosen spacing gives the input back (input without that spacing); text without the key is unchanged |
| Payload.RewriteLength | gdeeplx.go:135-139 | the payload is longer than the serialised request by the added spaces, 1 or 2 per compact key |
| Payload.RewriteCanLeaveToken | gdeeplx.go:136 | on `"method":"method":"` one compact key survives the rewrite, so the guard on the first property is needed |
| Request.InitData | gdeeplx.go:60-77 | the skeleton has the fixed fields (`2.0`, `LMT_handle_texts`, `newlines`, not spoken, no transcription), the given languages, and zero id, texts and timestamp |
| Request.ResolveLangs | gdeeplx.go:108-115 | the target is never empty: empty becomes `EN`, anything else passes through; an empty source is replaced by the detector's answer, anything else passes through |
| Request.ResolveLangsIdempotent | gdeeplx.go:108-115 | if the detector names a language, resolving already resolved languages changes nothing |
| Request.BuildRequest | gdeeplx.go:117-131 | empty text fails with "No Translate Text Found" and nothing is built; otherwise the request has the fixed fields, a well-formed id from the draw, one text entry with the requested alternatives, the resolved languages, and the timestamp `getTimeStamp` makes from the text's `i` count: the clock itself without an `i`, otherwise a multiple of the count plus one, later than the clock and, for a non-negative clock, at most that many milliseconds later |
| Request.Prepare | gdeeplx.go:132-141 | the request is the one `BuildRequest` makes; when the serialised request has no `DoubledToken`, the wire form has no compact key; when it has no occurrence of the chosen spacing, collapsing that spacing gives the serialised request back |
| Response.AlternativeTexts | gdeeplx.go:194-198 | the alternatives' texts have the same length and order as the response's alternatives |
| Response.CollectAlternatives | gdeeplx.go:194-198 | the append loop returns each alternative's text in response order, the same list as `AlternativeTexts` |
| Response.Classify | gdeeplx.go:186-203 | a transport failure is passed on with its own message; error code -32600 gives the error whose message is "Invalid targetLang", whatever the status; status 429 otherwise gives the error whose message is "Too Many Requests"; any other reply succeeds with the id, the text and the alternatives in order |
| Response.ClassifyDependsOnCodeAndStatus | gdeeplx.go:186-192 | for received replies, whether the call fails and with which error depends only on the error code and the status |
| Client.Translate | gdeeplx.go:105-206 | empty text fails with the message "No Translate Text Found" before anything is sent; otherwise the reply to the prepared payload is classified; a success carries the well-formed id made from the draw |
| Client.EmptyTextSendsNothing | gdeeplx.go:117-121 | for empty text the outcome is the same whatever the service would answer |

## Left out

- HTTP transport (gdeeplx.go:122 and 142-182): request construction, the fixed header set, `client.Do` and reading the body are network I/O. They are the `exchange` parameter, and their errors are the `TransportFailure` reply.
- Brotli decompression and `gjson` parsing: these are foreign libraries. The reply is an abstract `Body` holding the strings `gjson` would render, with "" for absent paths.
- `json.Marshal`: a foreign serialiser, taken as the `marshal` parameter. The rewrite is verified on arbitrary strings.
- `whatlanggo.DetectLang` and `strings.ToUpper`: a statistical detector that cannot be specified. They are the `detect` parameter.
- `time.Now`, `rand.Seed`, `rand.Int63n`: nondeterministic sources. They are the `ts` and `draw` parameters.
- `log.Println`: a side effect only.
- The `{"message": ...}` map that Go returns together with the empty-text error is not modelled. Only the error is.
- The id draw and language detection run before the empty-text check in Go. They have no observable effect on that path, so the model does not perform them.
- Go strings are byte strings; the model uses sequences of code points. `strings.Count` with an empty pattern counts code points, as Go does for valid UTF-8.
- Go returns a nil slice when there are no alternatives. The model returns an empty sequence.
- Fabrication.TimeStamp: does not model int64 wrap-around of `ts - ts%n + n`. It could happen only for a clock within `n` milliseconds of the largest int64.
- GoArith.TruncRem: only positive divisors are modelled. The client divides only by `iCount + 1`, 29 and 13.
- GoStrings.ReplaceRemovesPattern: proved only for inputs without the pattern followed by its own tail. On that input the claim is false; see `Payload.RewriteCanLeaveToken`.

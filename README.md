# llm-local-proxy: payload rewriting, modelled in Dafny

llm-local-proxy is a local reverse proxy in front of a DeepSeek-style chat
completion API. On the way in it repairs the request body: every assistant
message must carry a `reasoning_content` key, so the proxy adds one, empty,
where it is missing. On the way out it rewrites the server-sent event stream
so that reasoning text never reaches the client: in every `data: ` frame,
existing `reasoning_content` values under `choices[*].delta` and
`choices[*].message` are blanked. It also decides which responses get the
stream rewrite, and it checks and defaults its configuration.

The model takes the program's own form. The two JSON rewrites and the read
loop are methods with loops. Each method is proved equal to a specification
function (`Request.Normalized`, `Frames.Cleared`, `Stream.StreamOutput`).
Lemmas then prove what those functions keep, what they change, and that they
are idempotent. The stream reader and the response writer are classes
(`Stream.LineReader`, whose state is the input not yet read, and
`Stream.Sink`, the chunks written so far). The global configuration is a class
(`ProxyConfig.Config`).

Modules, one per component:

- `Wrappers` (wrappers.dfy): the `Option` and `Result` types.
- `Bytes` (bytes.dfy): bytes, `HasPrefix`, and Go's `bytes.TrimSpace` with Unicode white space.
- `Json` (json.dfy): decoded JSON values, the codec, and decoding into `map[string]any`.
- `Request` (request.dfy): `ensureReasoningField`.
- `Frames` (frames.dfy): `clearReasoning`.
- `Stream` (stream.dfy): the per-line transform, splitting into lines, and the `processSSEResponse` loop.
- `Relay` (relay.dfy): the routing check in `handleProxy`.
- `ProxyConfig` (config.dfy): the checks in `loadConfig`.

## How encoding/json is represented

`json.Unmarshal` and `json.Marshal` are foreign code. They appear only as
the two function fields of a `Json.Codec` value, which is passed as a
parameter. `parse` gives `None` on a syntax error, and `serialize` gives
`None` when `Marshal` fails. The source handles both errors, and so does the
model.

Decoding into a `map[string]any` variable accepts an object, and also
`null`, which becomes a nil map without an error. Every other value is an
error (`Json.DecodeObject`). A decoded `null` frame therefore goes through
`clearReasoning` unchanged and is re-serialised.

Objects are maps, because Go's maps have no order. A number is an opaque
token standing for the `float64` Go decodes it to.

Most lemmas hold for every codec. A few assume one or both of two
properties of Go's Marshal and Unmarshal, and say so in their `requires`
clauses:

- `Json.RoundTrips`: Unmarshal after Marshal gives back the value that was marshalled.
- `Json.CompactOutput`: Marshal writes no raw newline, and starts and ends with a printable non-space byte.

The lemmas that assume them:

- `Request.NormalizedMeaning` and `Request.NormalizedIdempotent`: `RoundTrips`.
- `Stream.TransformKeepsLines`: `CompactOutput`. Its helper `Stream.RewrittenLine` needs a compact payload.
- `Stream.RewrittenFrameIsScrubbed`, `Stream.TransformLineIdempotent`, `Stream.StreamIdempotent` and `Relay.RelayIdempotent`: both.

## What the rewrites do not do

The proxy works on the `reasoning_content` field only:

- It adds the field, empty, to assistant messages in the request.
- It blanks existing values of the field in the stream.

It does not move reasoning text into inline markers or back. It does not strip earlier turns from the history. It keeps no reasoning mode across stream frames: each line is handled on its own. The model does exactly what `main.go` does, and nothing more.

## Model

| member | source | states |
|---|---|---|
| `Json.DecodeObject` | main.go:164-167 | decoding into a map succeeds exactly for an object or `null`; a success is what the codec parsed |
| `Request.WithReasoning` | main.go:176-181 | one message is filled as `MessageFilled` says (non-assistant and non-object entries untouched; an assistant message keeps every key and value, an existing `reasoning_content` included, and gains `reasoning_content = ""` when it has none), and it no longer lacks the key |
| `Request.EnsureReasoningField` | main.go:163-190 | the loop with its `changed` flag returns exactly `Normalized(c, body)` |
| `Request.MessageFilledUnique` | main.go:176-181 | the declarative per-message description admits only the result of `WithReasoning` |
| `Request.FilledMeetsSpec` | main.go:169-182 | the fixed document keeps every other top-level field, the message count and order, and fills each message |
| `Request.DocumentFilledUnique` | main.go:169-182 | any document meeting that description is the fixed document: the description determines the rewrite |
| `Request.FilledHasNothingLeft` | main.go:175-182 | after the fix no assistant message lacks `reasoning_content` |
| `Request.NormalizedPassThrough` | main.go:164-174 | the original bytes come back when the body does not decode into a map, when `messages` is missing or not an array, and when no message needs the key |
| `Request.Normalized` | main.go:163-190 | the bytes forwarded upstream. A body that differs from the input comes from a body that decoded, had a `messages` array and needed a rewrite, and it is the marshalled fixed document |
| `Request.NormalizedMeaning` | main.go:175-189 | read back through a round-tripping codec, the forwarded body is the request filled as described, or the unchanged request when Marshal failed |
| `Request.NormalizedIdempotent` | main.go:174-189 | normalising the normaliser's output returns it byte for byte |
| `Frames.Blank` | main.go:238-244 | under one key, an existing `reasoning_content` of an inner object becomes `""`; all key sets stay the same (the key is never added) and all other values stay the same; with no inner object or no such key nothing changes |
| `Frames.Cleared` | main.go:227-246 | the frame after scrubbing. Without a `choices` array it is the frame itself. Otherwise it has the same top-level keys, the same values outside `choices`, and as many choices |
| `Frames.ClearReasoning` | main.go:227-246 | the nested loops over choices and over `delta`/`message` return exactly `Cleared(data)` |
| `Frames.ClearedChangesOnlyReasoning` | main.go:228-245 | without a `choices` array the frame is unchanged; otherwise top-level keys and other values, the choice count and order, non-object choices, choice keys and values, and inner key sets are kept, and only `reasoning_content` values may differ |
| `Frames.ClearChoiceChangesOnlyReasoning` | main.go:233-244 | the same for one choice |
| `Frames.ClearedIsScrubbed` | main.go:232-245 | after clearing, no `reasoning_content` under `delta` or `message` of any object choice holds anything but `""` |
| `Frames.ScrubbedIsFixed` | main.go:238-244 | a frame without reasoning text is left exactly as it is |
| `Frames.BlankFixed` | main.go:240-242 | blanking an already blank key changes nothing |
| `Frames.ClearedIdempotent` | main.go:227-246 | clearing twice is clearing once |
| `Bytes.HasPrefix` | main.go:203 | true exactly when the first bytes of the line are the prefix, byte for byte; the line is then the prefix followed by the rest |
| `Bytes.TrimSpace` | main.go:205 | the result is a slice `s[i..j]` of the input; everything before `i` and everything after `j` is white space (ASCII or Unicode, in UTF-8); the result neither starts nor ends with white space |
| `Bytes.TrimLeft` | main.go:205 | the result is a suffix of the input; the part cut off is white space only, and the result starts with none |
| `Bytes.TrimRight` | main.go:205 | the result is a prefix of the input; the part cut off is white space only, and the result ends with none |
| `Bytes.TrimSpaceIdempotent` | main.go:205 | trimming twice is trimming once |
| `Bytes.TrimSpaceDropsNewline` | main.go:205 | a compact payload followed by the line's newline trims back to the payload |
| `Stream.NewlineIndex` | main.go:198 | the position found is within the input and holds a newline unless it is the end |
| `Stream.NewlineIndexFirst` | main.go:198 | no newline comes before the position found: it is the first one |
| `Stream.LineReader.FindNewline` | main.go:198 | the scan over the buffered bytes stops at exactly the first newline, or at the end |
| `Stream.TransformLine` | main.go:203-216 | what one line becomes. Only a `data: ` line whose payload is not `[DONE]` and decodes can change. It then becomes `data: `, the marshalled cleared frame and a newline |
| `Stream.TransformLineCases` | main.go:203-216 | a line is forwarded as is without the `data: ` prefix, with payload `[DONE]`, or with a payload that does not decode (or re-encode); otherwise it becomes `data: ` + serialised cleared frame + `\n` |
| `Stream.RewriteLine` | main.go:203-217 | the loop body computes exactly `TransformLine(c, line)` |
| `Stream.TransformLineKeepsShape` | main.go:203-216 | the `data: ` prefix is present after the transform exactly when it was before, and a terminating newline survives |
| `Stream.TransformKeepsLines` | main.go:212-213 | with a compact codec, a complete line stays one complete line |
| `Stream.RewrittenFrameIsScrubbed` | main.go:209-214 | a rewritten line's payload decodes to a frame with no reasoning text |
| `Stream.TransformLineIdempotent` | main.go:203-216 | sending a line through the transform twice gives what one pass gives |
| `Stream.LineReader.ReadBytes` | main.go:198-201 | returns the next complete line and leaves the rest; with no newline left, returns the fragment with an error and consumes it |
| `Stream.LinesRebuild` | main.go:197-201 | the complete lines followed by the fragment are the input: nothing lost, nothing reordered |
| `Stream.LinesAreLines` | main.go:198 | every line ends with its only newline; the fragment holds none |
| `Stream.LinesCount` | main.go:197-201 | there are as many lines as newlines |
| `Stream.LinesOfFlatten` | main.go:198 | splitting undoes concatenating complete lines and a newline-free tail |
| `Stream.StreamOutput` | main.go:197-222 | the chunks the loop writes: one per complete line, so one per newline of the input, the i-th the transform of the i-th line |
| `Stream.StreamWithoutDataLines` | main.go:197-222 | a stream without data lines is forwarded byte for byte, except that an unterminated fragment is dropped |
| `Stream.StreamIdempotent` | main.go:197-222 | re-proxying the proxy's stream output changes nothing |
| `Stream.LineReader.ReadAll` | main.go:154 | io.Copy's reads: everything the body delivers, leaving nothing unread |
| `Stream.Sink.Write` | main.go:219 | `w.Write` appends the chunk to what the client has received |
| `Stream.ProcessSSEResponse` | main.go:193-224 | the read loop writes exactly the transformed complete lines, in order, and consumes the whole body |
| `Relay.HeaderGet` | main.go:148 | `Header.Get`: the first value of the header, `""` when it is absent or has no value |
| `Relay.StreamTransformed` | main.go:148-149 | the routing check holds exactly for status 200 with a first `Content-Type` value equal to `text/event-stream` |
| `Relay.RelayedBody` | main.go:148-159 | the body the client gets: the upstream bytes as they are when the check fails, the flattened stream output when it holds |
| `Relay.RelayResponseBody` | main.go:148-159 | a 200 `text/event-stream` response gets the stream output; every other body is copied whole |
| `Relay.OtherResponsesUntouched` | main.go:148-156 | a status other than 200, or another content type, means byte-for-byte relay |
| `Relay.ContentTypeParameterDisablesRewrite` | main.go:148 | the content-type match is exact: `text/event-stream; charset=utf-8` is not rewritten |
| `Relay.StreamDropsFragment` | main.go:197-201 | on the rewritten path the client gets everything but the unterminated fragment, for a stream without data lines |
| `Relay.RelayIdempotent` | main.go:148-159 | relaying the relayed body again with the same status and headers changes nothing |
| `ProxyConfig.Validated` | main.go:46-56 | fails exactly when `api_key` is empty; otherwise keeps the key, keeps a non-empty port and URL, and defaults empty ones to `12000` and `https://api.deepseek.com`, so neither is empty |
| `ProxyConfig.ValidatedIdempotent` | main.go:46-56 | a configuration that passed the checks passes them again unchanged |
| `ProxyConfig.Config.Validate` | main.go:45-56 | on the global config: the error comes exactly for an empty key, and the fields are then left as decoded; otherwise the fields become `Validated` of what was decoded |

## Left out

- HTTP server, route registration, flag parsing and `main` (main.go:59-89): process setup and I/O.
- Building and sending the upstream request (main.go:92-134, 249-255): header copying, the `Authorization` and `Host` headers, and `httpClient.Do` are network plumbing. Only the body rewrite is modelled.
- The response-header relay and `WriteHeader` (main.go:137-145): an I/O wrapper.
- Debug mode (main.go:151-153, 258-302): `debugNonStreaming` only logs and pretty-prints. With debug mode off, non-stream bodies are copied, and that is the path modelled.
- The internals of `encoding/json`: represented by the `Codec` parameter.
- Opening and decoding the configuration file (main.go:34-43): I/O. `ProxyConfig.Config.Validate` starts from the fields that `Decode` left in the global `config`.
- Flushing and per-connection concurrency (main.go:194, 220-222): not part of the transform's result.
- `Relay.RelayResponseBody`: models `io.Copy` as a single write of everything read before the read error. How io.Copy splits the body into writes is not modelled.
- `Relay.HeaderGet`: looks the key up exactly as given and does not canonicalise it as `Header.Get` does. The model only ever asks for the canonical `Content-Type`, and the source's response headers are stored under canonical keys.
- Write errors on the client connection: the source ignores them, and the model's `Sink` never fails.
- In-place mutation: Go changes the decoded maps in place. The model builds the changed value instead. `Unmarshal` never shares a map between two places, so nothing in the model's results depends on aliasing.
- `Stream.StreamIdempotent`, `Stream.TransformLineIdempotent`, `Stream.RewrittenFrameIsScrubbed`, `Relay.RelayIdempotent`: hold only for a codec that round-trips and writes compact output, as Go's Marshal does. This is an assumption about the library, not something proved.
- `Request.NormalizedIdempotent`, `Request.NormalizedMeaning`: hold only for a codec that round-trips.
- `Stream.TransformKeepsLines`: holds only for a codec that writes compact output.

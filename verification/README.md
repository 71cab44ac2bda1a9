# nix-inspect worker bridge, modelled in Dafny

nix-inspect is a terminal browser for Nix configurations. It has two parts:

- A front end, written in Rust, holds the browser model and draws it.
- An evaluator child process, written in C++, answers one query per line.

For every browser path the front end needs, its worker thread writes one request line to the child. It then reads one response line: a JSON object `{"type": <tag>, "data": <payload>}` that describes the evaluated value. The decoded value goes back to the main thread as a message.

This project models the core of that bridge and proves properties of the model:

- **`wrappers.dfy`, module `Wrappers`**: `Option` and `Result`.
- **`json.dfy`, module `Json`**: JSON values, as the parser produces them.
  - The integer widths the decoder checks (`Int64`, `UInt64`) and an opaque 64-bit float token.
  - Field lookup in an object, telling a missing field from a unique one and a duplicated one.
- **`workers.dfy`, module `Workers`**: src/workers.rs. Two parts:
  - The `NixValue` codec, a serde adjacently tagged enum. `Encode` is the derived serializer. `Decode` is the derived deserializer: it scans the members once, and it rejects a duplicated "type" or "data" field, a missing tag and an unknown tag. It ignores other keys. It accepts a missing or `null` payload for unit variants. It checks the payload shape and the integer range for the other variants.
  - The worker thread's loop, `WorkerLoop`, proved against the fold `Serve`.
- **`main.dfy`, module `App`**: src/main.rs. It covers:
  - the initial model;
  - the relay thread;
  - the single request for the root path;
  - the render / receive / update loop, `RunMain`;
  - the cascade of follow-up messages, `RunCascade`.
- **`inspector.dfy`, module `Inspector`**: `NixInspector::v_repr` of worker/inspector.cc. It gives the JSON payload of each kind of Nix value.

Two variants share a tag: Thunk and Int are both renamed "1". The decoder therefore takes a `TagOneReading`:

- `AsThunk`: the first match arm wins, as the derived code matches it.
- `AsInt`: tag "1" is read as Int.
- `ByPayload`: a missing or null payload means Thunk, and an integer means Int.

Every property is proved for all three readings. `TagOneAmbiguity` shows what each reading does to the two variants.

The outside world enters the model as parameters:

- **Worker loop.**
  - The requests the channel delivers before it closes are a sequence of paths.
  - What the pipes and the result channel do in each round is an `Exchange`. It says whether the request line was written, what reading the response gave, and whether the result could be sent.
- **Main loop.**
  - The messages the mailbox delivers are a sequence.
  - The unseen `update` function is a function parameter. It returns the new model, the paths it requested from the worker, and its result.
  - The bound `fuel` limits the number of updates in one cascade.

## Model

| member | source | states |
|---|---|---|
| Json.LookupMeaning | src/workers.rs:7-8 | A field is `Missing` exactly when no member has that key; `Unique` means one member has it and no two do; `Duplicate` means two distinct members have it |
| Workers.DecodeEncode | src/workers.rs:7-32 | Decoding the derived serialization gives back the value. This holds for every variant, except the tag-"1" variant that the chosen reading rules out. For that variant decoding fails |
| Workers.TagOneAmbiguity | src/workers.rs:10-13 | `AsThunk` cannot read an encoded Int, `AsInt` cannot read an encoded Thunk, and `ByPayload` reads both |
| Workers.DecodeAgrees | src/workers.rs:7-8 | A decoded value came from an object whose "type" field occurs exactly once and is the value's tag, and whose "data" field carries the value's content (or is missing or null for a unit variant). The value is one the reading of tag "1" allows |
| Workers.DecodeComplete | src/workers.rs:7-32 | Conversely, an object whose single "type" field names a variant the reading allows and whose "data" field agrees with it decodes to that value, in any member order and with any other members present. With DecodeAgrees, the decoded value is determined by the tag and payload alone |
| Workers.VariantAgrees | src/workers.rs:9-31 | Every variant the tag table accepts carries the tag it was read under, and a payload of its own shape |
| Workers.NullDataIsNoData | src/workers.rs:10-31 | For the unit variants (Thunk, Null, Function, External), `"data": null` decodes exactly as a missing data field |
| Workers.DecodeTable | src/workers.rs:16-31 | For each tag from "3" to "10", an envelope decodes exactly when its payload has the variant's shape: bool; string; string; null; array of strings; integer in 0..2^64; null; null. It then gives that variant with that payload. An unknown tag fails with `UnknownVariant` |
| Workers.AnswerMeaning | src/workers.rs:70-83 | A round yields value v exactly when its line was read and parsed as a JSON object whose single "type" field is v's tag (a tag the reading of "1" allows for v) and whose "data" field agrees with v. A read error, a line that is not JSON, and any other object yield nothing, and the loop then skips the round |
| Workers.WorkerLoop | src/workers.rs:60-96 | The loop's trace (paths written, results sent, how it ended) is `Serve` of the requests and rounds. The child is killed once, unless a failed result send panicked first |
| Workers.Stop | src/workers.rs:63-92 | The loop stops at the first round whose write fails, or whose decoded value cannot be sent. No earlier round is such a round |
| Workers.ServeMeaning | src/workers.rs:60-96 | Every request before the stopping round is written, and so is the stopping round's request when the send panicked. The results are exactly the values those rounds yield. The loop ends on a closed channel, a failed write or a send panic, each exactly when the stopping round says so |
| Workers.ResultsFollowRequests | src/workers.rs:64-87 | Result m comes from round ks[m] and is paired with the very path written in that round. The ks are strictly increasing, so there is one result per request at most and no reordering. Every decoded round before the stop has its result |
| Workers.FailedRoundIsolated | src/workers.rs:70-83 | A read, parse or decode failure affects only its own round. Had the round been answered, the results would be the same with that one result inserted in its place, and the paths written and the exit would be the same |
| Workers.WriteFailureEndsLoop | src/workers.rs:65-68 | The loop ends on a failed write exactly at the first such round. Only the earlier requests were written, and only the earlier rounds yield results |
| Workers.ClosedChannelEndsLoop | src/workers.rs:89-92 | The loop ends on the closed request channel exactly when no round was fatal. Then every request was written and every decoded value was sent |
| Workers.AllAnsweredInOrder | src/workers.rs:60-88 | When every round writes, decodes and sends, the results are the requests, each with its value, in submission order |
| App.InitialModel | src/main.rs:24-28 | The model starts running, at the path `["nixosConfigurations"]`, with the other fields defaulted |
| App.Relay | src/main.rs:37-47 | The relay turns result k into `Data(path_k, value_k)` at position k, for every result and nothing else, until the result channel closes |
| App.RelayPayloads | src/main.rs:39-46 | The relay loses, duplicates and reorders nothing: the worker results carried by its messages are exactly the results |
| App.MailboxKeepsResultOrder | src/main.rs:34-46 | Other senders interleaved into the mailbox that send no `Data` messages leave the relayed results in their order |
| App.RunCascade | src/main.rs:55-65 | The cascade applies `update` to the received message and to each follow-up message it returns. It stops on `Ok(None)` or `Err`. Its model, requests, update count and end are `Trampoline`'s |
| App.TrampolineCount | src/main.rs:57-65 | A received message gets at least one update, and never more than the bound. The cascade runs out of fuel only after exactly that many updates |
| App.TrampolineChains | src/main.rs:58-61 | After `Ok(Some(m))` the same cascade continues with `m` from the updated model, keeping the requests already made |
| App.TrampolineStops | src/main.rs:60-64 | After `Ok(None)` or an `Err` the cascade ends right away, with the model that update left |
| App.RunMain | src/main.rs:49-66 | main's final model, requests to the worker, renders, messages received and exit are `Main`'s |
| App.MainMeaning | src/main.rs:24-66 | The root is requested first, and a failed root request ends main before anything is rendered. The first render shows the initial model. One message is received per render, with one extra render when the mailbox runs dry. Only running models are rendered. A quit leaves the model stopped |
| App.OuterShape | src/main.rs:51-66 | The loop keeps earlier renders and requests. It receives one message per render. It quits only when stopped. It ends on a dry mailbox only after all messages, with the running model rendered last. It diverges only when the last cascade ran out of fuel |
| App.OuterRendersRunning | src/main.rs:51-53 | The loop condition is checked before every render: no stopped model is ever rendered |
| App.OuterFollows | src/main.rs:53-65 | The render after message j shows the model the cascade of message j left, starting from the model rendered just before it. An update error ends only its cascade, never the loop |
| App.MainFollows | src/main.rs:51-66 | From the initial model on, each message's cascade leads to the next render, and the final model is what the last cascade left |
| App.RootRequestedOnce | src/main.rs:49 | For every `update`, main's requests are the root, once, followed by exactly the paths the loop's cascades request; when the root send fails nothing is requested |
| App.QuietUpdateRequestsOnlyRoot | src/main.rs:49-66 | When `update` requests nothing, the root is the only path main requests |
| App.OuterShift | src/main.rs:51-66 | The loop only appends to the requests already made: its requests are the earlier ones followed by what its own cascades request |
| Inspector.ValueRepr | worker/inspector.cc:88-118 | `v_repr` returns `Payload` of the value. For an attribute set, the loop collects the names one binding at a time |
| Inspector.AttrsPayload | worker/inspector.cc:90-96 | An attribute set is sent as an array with one string per binding, its name, in iteration order |
| Inspector.ListPayload | worker/inspector.cc:98-99 | A list is sent as its element count. Two lists have the same payload exactly when they have the same length |
| Inspector.NullPayload | worker/inspector.cc:111-116 | The payload is `null` exactly for null, thunks, functions and external values |
| Inspector.PayloadFitsDecoder | worker/inspector.cc:88-118 | Wrapped with the tag of its kind, every payload decodes as the derived serialization of the matching front-end value does. It gives that value exactly when the tag-"1" reading allows it |

## Left out

- The child process, its pipes, the kanal channels, the threads, the `RwLock` around the model, and all logging. Channels are sequences, and the per-round pipe and channel outcomes are inputs.
- `BrowserPath::to_expr`. The model records the path whose request line was written, not the text of the line.
- The update and view modules, and the key handler: `update` is a function parameter, and a render is recorded as the model it shows. What the key handler sends is not modelled, beyond the mailbox being an interleaving with no `Data` messages (`App.MailboxKeepsResultOrder`).
- App.OuterFollows, App.MainFollows, App.OuterRendersRunning and App.MainMeaning assume that `update` is the only writer of the model. src/main.rs:35 also hands the model to the key handler, whose code is not part of this model. If the key handler wrote the model between two cascades, a render could show a model that no cascade left, including a stopped one.
- Terminal setup, drawing errors, terminal restore and the panic hook. The `?` on `terminal.draw` is not modelled.
- App.RunCascade: the source's cascade need not end. The model bounds it by `fuel` and reports `Exhausted`, and main then stops with `Diverged`. Behaviour beyond the bound is not modelled.
- App.RunMain: the end of the mailbox stands for `rx.recv()` failing because every sender is gone. Main then returns after one more render.
- App.Relay: a failed `tx.send` is ignored by the source and cannot be observed by main, so every result is delivered. The `v.into()` conversion is taken to be the identity.
- App.InitialModel: the model's fields other than `running_state` and `current_path` are a type parameter holding their defaults.
- Workers.Decode: the JSON text parser is not modelled (a line is either parsed JSON or not JSON). Floating point is not modelled either: a float is an opaque token, and the integer-to-float conversion serde performs for an integer payload under tag "2" is not modelled.
- Workers.Decode: serde's two-element array form of an adjacently tagged enum (`["3", true]`) is not modelled; the model rejects an array as `NotAnObject`. The serde version is not fixed by the source, so the single-key object form of the tag that newer serde releases accept under "type" (`{"3": null}`) is not modelled either; the model rejects a non-string tag with `TagNotAString`.
- Workers.Decode: the errors are classified (not JSON text, not an object, missing field, duplicate field, tag not a string, unknown variant, invalid payload), but not serde's exact messages or which of two errors it reports first.
- Workers.WorkerLoop: a failing `child.kill()` is not modelled. The count of kill calls is returned instead.
- Inspector: the symbol table is not modelled, so a binding carries its name as text. Iteration order is the order of the binding sequence.
- Inspector: the evaluator-facing members `inspect`, `v_child`, `v_list` and `v_type`, the narrowing accessors `v_int` and `v_float`, and the constructor are not modelled. Neither is the commented-out code.
- Inspector.PayloadFitsDecoder: the envelope and tag the child writes around the payload are not in worker/inspector.cc. The lemma therefore assumes the tag of the value's kind, and it is not a statement about the child's output. List lengths are assumed below 2^64, the range of `size_t`.

# tchannel_rs: a verified model of the message pipeline

TChannel multiplexes requests and responses over one connection. This project models, in Dafny, how
tchannel_rs carries a message through that connection, and proves what the composition of its layers does:

1. a message's arguments are cut into frames under a byte budget (`Fragmentation.dfy`),
2. the frames' payloads are encoded (`Payloads.dfy` gives the bytes, `PayloadCodec.dfy` the code that appends to
   and consumes buffers, `ArgSchemes.dfy` the headers of a call),
3. the frames become a byte stream that arrives in arbitrary chunks (`Frames.dfy`),
4. the receiver routes frames to one channel per message id (`Connection.dfy`), with bounded concurrency on the
   server (`Server.dfy`),
5. a reader per message rebuilds the arguments (`Defragmentation.dfy`) and the message (`Messages.dfy`).

`Reassembly.dfy` and `Acceptance.dfy` state what cutting and rebuilding do to the arguments, `Delivery.dfy` takes one
message through the payload bytes, and `EndToEnd.dfy` composes everything. `WireFormat.dfy` writes the
payload formats out position by position, `Utf8.dfy` ties the string check to the encoding of text, and `Basics.dfy`
holds integers, buffers and results. Parts of the program that update state in place are classes and methods, each
proved against a function; the properties are then proved of those functions.

## Main results

* **Exact reassembly** (`Reassembly.ReassemblyLaw`). For all arguments and budgets, what the receiver rebuilds equals
  a reference that never looks at frames: it walks the argument lengths with modular arithmetic, inserts an empty
  argument after each argument that ends exactly at a frame's end, and glues each argument that found fewer than two
  bytes left to its predecessor. No byte is ever lost or moved (`ByteConservation`).
* **The plain round trip is false of the code**; it holds if and only if neither event occurs
  (`RoundTripIff`, `EndToEnd.DeliveredUnchangedIff`). Concrete requests that fail are `ExactFillExample` and
  `StarvedExample`. Raw messages tolerate a little more, again exactly (`RawRequestIff`).
* **Acceptance** (`Acceptance.RequestAcceptedIff`). Fragmenting fails exactly when the service name exceeds 255 bytes,
  there is no argument, or an empty argument is reached with fewer than two bytes left; it never panics.
* **Chunking** (`Frames.ChunkingIndependence`, `StreamRoundTrip`). Any byte stream, well formed or not, decodes alike
  under every cut.
* **Multiplexing** (`ConnectionRuns.NothingLostOrMisrouted`, `TimelyIdsStayDistinct`, `HearsExactlyItsDeliveries`).
  Over every run of a client connection, with id wrap-around, repeated closes and dropped receivers.
* **Server progress** (`ServerRuns.EveryRunAnswersEverything`, `ProgressIff`). With reading paused at the concurrency
  limit, all runs are finite and end with everything answered if and only if every prefix of the stream leaves fewer
  messages partly received than the limit. A limit of one cannot serve any request of two frames
  (`OneHandlerNeedsOneFrame`). In every run at most that limit of handlers is unfinished (`HandlersAreBounded`).
* **End to end** (`EndToEnd.EveryHandlerGetsItsMessage`, `EveryRequestIsAnswered`). Any requests, any interleaving,
  any chunks, any schedule.

## Modelling notes

* A read past the end of a buffer, an arithmetic overflow and an unimplemented branch are `Err(Panic)`. Overflow is
  taken as a panic, as in a build with overflow checks.
* A Rust `String` is a byte sequence that satisfies `IsUtf8`.
* A hash map's iteration order is arbitrary: encoders report the order they happened to use, and theorems hold for
  every order.
* The fields of requests and responses share one datatype, so theorems about `Fields` cover both kinds of call.
* An `await` on a full channel is a step that is not enabled until there is room. A dispatch that waits this way keeps
  the lock on the map of senders, which holds back deregistration, and the model includes that.
* The comment at src/defragmentation.rs:232 says that a leading empty slot marks the end of the previous argument; the
  code starts a new empty argument there, and the model follows the code.
* A channel that closes inside a message makes the reader report success with the arguments so far
  (`Delivery.ClosedEarlyLooksComplete`); the model follows the code here too.
* A limit of 0 handlers means no limit, as it does for `try_for_each_concurrent`.

## Model

| member | source | states |
|---|---|---|
| Reassembly.ReassemblyLaw | src/fragmentation.rs:191-236 | for all arguments and budgets, adding the cut frames to an empty defragmenter yields exactly the length-arithmetic reference: an empty argument after each one that fills a frame, each starved one glued to its predecessor |
| Reassembly.ByteConservation | src/defragmentation.rs:212-253 | the reassembled arguments concatenate to the same bytes as the originals, boundary cases included |
| Reassembly.RoundTripIff | src/defragmentation.rs:212-246 | reassembly is the identity if and only if no argument starves and none fills a frame |
| Reassembly.MidFrame | src/fragmentation.rs:191-214 | reading the rest of a frame and all later frames continues the reference from any point inside a frame |
| Reassembly.FrameStart | src/defragmentation.rs:220-235 | at a frame's start a non-empty slot continues the last argument and an empty one opens a new argument, as the reference says |
| Reassembly.LandsAfterCut | src/fragmentation.rs:225-234 | a cut argument ends where its second part does when that part opens a frame, so a remainder decides where any argument ends |
| Fragmentation.TakeFrameShrinks | src/fragmentation.rs:191-214 | although leftovers and markers are pushed back, queued bytes plus queued arguments never grow, and strictly shrink for a budget of at least 3 |
| Fragmentation.ArgsFragmenter.NextFrameArgsVec | src/fragmentation.rs:191-214 | the loop over the deque takes exactly one frame's slots and leaves exactly the specified queue |
| Fragmentation.ArgsFragmenter.NextArgFragment | src/fragmentation.rs:216-236 | the fragment cut, what the argument keeps, and which of the three statuses is returned |
| Fragmentation.Fragmenter.CreateFrames | src/fragmentation.rs:108-137 | the loop over frames returns the specified frames or the first error, for the header order it used; the first frame is a call request or response by kind and all others are its continuations |
| Fragmentation.Fragmenter.NextFrameArgs | src/fragmentation.rs:139-153 | the checksum's byte is taken off the limit before the arguments are cut |
| Fragmentation.Fragmenter.CurrentFrameFlag | src/fragmentation.rs:155-161 | more fragments follow exactly when something is queued |
| Acceptance.AcceptanceCondition | src/frames/payloads.rs:561-582 | one to three arguments are refused exactly when an empty argument is reached with fewer than two bytes of room |
| Acceptance.RequestAcceptedIff | src/fragmentation.rs:63-79 | an outgoing request is accepted exactly under a condition on its lengths, and cutting it never panics |
| Acceptance.ResponseAcceptedIff | src/fragmentation.rs:34-45 | the same for an outgoing response |
| Acceptance.NoArgumentsRefused | src/frames/payloads.rs:562-568 | a message without arguments is always refused |
| Acceptance.FramesAreFull | src/fragmentation.rs:114-134 | every frame is at most 65534 bytes, all but the last within one byte of that, and the more-fragments flag is set on exactly those before the last |
| Acceptance.RequestFrameTypes | src/fragmentation.rs:63-67 | a request is one call request frame and then call request continuations |
| Acceptance.ResponseFrameTypes | src/fragmentation.rs:34-38 | a response is one call response frame and then call response continuations |
| Acceptance.FrameCount | src/fragmentation.rs:124-134 | at most 2 + total argument bytes / 65509 frames |
| Acceptance.SlotCount | src/fragmentation.rs:191-214 | a frame has at most as many slots as queued arguments and at least one when a length field fits |
| Acceptance.FrameIsFull | src/fragmentation.rs:223-234 | a fitting frame that leaves something queued is full to within one byte |
| Acceptance.CreateFramesFailure | src/fragmentation.rs:249-252 | the limit arithmetic panics exactly for more than 65517 bytes of fields |
| ArgSchemes.OutgoingRequestIsSmall | src/frames/payloads.rs:228-235 | request fields fail to encode exactly for service names over 255 bytes and otherwise have a known length of at most 556 |
| ArgSchemes.OutgoingResponseIsSmall | src/frames/payloads.rs:315-321 | response fields likewise, at most 297 |
| ArgSchemes.SchemeRoundTrip | src/frames/headers.rs:32-47 | every non-custom scheme parses back from its name |
| ArgSchemes.SchemeRefusedIff | src/defragmentation.rs:142-162 | the scheme check fails exactly for a missing "as" header, an unknown name, or another scheme than the expected one |
| ArgSchemes.SchemeNamesAsText | src/frames/headers.rs:32-47 | the five scheme names as text |
| ArgSchemes.OutgoingCalls | src/fragmentation.rs:69-79 | time to live 60000, zero tracing, and exactly the headers "as" and "cn" with scheme and service |
| Defragmentation.ArgsDefragmenter.Add | src/defragmentation.rs:212-218 | the argument list becomes the specified one for the frame's slots |
| Defragmentation.ArgsDefragmenter.AddFirstArg | src/defragmentation.rs:220-235 | a first fragment is appended to the last argument or starts the list, an empty slot adds an empty argument |
| Defragmentation.ArgsDefragmenter.AddRemainingArgs | src/defragmentation.rs:237-246 | every further slot becomes an argument of its own, in order |
| Defragmentation.ArgsDefragmenter.Args | src/defragmentation.rs:248-253 | the arguments are handed over and emptied in place |
| Defragmentation.Defragmenter.ReadAndCheck | src/defragmentation.rs:90-108 | result and remaining queue are those of the reader run over the queued frames |
| Defragmentation.Defragmenter.ReadBeginning | src/defragmentation.rs:110-134 | the first frame's type, decoding and checksum decide the outcome; its slots are added |
| Defragmentation.Defragmenter.ReadContinuation | src/defragmentation.rs:164-197 | the loop stops at the last fragment, at an error or at a closed channel, with the specified arguments and queue |
| Delivery.MessageArrives | src/defragmentation.rs:90-108 | for every accepted call and header order the reader ends with the sender's fields and scheme and the arguments of the reassembly law |
| Delivery.ReaderStopsAtItsMessage | src/defragmentation.rs:169-179 | with any frames queued behind, a reader takes exactly its message's frames |
| Delivery.MessageIsReported | src/defragmentation.rs:96-107 | the caller of the reader gets the sender's fields, scheme and the arguments of the reassembly law, whatever is queued behind |
| Delivery.MessagePrefix | src/defragmentation.rs:164-179 | after any positive number of its frames the reader holds the fields, the scheme and what those frames carried |
| Delivery.WrongTypeFails | src/defragmentation.rs:119-130 | a first frame of another type than the call's fails the reader, and so does anything but a continuation inside a message; both kinds of continuation are read alike |
| Delivery.InterruptedMessageFails | src/defragmentation.rs:180-195 | a frame of another type inside a message fails the message and leaves later frames queued |
| Delivery.ConsumesExactly | src/defragmentation.rs:164-197 | no strict prefix of such frames satisfies or breaks the reader |
| Delivery.ClosedEarlyLooksComplete | src/defragmentation.rs:164-197 | a channel closed after n frames of a message gives the caller an error for n = 0 and otherwise success with the sender's fields and scheme and what those frames carried |
| Delivery.FramesAreEncodable | src/frames/mod.rs:84-89 | every frame of an accepted message keeps the length addition of the frame encoder exact |
| Frames.Encode | src/frames/mod.rs:84-98 | the appended bytes are, position by position, length, literal type code, zero, big-endian id, eight zeros and payload; it fails exactly when the cast length plus 16 overflows |
| Frames.FrameLayout | src/frames/mod.rs:12-50 | the specified wire form has that layout, every type with its protocol code, and its length field is the frame's length exactly for payloads of at most 65519 bytes |
| Frames.Decode | src/frames/mod.rs:105-132 | result and remaining buffer of one decoder call; needing more consumes nothing and no read passes the end |
| Frames.ReadChunk | src/frames/mod.rs:101-151 | decoding in a loop after a chunk yields the specified frames, leftover and verdict |
| Frames.FrameRoundTrip | src/frames/mod.rs:81-133 | decoding an encoded frame gives it back and leaves the following bytes |
| Frames.DecodeFrameExtends | src/frames/mod.rs:105-150 | later bytes never change a decision the decoder has made |
| Frames.DecoderVerdict | src/frames/mod.rs:105-150 | the decoder waits exactly while announced bytes are missing, and rejects exactly lengths under 16 and type codes outside the eleven |
| Frames.ChunkingIndependence | src/frames/mod.rs:101-151 | two cuts of the same bytes, valid or not, give the same frames, verdict and leftover |
| Frames.StreamRoundTrip | src/frames/mod.rs:81-151 | any cut of an encoded frame list gives exactly those frames and no leftover |
| PayloadLaws.HeadersRoundTrip | src/frames/payloads.rs:500-535 | every enumeration order of a header map decodes to the same map and leaves the following bytes |
| PayloadLaws.TracingRoundTrip | src/frames/payloads.rs:94-111 | tracing survives and the following bytes are untouched |
| PayloadLaws.FieldsRoundTrip | src/frames/payloads.rs:228-245 | request and response fields survive and the following bytes are untouched |
| PayloadLaws.ChecksumRoundTrip | src/frames/payloads.rs:537-555 | checksum type and value survive for every type |
| PayloadLaws.ArgsRoundTrip | src/frames/payloads.rs:561-609 | a successful encoding truncated no length and decodes to the arguments with empty ones normalised |
| PayloadLaws.ArgsReencode | src/frames/payloads.rs:584-609 | whatever decodes within the frame limit re-encodes to the same bytes |
| PayloadLaws.CallRoundTrip | src/frames/payloads.rs:271-286 | calls of both kinds survive encoding under every header order |
| PayloadLaws.ContinueRoundTrip | src/frames/payloads.rs:398-411 | continuations survive encoding |
| PayloadLaws.PreEncodedRefinesCall | src/frames/payloads.rs:184-190 | the first frame built from encoded fields equals the encoding of the whole call, failures included |
| WireFormat.NumbersAreSpelled | src/frames/payloads.rs:94-111 | 16, 32 and 64-bit numbers are written in network order |
| WireFormat.TracingLayout | src/frames/payloads.rs:94-101 | span, parent and trace id and a byte of flags at their positions |
| WireFormat.PairsLayout | src/frames/payloads.rs:507-511 | key and value, each behind a byte of length, for each header in order; refused exactly when one is longer than 255 bytes |
| WireFormat.RequestLayout | src/frames/payloads.rs:228-235 | every field of a request at its position |
| WireFormat.ResponseLayout | src/frames/payloads.rs:315-321 | every field of a response at its position |
| WireFormat.FieldsVerdict | src/frames/payloads.rs:500-512 | fields are written exactly when service, header keys, values and count each fit a byte |
| WireFormat.ArgsLayout | src/frames/payloads.rs:561-582 | written exactly when one to three arguments fit 65518 bytes, each as two bytes of length and its bytes |
| WireFormat.ChecksumLayout | src/frames/payloads.rs:537-547 | the code of each checksum type, its value, and the length the fragmenter reckons with |
| WireFormat.FirstFrameLayout | src/frames/payloads.rs:184-190 | flags, fields, a zero for no checksum, arguments |
| WireFormat.ContinuationLayout | src/frames/payloads.rs:398-403 | flags, a zero for no checksum, arguments |
| WireFormat.BytesRefused | src/frames/payloads.rs:549-559 | flag, trace flag, response code and checksum bytes out of range are errors, and an empty payload panics |
| WireFormat.StringVerdict | src/frames/payloads.rs:636-643 | a string is read exactly when its bytes are there and valid, with the error of each failure |
| WireFormat.ArgsVerdict | src/frames/payloads.rs:584-609 | bytes decode exactly when one to three arguments are written as them, and otherwise fail without a panic |
| Utf8.ValidIff | src/frames/payloads.rs:641-642 | the UTF-8 check holds exactly for encodings of sequences of Unicode scalar values |
| PayloadCodec.PutPairs | src/frames/payloads.rs:507-511 | the loop over the map appends its pairs in the order it took, or fails like that order |
| PayloadCodec.PutSmallHeaders | src/frames/payloads.rs:496-512 | the header count and pairs are appended |
| PayloadCodec.PutFields | src/frames/payloads.rs:228-235 | the fields are appended in protocol order |
| PayloadCodec.PutArgs | src/frames/payloads.rs:561-582 | the loop appends every slot; slot count and total length are checked |
| PayloadCodec.PutCallArgs | src/frames/payloads.rs:154-159 | checksum and arguments are appended |
| PayloadCodec.EncodeWithFieldsBytes | src/frames/payloads.rs:184-190 | a fresh buffer receives flags, encoded fields and arguments |
| PayloadCodec.EncodeCallBytes | src/frames/payloads.rs:271-277 | a fresh buffer receives flags, fields and arguments, under some enumeration of the header map |
| PayloadCodec.EncodeContinueBytes | src/frames/payloads.rs:398-403 | a fresh buffer receives flags and arguments |
| PayloadCodec.TakeSmallHeaders | src/frames/payloads.rs:522-535 | the loop fills the map as specified, later keys overwriting |
| PayloadCodec.TakeArg | src/frames/payloads.rs:598-609 | one length-prefixed argument is consumed or the right error is returned |
| PayloadCodec.TakeArgs | src/frames/payloads.rs:584-596 | the loop consumes everything as at most three arguments or fails |
| PayloadCodec.TakeFields | src/frames/payloads.rs:237-244 | the fields are consumed in protocol order |
| PayloadCodec.DecodeCallBytes | src/frames/payloads.rs:279-285 | the call decoder on a buffer |
| PayloadCodec.DecodeContinueBytes | src/frames/payloads.rs:405-410 | the continuation decoder on a buffer |
| Connection.FramesDispatcher.Register | src/connection/mod.rs:76-83 | a duplicate is reported after it has replaced the registered sender |
| Connection.FramesDispatcher.Deregister | src/connection/mod.rs:71-74 | the id leaves the map and nothing else changes |
| Connection.FramesDispatcher.Dispatch | src/connection/mod.rs:60-69 | a frame goes to its registered channel or opens a new one |
| Connection.FramesDispatcher.DispatchFirst | src/connection/mod.rs:85-97 | a new channel holding the frame is registered, unless the id is taken |
| Connection.FramesDispatcher.DispatchFollowing | src/connection/mod.rs:99-107 | a frame goes to its registered channel or is refused |
| Connection.ClientConnection.NewFramesIo | src/connection/mod.rs:150-161 | the counter moves to the next 32-bit number, from 0xFFFFFFFF to 0; the old one is registered, and on a duplicate the receiver is dropped |
| ConnectionRuns.NothingLostOrMisrouted | src/connection/mod.rs:60-107 | in every run a channel's taken and queued frames are exactly the projection onto its id of what arrived while it listened |
| ConnectionRuns.TimelyIdsStayDistinct | src/connection/mod.rs:150-161 | when fewer than 2^32 ids are issued between issue and close, a channel stops listening only when it is itself closed or dropped |
| ConnectionRuns.RegisterNeverReportsADuplicate | src/connection/mod.rs:76-83 | in such runs no registration finds its id taken |
| ConnectionRuns.CloseTouchesOnlyItsOwn | src/connection/mod.rs:43-45 | a close, first or repeated, disturbs no other message if and only if its id is not registered for a later one |
| ConnectionRuns.HearsExactlyItsDeliveries | src/connection/mod.rs:99-107 | in terms of events alone: a message neither closed nor dropped has exactly the frames delivered under its id since it was opened |
| ConnectionRuns.StateRecordsEvents | src/connection/mod.rs:60-107 | log, number of channels and number of frames taken are those of the events |
| ConnectionRuns.IssuedIds | src/connection/mod.rs:159-161 | the k-th id issued is k modulo 2^32 |
| ConnectionRuns.SameIdIff | src/connection/mod.rs:159-161 | two messages share an id exactly when a multiple of 2^32 ids lies between them |
| ConnectionRuns.QueuesAreBounded | src/connection/mod.rs:150-157 | no channel ever holds more than its capacity |
| ServerRuns.StepKeepsInv | src/server.rs:77-96 | every read, route, receive, deregister and answer step keeps one channel per id holding that id's frames, and never breaks the connection |
| ServerRuns.NeverStuck | src/server.rs:77-96 | while anything is left to read or answer some step is possible, the held lock included |
| ServerRuns.StepDecreases | src/server.rs:159-207 | every step leaves less to do |
| ServerRuns.EveryRunAnswersEverything | src/server.rs:77-96 | under the progress condition runs are finite and stop only when every request is read whole and answered |
| ServerRuns.ProgressIff | src/server.rs:77-81 | some run answers everything if and only if every prefix leaves fewer messages partly received than the limit |
| ServerRuns.OneHandlerNeedsOneFrame | src/server.rs:80-81 | with a limit of one, that condition holds exactly when every request is a single frame |
| ServerRuns.DoneMeansAnswered | src/server.rs:166-171 | when all is done each message has exactly one handler, which answered from the whole message |
| ServerRuns.HandlersAreBounded | src/server.rs:77-81 | at no point of any run are more than the limit of handlers unfinished |
| ServerRuns.QueuesAreBounded | src/connection/mod.rs:93-95 | at no point of any run does a server channel exceed its capacity |
| ServerRuns.WaitingFrameKeepsItsTarget | src/connection/mod.rs:60-69 | until a waiting frame is routed, the registration of its id does not change |
| ServerRuns.ErrorsEndTheConnection | src/server.rs:77-81 | an unreadable message, or a frame for a handler past reading, leaves no further step possible |
| Messages.TryFrom | src/messages/raw.rs:45-58 | it succeeds exactly for scheme raw and UTF-8 in the first two arguments, missing ones counting as empty, with the first three arguments as the fields; every failure is a codec error |
| Messages.BytesToString | src/messages/raw.rs:79-84 | a missing argument is the empty string and invalid UTF-8 is an error |
| Messages.RawMessageSurvivesIff | src/messages/raw.rs:42-69 | a raw message survives if and only if no argument starves and all arguments after one that fills a frame are empty |
| EndToEnd.WireArrives | src/frames/mod.rs:81-150 | any interleaving of accepted requests is encodable and any cut of its bytes decodes to it |
| EndToEnd.EveryHandlerGetsItsMessage | src/server.rs:85-96 | at every point of every run a handler past reading holds exactly what its own request's frames carry |
| EndToEnd.EveryRequestIsAnswered | src/server.rs:62-83 | under the progress condition every run ends with every request answered from its own frames |
| EndToEnd.DeliveredUnchangedIff | src/fragmentation.rs:191-236 | a request is delivered unchanged if and only if its lengths avoid both boundary events |
| EndToEnd.RawRequestIff | src/messages/raw.rs:42-69 | a raw request turns back into the sender's message if and only if its lengths are harmless |
| EndToEnd.ResponseArrives | src/connection/mod.rs:228-235 | in any client run a channel that heard a response's frames gives its reader that response and leaves later frames |
| EndToEnd.ExactFillExample | src/fragmentation.rs:208-210 | a concrete request whose argument arrives with an extra empty one |
| EndToEnd.StarvedExample | src/fragmentation.rs:223-224 | a concrete request whose two arguments arrive as one |
| EndToEnd.LateEmptyExample | src/frames/payloads.rs:578-580 | a concrete request that is refused |

## Left out

- TCP, timers, logging and the internals of the codec adapters: only their first-in first-out behaviour is used.
- Connection pools, channel and server start-up, endpoint registration and handler adapters: single-branch plumbing.
- JSON and Thrift messages: they rest on a JSON library or are unimplemented.
- Computing and verifying checksums: unimplemented in the source; other types than none are encoded and decoded but make the reader panic, as there.
- Init, cancel, claim, ping and error frames: no property beyond those of the shared field codecs.
- Custom argument schemes (`ArgSchemeValue::Custom`): it cannot be parsed back and is not part of the scheme type.
- Concurrent insertion between the two lock acquisitions of a dispatch: each connection has one reading loop, so a dispatch is one step here.
- Ids on the server: each id is used by one request per connection; reuse after an answer is not modelled.
- Failing handlers: requests reach a registered service whose handler terminates, and responses are drained; in the source any handler error ends the connection.
- Fragmentation.ArgsFragmenter.NextFrameArgsVec: requires every argument to be shorter than 2^31 bytes, because longer ones do not survive the cast to i32 in the source.
- Fragmentation.Fragmenter.CreateFrames: the same restriction, for the same cast.
- Connection.FramesDispatcher.Dispatch: is entered once its send can complete; waiting for room is a step of the run models.
- Connection.FramesDispatcher.DispatchFollowing: likewise.
- PayloadCodec.PutPairs: a failed encoder is only known to have appended something, because callers discard its buffer.

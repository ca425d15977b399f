/** The layers composed: messages to frames to bytes to chunks and back, on one connection. */
module EndToEnd {
  import opened Basics
  import opened Frames
  import opened Payloads
  import opened ArgSchemes
  import opened Fragmentation
  import opened Defragmentation
  import opened Reassembly
  import opened Acceptance
  import opened Delivery
  import opened Dispatching
  import opened Projection
  import opened Server
  import opened ServerRuns
  import opened Messages
  import ConnectionRuns

  /** A request as its sender has it; `order` is how its header map happens to enumerate. */
  datatype Outgoing = Outgoing(service: Str, scheme: ArgScheme, order: seq<Str>, args: seq<Bytes>)
  {
    function Fields(): Fields { OutgoingRequest(service, scheme) }
  }

  /** The fragmenter accepts the request. */
  ghost predicate Sendable(o: Outgoing) {
    Enumerates(o.order, o.Fields().headers) && Fragment(o.Fields(), o.order, o.args).Ok?
  }

  function FramesOf(id: uint32, o: Outgoing): seq<TFrameId>
    requires Sendable(o)
  {
    Tag(id, Fragment(o.Fields(), o.order, o.args).value)
  }

  /** The frames of all requests, each under its own id, in any interleaving. */
  ghost predicate Carries(wire: seq<TFrameId>, requests: map<uint32, Outgoing>) {
    && (forall id :: id in requests ==> Sendable(requests[id]))
    && (forall i :: 0 <= i < |wire| ==> wire[i].id in requests)
    && forall id :: id in requests ==> Project(wire, id) == FramesOf(id, requests[id])
  }

  function FramesById(requests: map<uint32, Outgoing>): map<uint32, seq<TFrameId>>
    requires forall id :: id in requests ==> Sendable(requests[id])
  {
    map id | id in requests :: FramesOf(id, requests[id])
  }

  /** What the handler of a request is given. */
  function Delivered(o: Outgoing): Result<(Fields, MessageArgs)>
    requires Sendable(o)
  {
    Ok((o.Fields(), MessageArgs(o.scheme, Arrived(o.Fields(), o.order, o.args))))
  }

  lemma SchemeIsSent(o: Outgoing)
    ensures CheckScheme(o.Fields().headers, None) == Ok(o.scheme)
  {
    SchemeRoundTrip(o.scheme);
  }

  lemma RequestReadsThrough(id: uint32, o: Outgoing)
    requires Sendable(o)
    ensures ReadsThrough(Request, None, Start, FramesOf(id, o))
    ensures ReaderOf(FramesOf(id, o)).Finished? && Outcome(ReaderOf(FramesOf(id, o))) == Delivered(o)
    ensures forall i :: 0 <= i < |FramesOf(id, o)| ==> Encodable(FramesOf(id, o)[i])
  {
    hide CheckScheme, ReadsThrough, ReadAll, Fragment;
    SchemeIsSent(o);
    MessageArrives(o.Fields(), o.order, o.args, None, o.scheme, id);
    FramesAreEncodable(o.Fields(), o.order, o.args, id);
  }

  lemma CarriesInterleaves(wire: seq<TFrameId>, requests: map<uint32, Outgoing>)
    requires Carries(wire, requests)
    ensures Interleaves(wire, FramesById(requests))
    ensures forall i :: 0 <= i < |wire| ==> Encodable(wire[i])
  {
    hide Sendable, FramesOf, ReadsThrough;
    forall id | id in requests
      ensures ReadsThrough(Request, None, Start, FramesOf(id, requests[id]))
      ensures forall i :: 0 <= i < |FramesOf(id, requests[id])| ==> Encodable(FramesOf(id, requests[id])[i])
    {
      RequestReadsThrough(id, requests[id]);
    }
    forall i | 0 <= i < |wire| ensures Encodable(wire[i]) {
      ProjectHas(wire, i);
    }
  }

  lemma {:induction false} ProjectHas(frames: seq<TFrameId>, i: nat)
    requires i < |frames|
    ensures frames[i] in Project(frames, frames[i].id)
    decreases |frames|
  {
    var n := |frames| - 1;
    if i < n {
      ProjectHas(frames[..n], i);
    }
  }

  /** Bytes in, frames out: whatever interleaving is sent and however the network cuts it, the
      server's decoder produces exactly the frames that were sent. */
  lemma WireArrives(wire: seq<TFrameId>, requests: map<uint32, Outgoing>, chunks: seq<Bytes>)
    requires Carries(wire, requests)
    ensures EncodeAll(wire).Ok?
    ensures Flatten(chunks) == EncodeAll(wire).value ==> Feed(EMPTY_STREAM, chunks) == Stream(wire, [], false)
  {
    hide Carries, EncodeAll, Feed;
    CarriesInterleaves(wire, requests);
    StreamRoundTrip(wire, chunks);
  }

  /** End to end, safety: at every point of every run on the received bytes, no handler has
      failed, and one that is past reading holds exactly what its own request's frames carry,
      as if nothing else had been on the connection. */
  lemma EveryHandlerGetsItsMessage(wire: seq<TFrameId>, requests: map<uint32, Outgoing>, chunks: seq<Bytes>,
                                   actions: seq<Action>, cfg: Config, k: nat)
    requires Carries(wire, requests)
    requires EncodeAll(wire).Ok? && Flatten(chunks) == EncodeAll(wire).value
    requires Possible(Feed(EMPTY_STREAM, chunks).frames, actions, cfg)
    requires k < |After(Feed(EMPTY_STREAM, chunks).frames, actions, cfg).d.channels|
    ensures var s := After(Feed(EMPTY_STREAM, chunks).frames, actions, cfg);
            && !s.broken && k < |s.phases|
            && s.d.channels[k].id in requests
            && (s.phases[k] != Reading ==>
                  && ReaderOf(s.d.channels[k].taken).Finished?
                  && Outcome(ReaderOf(s.d.channels[k].taken)) == Delivered(requests[s.d.channels[k].id]))
  {
    hide Feed, EncodeAll, Interleaves, ReaderOf, Sendable, FramesOf;
    WireArrives(wire, requests, chunks);
    CarriesInterleaves(wire, requests);
    RunKeepsInv(wire, FramesById(requests), actions, cfg);
    var s := After(wire, actions, cfg);
    assert HandlerInv(s, FramesById(requests), k);
    RequestReadsThrough(s.d.channels[k].id, requests[s.d.channels[k].id]);
  }

  /** End to end, liveness: under the progress condition every run is finite, and where it can
      go no further every request has been answered from what its own frames carry. */
  lemma EveryRequestIsAnswered(wire: seq<TFrameId>, requests: map<uint32, Outgoing>, chunks: seq<Bytes>,
                               actions: seq<Action>, cfg: Config)
    requires Carries(wire, requests) && FewPartial(wire, FramesById(requests), cfg) && cfg.capacity > 0
    requires EncodeAll(wire).Ok? && Flatten(chunks) == EncodeAll(wire).value
    requires Possible(Feed(EMPTY_STREAM, chunks).frames, actions, cfg)
    requires forall a :: !Enabled(After(Feed(EMPTY_STREAM, chunks).frames, actions, cfg), a, cfg)
    ensures |actions| <= 10 * |wire|
    ensures var s := After(Feed(EMPTY_STREAM, chunks).frames, actions, cfg);
            && |s.phases| == |s.d.channels|
            && forall id :: id in requests ==>
                 exists k :: 0 <= k < |s.d.channels| && s.d.channels[k].id == id && s.phases[k] == Answered
                             && Outcome(ReaderOf(s.d.channels[k].taken)) == Delivered(requests[id])
  {
    hide Feed, EncodeAll, Interleaves, ReaderOf, Sendable, FramesOf, Enabled, FewPartial;
    WireArrives(wire, requests, chunks);
    CarriesInterleaves(wire, requests);
    var messages := FramesById(requests);
    EveryRunAnswersEverything(wire, messages, actions, cfg);
    RunKeepsInv(wire, messages, actions, cfg);
    var s := After(wire, actions, cfg);
    forall id | id in requests
      ensures exists k :: 0 <= k < |s.d.channels| && s.d.channels[k].id == id && s.phases[k] == Answered
                          && Outcome(ReaderOf(s.d.channels[k].taken)) == Delivered(requests[id])
    {
      assert id in messages;
      var k :| 0 <= k < |s.d.channels| && s.d.channels[k].id == id;
      assert AnsweredWhole(s, k, messages);
      RequestReadsThrough(id, requests[id]);
    }
  }

  /** A request is delivered unchanged exactly when none of its arguments starves and none
      fills a frame. */
  lemma DeliveredUnchangedIff(o: Outgoing)
    requires Sendable(o) && |o.args| <= MAX_FRAME_ARGS
    ensures Delivered(o) == Ok((o.Fields(), MessageArgs(o.scheme, o.args)))
       <==> Undisturbed(o.args, FirstBudget(RequestFieldsLength(o.service, o.scheme)), FRAME_BUDGET)
  {
    hide EncodeFields, Undisturbed, Arrives;
    OutgoingRequestIsSmall(o.service, o.scheme, o.order);
    ArrivesUnchanged([], o.args, FirstBudget(|EncodeFields(o.Fields(), o.order).value|), FRAME_BUDGET);
    assert [] + o.args == o.args;
  }

  /** A raw request turns back into the sender's message exactly when no argument starves and
      all those behind one that fills a frame are empty. */
  lemma RawRequestIff(o: Outgoing, m: RawMessage)
    requires Sendable(o) && o.scheme == Raw && o.args == ToArgs(m).args
    ensures FromArgs(Delivered(o).value.1) == Ok(m)
       <==> Harmless(o.args, FirstBudget(RequestFieldsLength(o.service, o.scheme)), FRAME_BUDGET)
  {
    hide EncodeFields, Harmless, Arrives, FromArgs, AddFrames, MessageSlots;
    var first := FirstBudget(|EncodeFields(o.Fields(), o.order).value|);
    OutgoingRequestIsSmall(o.service, o.scheme, o.order);
    RawMessageSurvivesIff(m, first, FRAME_BUDGET);
    ReassemblyLaw(o.args, first, FRAME_BUDGET);
  }

  /** The client's side: in any run, a channel that has heard the frames of a response, whatever
      came behind them, gives its reader that response and leaves the rest alone. */
  lemma ResponseArrives(events: seq<ConnectionRuns.Event>, capacity: nat, k: nat,
                        f: Fields, order: seq<Str>, args: seq<Bytes>, expected: Option<ArgScheme>,
                        scheme: ArgScheme, behind: seq<TFrameId>)
    requires ConnectionRuns.Possible(events, capacity)
    requires f.ResponseFields? && Enumerates(order, f.headers) && Fragment(f, order, args).Ok?
    requires CheckScheme(f.headers, expected) == Ok(scheme)
    requires var s := ConnectionRuns.After(events, capacity);
             && k < |s.d.channels| == |s.windows|
             && Project(ConnectionRuns.Heard(s, k), s.d.channels[k].id)
                == Tag(s.d.channels[k].id, Fragment(f, order, args).value) + behind
    ensures var (reader, rest) :=
              ReadFrom(Response, expected, Start, ConnectionRuns.After(events, capacity).d.channels[k].Contents());
            && Outcome(reader) == Ok((f, MessageArgs(scheme, Arrived(f, order, args))))
            && rest == behind
  {
    hide Fragment, CheckScheme, ReadFrom;
    ConnectionRuns.NothingLostOrMisrouted(events, capacity, k);
    var c := ConnectionRuns.After(events, capacity).d.channels[k];
    MessageIsReported(f, order, args, expected, scheme, c.id, behind);
  }

  // The boundary cases, on the smallest of service names. Its first frame has 65474 bytes for
  // arguments and their length fields.

  const EMPTY_NAME: Str := []

  function Filler(n: nat): Bytes { seq(n, _ => 0) }

  /** An argument that fills its frame arrives with an empty argument behind it. */
  lemma ExactFillExample(order: seq<Str>)
    requires Enumerates(order, CallHeaders(EMPTY_NAME, Raw))
    ensures var o := Outgoing(EMPTY_NAME, Raw, order, [Filler(65472)]);
            Sendable(o) && Delivered(o).value.1.args == [Filler(65472), []]
  {
    var o := Outgoing(EMPTY_NAME, Raw, order, [Filler(65472)]);
    RequestAcceptedIff(EMPTY_NAME, Raw, order, o.args);
    OutgoingRequestIsSmall(EMPTY_NAME, Raw, order);
    hide EncodeFields, Fragment, SchemeName;
    assert o.args[1..] == [];
    assert Place([], Filler(65472), 65474, FRAME_BUDGET) == [Filler(65472), []];
  }

  /** An argument reached with one byte left arrives as the end of the one before it. */
  lemma StarvedExample(order: seq<Str>)
    requires Enumerates(order, CallHeaders(EMPTY_NAME, Raw))
    ensures var o := Outgoing(EMPTY_NAME, Raw, order, [Filler(65471), [7]]);
            Sendable(o) && Delivered(o).value.1.args == [Filler(65471) + [7]]
  {
    var o := Outgoing(EMPTY_NAME, Raw, order, [Filler(65471), [7]]);
    RequestAcceptedIff(EMPTY_NAME, Raw, order, o.args);
    OutgoingRequestIsSmall(EMPTY_NAME, Raw, order);
    hide EncodeFields, Fragment, SchemeName, Arrives, NoOverrun;
    TwoArgumentsArrive(Filler(65471), [7], 65474);
    TwoArgumentsFit(Filler(65471), [7], 65474);
    assert Place([], Filler(65471), 65474, FRAME_BUDGET) == [Filler(65471)];
    assert Place([Filler(65471)], [7], 1, FRAME_BUDGET) == [Filler(65471) + [7]];
  }

  lemma TwoArgumentsArrive(a: Bytes, b: Bytes, room: int)
    ensures Arrives([], [a, b], room, FRAME_BUDGET)
         == Place(Place([], a, room, FRAME_BUDGET), b, RoomAfter(|a|, room, FRAME_BUDGET), FRAME_BUDGET)
  {
    hide Place, RoomAfter;
    assert [a, b][1..] == [b] && [b][1..] == [];
    var p, r := Place([], a, room, FRAME_BUDGET), RoomAfter(|a|, room, FRAME_BUDGET);
    assert Arrives(p, [b], r, FRAME_BUDGET) == Place(p, b, r, FRAME_BUDGET);
  }

  lemma TwoArgumentsFit(a: Bytes, b: Bytes, room: int)
    ensures NoOverrun([a, b], room, FRAME_BUDGET)
       <==> !Overruns(|a|, room) && !Overruns(|b|, RoomAfter(|a|, room, FRAME_BUDGET))
  {
    hide RoomAfter;
    assert [a, b][1..] == [b] && [b][1..] == [];
    var r := RoomAfter(|a|, room, FRAME_BUDGET);
    assert NoOverrun([b], r, FRAME_BUDGET) <==> !Overruns(|b|, r);
  }

  /** An empty argument reached with one byte left makes the fragmenter refuse the request. */
  lemma LateEmptyExample(order: seq<Str>)
    requires Enumerates(order, CallHeaders(EMPTY_NAME, Raw))
    ensures !Sendable(Outgoing(EMPTY_NAME, Raw, order, [Filler(65471), []]))
  {
    var args := [Filler(65471), []];
    RequestAcceptedIff(EMPTY_NAME, Raw, order, args);
    hide Fragment;
    TwoArgumentsFit(Filler(65471), [], 65474);
  }
}

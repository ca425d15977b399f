/** One message from fragmenter to defragmenter, through the payload bytes. */
module Delivery {
  import opened Basics
  import opened Frames
  import opened Payloads
  import opened PayloadLaws
  import opened ArgSchemes
  import opened Fragmentation
  import opened Defragmentation
  import opened Reassembly
  import opened Acceptance

  /** Frames of one message on the wire all carry its id. */
  function Tag(id: uint32, frames: seq<TFrame>): (r: seq<TFrameId>)
    ensures |r| == |frames| && forall i :: 0 <= i < |r| ==> r[i] == TFrameId(id, frames[i])
  {
    seq(|frames|, i requires 0 <= i < |frames| => TFrameId(id, frames[i]))
  }

  /** The reader wants every one of these frames, and is done after the last. */
  predicate ReadsThrough(kind: Kind, expected: Option<ArgScheme>, r: Reader, frames: seq<TFrameId>)
    decreases |frames|
  {
    && frames != []
    && r.Pending()
    && var next := Read(kind, expected, r, frames[0].frame);
       if |frames| == 1 then next.Finished? else ReadsThrough(kind, expected, next, frames[1..])
  }

  lemma ReadsThroughCons(kind: Kind, expected: Option<ArgScheme>, r: Reader, f: TFrameId, rest: seq<TFrameId>)
    requires r.Pending()
    requires var next := Read(kind, expected, r, f.frame);
             if rest == [] then next.Finished? else ReadsThrough(kind, expected, next, rest)
    ensures ReadsThrough(kind, expected, r, [f] + rest)
    ensures ReadAll(kind, expected, r, [f] + rest)
         == ReadAll(kind, expected, Read(kind, expected, r, f.frame), rest)
  {
    assert ([f] + rest)[1..] == rest;
  }

  /** Such frames are consumed exactly, whatever is queued behind them, and no strict prefix
      of them satisfies or breaks the reader. */
  lemma {:induction false} ConsumesExactly(kind: Kind, expected: Option<ArgScheme>, r: Reader,
                                           frames: seq<TFrameId>, queue: seq<TFrameId>)
    requires ReadsThrough(kind, expected, r, frames)
    ensures ReadFrom(kind, expected, r, frames + queue) == (ReadAll(kind, expected, r, frames), queue)
    ensures ReadAll(kind, expected, r, frames).Finished?
    ensures forall n :: 0 <= n < |frames| ==> ReadAll(kind, expected, r, frames[..n]).Pending()
    decreases |frames|
  {
    hide Read;
    var next := Read(kind, expected, r, frames[0].frame);
    assert (frames + queue)[1..] == frames[1..] + queue;
    if |frames| == 1 {
      assert frames[1..] + queue == queue;
    } else {
      ConsumesExactly(kind, expected, next, frames[1..], queue);
    }
    forall n | 0 <= n < |frames| ensures ReadAll(kind, expected, r, frames[..n]).Pending() {
      if n > 0 {
        assert frames[..n][1..] == frames[1..][..n - 1];
      }
    }
  }

  /** The fragmenter never produces `Some(empty)`. */
  lemma {:induction false} SlotsAreNormal(args: seq<Bytes>, limit: int)
    ensures NormalAll(TakeFrame(args, limit).slots) == TakeFrame(args, limit).slots
    decreases |args|
  {
    if args != [] {
      SlotsAreNormal(args[1..], limit - ARG_LEN_LEN - |args[0]|);
      var slots := TakeFrame(args, limit).slots;
      if args[0] == [] || |args[0]| < limit - ARG_LEN_LEN {
        var rest := TakeFrame(args[1..], limit - ARG_LEN_LEN - |args[0]|).slots;
        assert NormalAll([SlotOf(args[0])] + rest) == [SlotOf(args[0])] + NormalAll(rest);
      }
    }
  }

  lemma ReadsContinue(r: Reader, args: seq<Bytes>, frameType: FrameType)
    requires r.Collecting? && args != []
    requires frameType == CallRequestContinue || frameType == CallResponseContinue
    requires ContinueFrames(args, frameType).Ok?
    ensures var t := TakeFrame(args, FRAME_BUDGET);
            var sofar := AddFrame(r.args, t.slots);
            ReadNext(r, ContinueFrames(args, frameType).value[0])
            == if t.rest == [] then Finished(r.fields, r.scheme, sofar) else Collecting(r.fields, r.scheme, sofar)
  {
    hide TakeFrame, EncodeContinue, DecodeContinue, AddFrame;
    var t := TakeFrame(args, FRAME_BUDGET);
    TakeFrameShrinks(args, FRAME_BUDGET);
    ContinueRoundTrip(CallContinue(FlagsFor(t.rest), FrameArgs(t.slots)));
    SlotsAreNormal(args, FRAME_BUDGET);
  }

  lemma AddFramesCons(sofar: seq<Bytes>, frame: seq<Slot>, frames: seq<seq<Slot>>)
    ensures AddFrames(sofar, [frame] + frames) == AddFrames(AddFrame(sofar, frame), frames)
    ensures AddFrames(sofar, []) == sofar
  {
    assert ([frame] + frames)[1..] == frames;
  }

  lemma {:induction false} ContinuationArrives(kind: Kind, expected: Option<ArgScheme>, r: Reader,
                                              args: seq<Bytes>, frameType: FrameType, id: uint32)
    requires r.Collecting? && args != []
    requires frameType == CallRequestContinue || frameType == CallResponseContinue
    requires ContinueFrames(args, frameType).Ok?
    ensures var frames := Tag(id, ContinueFrames(args, frameType).value);
            && ReadsThrough(kind, expected, r, frames)
            && ReadAll(kind, expected, r, frames)
               == Finished(r.fields, r.scheme, AddFrames(r.args, ContinueSlots(args, FRAME_BUDGET)))
    decreases Work(args)
  {
    hide TakeFrame, ContinueSlots, AddFrames, AddFrame, EncodeContinue, ReadNext;
    var t := TakeFrame(args, FRAME_BUDGET);
    TakeFrameShrinks(args, FRAME_BUDGET);
    ReadsContinue(r, args, frameType);
    ContinueSlotsStep(args, FRAME_BUDGET);
    ContinueSlotsEmpty(FRAME_BUDGET);
    AddFramesCons(r.args, t.slots, ContinueSlots(t.rest, FRAME_BUDGET));
    var frames := ContinueFrames(args, frameType).value;
    var next := ReadNext(r, frames[0]);
    var rest := Tag(id, ContinueFrames(t.rest, frameType).value);
    assert Tag(id, frames) == [TFrameId(id, frames[0])] + rest;
    if t.rest == [] {
      AddFramesCons(next.args, [], []);
    } else {
      ContinuationArrives(kind, expected, next, t.rest, frameType, id);
      ContinueFramesFilled(t.rest, frameType);
    }
    ReadsThroughCons(kind, expected, r, TFrameId(id, frames[0]), rest);
  }

  lemma ReadsBeginning(f: Fields, order: seq<Str>, args: seq<Bytes>, expected: Option<ArgScheme>, scheme: ArgScheme)
    requires Enumerates(order, f.headers) && Fragment(f, order, args).Ok?
    requires CheckScheme(f.headers, expected) == Ok(scheme)
    ensures var t := TakeFrame(args, FirstBudget(|EncodeFields(f, order).value|));
            var sofar := AddFrame([], t.slots);
            ReadFirst(KindOf(f), expected, Fragment(f, order, args).value[0])
            == if t.rest == [] then Finished(f, scheme, sofar) else Collecting(f, scheme, sofar)
  {
    hide TakeFrame, EncodeFields, EncodeCall, DecodeCall, EncodeWithFields, AddFrame, CheckScheme, ContinueFrames;
    var limit := FirstBudget(|EncodeFields(f, order).value|);
    var t := TakeFrame(args, limit);
    var call := Call(FlagsFor(t.rest), f, FrameArgs(t.slots));
    PreEncodedRefinesCall(call, order);
    CallRoundTrip(call, order);
    SlotsAreNormal(args, limit);
  }

  /** What an accepted message arrives as. */
  function Arrived(f: Fields, order: seq<Str>, args: seq<Bytes>): seq<Bytes>
    requires Enumerates(order, f.headers) && EncodeFields(f, order).Ok?
  {
    Arrives([], args, FirstBudget(|EncodeFields(f, order).value|), FRAME_BUDGET)
  }

  /** Delivery of one message: for every request or response the fragmenter accepts, under every
      header order, its reader wants exactly its frames and ends with the sender's fields and
      scheme and the arguments of the reassembly law. */
  lemma MessageArrives(f: Fields, order: seq<Str>, args: seq<Bytes>, expected: Option<ArgScheme>,
                       scheme: ArgScheme, id: uint32)
    requires Enumerates(order, f.headers) && Fragment(f, order, args).Ok?
    requires CheckScheme(f.headers, expected) == Ok(scheme)
    ensures var frames := Tag(id, Fragment(f, order, args).value);
            && ReadsThrough(KindOf(f), expected, Start, frames)
            && ReadAll(KindOf(f), expected, Start, frames) == Finished(f, scheme, Arrived(f, order, args))
  {
    hide TakeFrame, EncodeFields, EncodeWithFields, AddFrame, AddFrames, CheckScheme, ContinueFrames, ContinueSlots,
      Arrives, ReadFirst, ReadNext;
    var limit := FirstBudget(|EncodeFields(f, order).value|);
    var t := TakeFrame(args, limit);
    ReadsBeginning(f, order, args, expected, scheme);
    ReassemblyLaw(args, limit, FRAME_BUDGET);
    var frames := Fragment(f, order, args).value;
    var continuation := ContinueType(KindOf(f));
    var next := ReadFirst(KindOf(f), expected, frames[0]);
    var rest := Tag(id, ContinueFrames(t.rest, continuation).value);
    assert Tag(id, frames) == [TFrameId(id, frames[0])] + rest;
    AddFramesCons([], t.slots, ContinueSlots(t.rest, FRAME_BUDGET));
    ContinueFramesFilled(t.rest, continuation);
    if t.rest == [] {
      ContinueSlotsEmpty(FRAME_BUDGET);
      AddFramesCons(next.args, [], []);
    } else {
      ContinuationArrives(KindOf(f), expected, next, t.rest, continuation, id);
    }
    ReadsThroughCons(KindOf(f), expected, Start, TFrameId(id, frames[0]), rest);
  }

  /** The flag protocol at work: with anything at all queued behind a message, its reader takes
      that message's frames and no more. */
  lemma ReaderStopsAtItsMessage(f: Fields, order: seq<Str>, args: seq<Bytes>, expected: Option<ArgScheme>,
                                scheme: ArgScheme, id: uint32, queue: seq<TFrameId>)
    requires Enumerates(order, f.headers) && Fragment(f, order, args).Ok?
    requires CheckScheme(f.headers, expected) == Ok(scheme)
    ensures ReadFrom(KindOf(f), expected, Start, Tag(id, Fragment(f, order, args).value) + queue)
         == (Finished(f, scheme, Arrived(f, order, args)), queue)
  {
    hide ReadFrom, ReadsThrough, ReadAll;
    MessageArrives(f, order, args, expected, scheme, id);
    ConsumesExactly(KindOf(f), expected, Start, Tag(id, Fragment(f, order, args).value), queue);
  }

  /** Every frame of an accepted message can be put on the wire without overflow. */
  lemma FramesAreEncodable(f: Fields, order: seq<Str>, args: seq<Bytes>, id: uint32)
    requires Enumerates(order, f.headers) && Fragment(f, order, args).Ok?
    ensures forall i :: 0 <= i < |Fragment(f, order, args).value| ==>
              Encodable(TFrameId(id, Fragment(f, order, args).value[i]))
  {
    hide EncodeFields, CreateFrames;
    FramesAreFull(EncodeFields(f, order).value, args, FirstType(KindOf(f)), ContinueType(KindOf(f)));
  }

  /** What the caller gets: whatever is queued behind an accepted message, reading it reports
      the sender's fields and scheme and the arguments of the reassembly law. */
  lemma MessageIsReported(f: Fields, order: seq<Str>, args: seq<Bytes>, expected: Option<ArgScheme>,
                          scheme: ArgScheme, id: uint32, queue: seq<TFrameId>)
    requires Enumerates(order, f.headers) && Fragment(f, order, args).Ok?
    requires CheckScheme(f.headers, expected) == Ok(scheme)
    ensures var (reader, rest) := ReadFrom(KindOf(f), expected, Start, Tag(id, Fragment(f, order, args).value) + queue);
            && Outcome(reader) == Ok((f, MessageArgs(scheme, Arrived(f, order, args))))
            && rest == queue
  {
    hide ReadFrom, Fragment, CheckScheme;
    ReaderStopsAtItsMessage(f, order, args, expected, scheme, id, queue);
  }

  // Messages that are cut short or interrupted

  /** While no prefix satisfies or breaks the reader, reading goes on behind it. */
  lemma {:induction false} ReadFromBehind(kind: Kind, expected: Option<ArgScheme>, r: Reader,
                                         frames: seq<TFrameId>, queue: seq<TFrameId>)
    requires forall m :: 0 <= m < |frames| ==> ReadAll(kind, expected, r, frames[..m]).Pending()
    ensures ReadFrom(kind, expected, r, frames + queue)
         == ReadFrom(kind, expected, ReadAll(kind, expected, r, frames), queue)
    decreases |frames|
  {
    hide Read;
    if frames == [] {
      assert frames + queue == queue;
    } else {
      assert frames[..0] == [];
      assert ReadAll(kind, expected, r, frames[..0]).Pending();
      assert (frames + queue)[1..] == frames[1..] + queue;
      var next := Read(kind, expected, r, frames[0].frame);
      forall m | 0 <= m < |frames[1..]| ensures ReadAll(kind, expected, next, frames[1..][..m]).Pending() {
        assert frames[..m + 1][1..] == frames[1..][..m];
        assert ReadAll(kind, expected, r, frames[..m + 1]).Pending();
      }
      ReadFromBehind(kind, expected, next, frames[1..], queue);
    }
  }

  lemma PrefixIsRead(kind: Kind, expected: Option<ArgScheme>, frames: seq<TFrameId>, n: nat, queue: seq<TFrameId>)
    requires ReadsThrough(kind, expected, Start, frames) && n <= |frames|
    ensures ReadFrom(kind, expected, Start, frames[..n] + queue)
         == ReadFrom(kind, expected, ReadAll(kind, expected, Start, frames[..n]), queue)
  {
    hide ReadsThrough, ReadAll, ReadFrom;
    ConsumesExactly(kind, expected, Start, frames, []);
    forall m | 0 <= m < |frames[..n]| ensures ReadAll(kind, expected, Start, frames[..n][..m]).Pending() {
      assert frames[..n][..m] == frames[..m];
    }
    ReadFromBehind(kind, expected, Start, frames[..n], queue);
  }

  /** `r` carries these fields and scheme, and `args` so far. */
  predicate Holds(r: Reader, fields: Fields, scheme: ArgScheme, args: seq<Bytes>) {
    (r.Collecting? || r.Finished?) && r.fields == fields && r.scheme == scheme && r.args == args
  }

  lemma {:induction false} ContinuationPrefix(kind: Kind, expected: Option<ArgScheme>, r: Reader,
                                             args: seq<Bytes>, frameType: FrameType, id: uint32, n: nat)
    requires r.Collecting? || args == []
    requires r.Collecting? || r.Finished?
    requires frameType == CallRequestContinue || frameType == CallResponseContinue
    requires ContinueFrames(args, frameType).Ok? && n <= |ContinueFrames(args, frameType).value|
    ensures n <= |ContinueSlots(args, FRAME_BUDGET)|
    ensures Holds(ReadAll(kind, expected, r, Tag(id, ContinueFrames(args, frameType).value)[..n]),
                  r.fields, r.scheme, AddFrames(r.args, ContinueSlots(args, FRAME_BUDGET)[..n]))
    decreases Work(args)
  {
    hide TakeFrame, ContinueSlots, AddFrames, AddFrame, EncodeContinue, ReadNext;
    ContinueFramesFilled(args, frameType);
    var all, slots := Tag(id, ContinueFrames(args, frameType).value), ContinueSlots(args, FRAME_BUDGET);
    if n == 0 {
      assert all[..0] == [] && slots[..0] == [];
      AddFramesCons(r.args, [], []);
    } else {
      var t := TakeFrame(args, FRAME_BUDGET);
      TakeFrameShrinks(args, FRAME_BUDGET);
      ReadsContinue(r, args, frameType);
      ContinueSlotsStep(args, FRAME_BUDGET);
      var rest := Tag(id, ContinueFrames(t.rest, frameType).value);
      ContinueFramesFilled(t.rest, frameType);
      assert all[..n] == [all[0]] + rest[..n - 1];
      assert ([all[0]] + rest[..n - 1])[1..] == rest[..n - 1];
      assert slots[..n] == [t.slots] + ContinueSlots(t.rest, FRAME_BUDGET)[..n - 1];
      AddFramesCons(r.args, t.slots, ContinueSlots(t.rest, FRAME_BUDGET)[..n - 1]);
      ContinuationPrefix(kind, expected, ReadNext(r, all[0].frame), t.rest, frameType, id, n - 1);
    }
  }

  /** After any positive number of its frames, a message's reader holds the sender's fields and
      scheme and what those frames carried. */
  lemma MessagePrefix(f: Fields, order: seq<Str>, args: seq<Bytes>, expected: Option<ArgScheme>,
                      scheme: ArgScheme, id: uint32, n: nat)
    requires Enumerates(order, f.headers) && Fragment(f, order, args).Ok?
    requires CheckScheme(f.headers, expected) == Ok(scheme)
    requires 0 < n <= |Fragment(f, order, args).value|
    ensures var slots := MessageSlots(args, FirstBudget(|EncodeFields(f, order).value|), FRAME_BUDGET);
            && n <= |slots|
            && Holds(ReadAll(KindOf(f), expected, Start, Tag(id, Fragment(f, order, args).value)[..n]),
                     f, scheme, AddFrames([], slots[..n]))
  {
    hide TakeFrame, EncodeFields, EncodeWithFields, AddFrame, AddFrames, CheckScheme, ContinueFrames, ContinueSlots,
      ReadFirst, ReadNext;
    var limit := FirstBudget(|EncodeFields(f, order).value|);
    var t := TakeFrame(args, limit);
    ReadsBeginning(f, order, args, expected, scheme);
    var frames := Fragment(f, order, args).value;
    var all, slots := Tag(id, frames), MessageSlots(args, limit, FRAME_BUDGET);
    var continuation := ContinueType(KindOf(f));
    var rest := Tag(id, ContinueFrames(t.rest, continuation).value);
    ContinueFramesFilled(t.rest, continuation);
    assert all[..n] == [all[0]] + rest[..n - 1];
    assert ([all[0]] + rest[..n - 1])[1..] == rest[..n - 1];
    assert slots[..n] == [t.slots] + ContinueSlots(t.rest, FRAME_BUDGET)[..n - 1];
    AddFramesCons([], t.slots, ContinueSlots(t.rest, FRAME_BUDGET)[..n - 1]);
    ContinuationPrefix(KindOf(f), expected, ReadFirst(KindOf(f), expected, frames[0]), t.rest, continuation, id, n - 1);
  }

  /** A channel closed after `n` frames of a message: without any the caller gets an error, and
      from the first frame on a result that looks complete, with what those frames carried. */
  lemma ClosedEarlyLooksComplete(f: Fields, order: seq<Str>, args: seq<Bytes>, expected: Option<ArgScheme>,
                                 scheme: ArgScheme, id: uint32, n: nat)
    requires Enumerates(order, f.headers) && Fragment(f, order, args).Ok?
    requires CheckScheme(f.headers, expected) == Ok(scheme)
    requires n <= |Fragment(f, order, args).value|
    ensures var slots := MessageSlots(args, FirstBudget(|EncodeFields(f, order).value|), FRAME_BUDGET);
            && n <= |slots|
            && Outcome(ReadFrom(KindOf(f), expected, Start, Tag(id, Fragment(f, order, args).value)[..n]).0)
               == if n == 0 then Err(ChannelError) else Ok((f, MessageArgs(scheme, AddFrames([], slots[..n]))))
  {
    hide Fragment, CheckScheme, ReadsThrough, ReadAll, MessageSlots, EncodeFields, AddFrames;
    var frames := Tag(id, Fragment(f, order, args).value);
    if n > 0 {
      MessageArrives(f, order, args, expected, scheme, id);
      MessagePrefix(f, order, args, expected, scheme, id, n);
      PrefixIsRead(KindOf(f), expected, frames, n, []);
      assert frames[..n] + [] == frames[..n];
    }
  }

  /** The frame types a reader accepts, at the start of a message and inside one. Anything else
      breaks the message, and either kind of continuation will do. */
  lemma WrongTypeFails(kind: Kind, expected: Option<ArgScheme>, r: Reader, frame: TFrame)
    ensures r.Start? && frame.frameType != (if kind.Request? then CallRequest else CallResponse) ==>
              Read(kind, expected, r, frame) == Failed(ChannelError)
    ensures r.Collecting? && frame.frameType !in {CallRequestContinue, CallResponseContinue} ==>
              Read(kind, expected, r, frame) == Failed(ChannelError)
    ensures r.Collecting? ==>
              Read(kind, expected, r, TFrame(CallRequestContinue, frame.payload))
              == Read(kind, expected, r, TFrame(CallResponseContinue, frame.payload))
  {
    hide DecodeCall, DecodeContinue;
  }

  /** A frame of another type inside a message fails the whole message; what comes behind it
      stays queued. */
  lemma InterruptedMessageFails(f: Fields, order: seq<Str>, args: seq<Bytes>, expected: Option<ArgScheme>,
                                scheme: ArgScheme, id: uint32, n: nat, bad: TFrameId, queue: seq<TFrameId>)
    requires Enumerates(order, f.headers) && Fragment(f, order, args).Ok?
    requires CheckScheme(f.headers, expected) == Ok(scheme)
    requires 0 < n < |Fragment(f, order, args).value|
    requires bad.frame.frameType !in {CallRequestContinue, CallResponseContinue}
    ensures ReadFrom(KindOf(f), expected, Start, Tag(id, Fragment(f, order, args).value)[..n] + ([bad] + queue))
         == (Failed(ChannelError), queue)
  {
    hide Fragment, CheckScheme, ReadsThrough, ReadAll, ReadNext, MessageSlots, EncodeFields;
    var frames := Tag(id, Fragment(f, order, args).value);
    MessageArrives(f, order, args, expected, scheme, id);
    ConsumesExactly(KindOf(f), expected, Start, frames, []);
    MessagePrefix(f, order, args, expected, scheme, id, n);
    PrefixIsRead(KindOf(f), expected, frames, n, [bad] + queue);
    var r := ReadAll(KindOf(f), expected, Start, frames[..n]);
    assert r.Pending();
    WrongTypeFails(KindOf(f), expected, r, bad.frame);
    assert ([bad] + queue)[1..] == queue;
  }
}

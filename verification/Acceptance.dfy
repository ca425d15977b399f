/** Which messages can be cut into frames at all, and how full the frames are. */
module Acceptance {
  import opened Basics
  import opened Frames
  import opened Payloads
  import opened ArgSchemes
  import opened PayloadLaws
  import opened Fragmentation
  import opened Reassembly

  /** No empty argument is reached with too little room for its length field. */
  predicate NoOverrun(args: seq<Bytes>, room: int, budget: int)
    requires budget >= 3
  {
    args == [] ||
    (&& !Overruns(|args[0]|, room)
     && NoOverrun(args[1..], RoomAfter(|args[0]|, room, budget), budget))
  }

  /** Every frame's arguments stay within the frame's budget. */
  predicate AllFit(frames: seq<seq<Slot>>, budget: int) {
    forall i :: 0 <= i < |frames| ==> |SlotsBytes(frames[i])| <= budget
  }

  lemma AllFitCons(frame: seq<Slot>, frames: seq<seq<Slot>>, budget: int)
    ensures AllFit([frame] + frames, budget) <==> |SlotsBytes(frame)| <= budget && AllFit(frames, budget)
  {
    if AllFit([frame] + frames, budget) {
      assert ([frame] + frames)[0] == frame;
      forall i | 0 <= i < |frames| ensures |SlotsBytes(frames[i])| <= budget {
        assert ([frame] + frames)[i + 1] == frames[i];
      }
    }
  }

  lemma SlotsBytesCons(slot: Slot, slots: seq<Slot>)
    ensures |SlotsBytes([slot] + slots)| == ARG_LEN_LEN + |if slot.Some? then slot.value else []| + |SlotsBytes(slots)|
  {
    assert ([slot] + slots)[1..] == slots;
  }

  lemma NoOverrunAtStart(head: Bytes, tail: seq<Bytes>, budget: int)
    requires budget >= 3
    ensures NoOverrun([head] + tail, if head == [] then budget else 0, budget)
        <==> NoOverrun(tail, if head == [] then budget - ARG_LEN_LEN else RoomAfter(|head|, 0, budget), budget)
  {
    assert ([head] + tail)[1..] == tail;
  }

  /** The rest of this frame and all later ones fit exactly when no empty argument overruns. */
  lemma {:induction false} FitsMidFrame(args: seq<Bytes>, room: nat, budget: int)
    requires budget >= 3
    ensures NoOverrun(args, room, budget) <==>
              && |SlotsBytes(TakeFrame(args, room).slots)| <= room
              && AllFit(ContinueSlots(TakeFrame(args, room).rest, budget), budget)
    decreases Work(args), 1
  {
    hide Excess, FillsFrame, RoomAfter, TakeFrame, ContinueSlots, AllFit;
    if args == [] {
      FitsNothing(room, budget);
    } else {
      var arg := args[0];
      if arg == [] || |arg| < room - ARG_LEN_LEN {
        TakeFrameWhole(args, room);
        LandsInside(|arg|, room, budget);
        SlotsBytesCons(SlotOf(arg), TakeFrame(args[1..], room - ARG_LEN_LEN - |arg|).slots);
        if !Overruns(|arg|, room) {
          FitsMidFrame(args[1..], room - ARG_LEN_LEN - |arg|, budget);
        }
      } else if room < ARG_LEN_LEN {
        TakeFrameCut(args, room);
        FitsFrameStart(args, budget);
        LandsAfterStarving(|arg|, room, budget);
      } else {
        var x, y := arg[..room - ARG_LEN_LEN], arg[room - ARG_LEN_LEN..];
        TakeFrameCut(args, room);
        SlotsBytesCons(SlotOf(x), []);
        assert [SlotOf(x)] + [] == [SlotOf(x)];
        WorkCons(y, args[1..]);
        FitsFrameStart([y] + args[1..], budget);
        NoOverrunAtStart(y, args[1..], budget);
        LandsAfterCut(|arg|, room, budget);
      }
    }
  }

  lemma FitsNothing(room: nat, budget: int)
    requires budget >= 3
    ensures |SlotsBytes(TakeFrame([], room).slots)| <= room
    ensures AllFit(ContinueSlots(TakeFrame([], room).rest, budget), budget)
  {
  }

  lemma ContinueSlotsStep(args: seq<Bytes>, budget: int)
    requires budget >= 3 && args != []
    ensures ContinueSlots(args, budget)
         == [TakeFrame(args, budget).slots] + ContinueSlots(TakeFrame(args, budget).rest, budget)
  {
  }

  lemma {:induction false} FitsFrameStart(args: seq<Bytes>, budget: int)
    requires budget >= 3 && args != []
    ensures NoOverrun(args, if args[0] == [] then budget else 0, budget)
        <==> AllFit(ContinueSlots(args, budget), budget)
    decreases Work(args), 0
  {
    hide Excess, FillsFrame, RoomAfter, TakeFrame, ContinueSlots, AllFit, NoOverrun;
    var arg := args[0];
    assert args == [arg] + args[1..];
    NoOverrunAtStart(arg, args[1..], budget);
    ContinueSlotsStep(args, budget);
    AllFitCons(TakeFrame(args, budget).slots, ContinueSlots(TakeFrame(args, budget).rest, budget), budget);
    if arg != [] {
      LandsAfterStarving(|arg|, 0, budget);
    }
    if arg == [] || |arg| < budget - ARG_LEN_LEN {
      TakeFrameWhole(args, budget);
      LandsInside(|arg|, budget, budget);
      SlotsBytesCons(SlotOf(arg), TakeFrame(args[1..], budget - ARG_LEN_LEN - |arg|).slots);
      if budget - ARG_LEN_LEN - |arg| >= 0 {
        FitsMidFrame(args[1..], budget - ARG_LEN_LEN - |arg|, budget);
      }
    } else {
      var x, y := arg[..budget - ARG_LEN_LEN], arg[budget - ARG_LEN_LEN..];
      TakeFrameCut(args, budget);
      SlotsBytesCons(SlotOf(x), []);
      assert [SlotOf(x)] + [] == [SlotOf(x)];
      WorkCons(y, args[1..]);
      FitsFrameStart([y] + args[1..], budget);
      NoOverrunAtStart(y, args[1..], budget);
      LandsAfterCut(|arg|, budget, budget);
    }
  }

  /** A frame takes no more slots than there are arguments, at least one when it has room for a
      length field, and never leaves more arguments than it found. */
  lemma {:induction false} SlotCount(args: seq<Bytes>, limit: int)
    ensures |TakeFrame(args, limit).slots| <= |args|
    ensures |TakeFrame(args, limit).rest| <= |args|
    ensures args != [] && limit >= ARG_LEN_LEN ==> TakeFrame(args, limit).slots != []
    decreases |args|
  {
    if args != [] {
      SlotCount(args[1..], limit - ARG_LEN_LEN - |args[0]|);
    }
  }

  /** A frame that fits and still leaves something queued is full to within one byte. */
  lemma {:induction false} FrameIsFull(args: seq<Bytes>, limit: int)
    requires TakeFrame(args, limit).rest != []
    requires |SlotsBytes(TakeFrame(args, limit).slots)| <= limit
    ensures |SlotsBytes(TakeFrame(args, limit).slots)| >= limit - 1
    decreases |args|
  {
    hide TakeFrame;
    TakeFrameEmpty(limit);
    var arg, room := args[0], limit - ARG_LEN_LEN;
    if arg == [] || |arg| < room {
      TakeFrameWhole(args, limit);
      SlotsBytesCons(SlotOf(arg), TakeFrame(args[1..], room - |arg|).slots);
      FrameIsFull(args[1..], room - |arg|);
    } else {
      TakeFrameCut(args, limit);
      if room >= 0 {
        SlotsBytesCons(SlotOf(arg[..room]), []);
        assert [SlotOf(arg[..room])] + [] == [SlotOf(arg[..room])];
      }
    }
  }

  lemma TakeFrameEmpty(limit: int)
    ensures TakeFrame([], limit) == Taken([], [])
  {
  }

  function TotalBytes(args: seq<Bytes>): nat {
    if args == [] then 0 else |args[0]| + TotalBytes(args[1..])
  }

  lemma TotalBytesCons(arg: Bytes, args: seq<Bytes>)
    ensures TotalBytes([arg] + args) == |arg| + TotalBytes(args)
  {
    assert ([arg] + args)[1..] == args;
  }

  /** A frame carries argument bytes in everything but its length fields. */
  lemma {:induction false} FrameCarries(args: seq<Bytes>, limit: int)
    ensures var t := TakeFrame(args, limit);
            TotalBytes(args) == TotalBytes(t.rest) + |SlotsBytes(t.slots)| - ARG_LEN_LEN * |t.slots|
    decreases |args|
  {
    hide TakeFrame;
    if args == [] {
      TakeFrameEmpty(limit);
    } else {
      var arg, room := args[0], limit - ARG_LEN_LEN;
      if arg == [] || |arg| < room {
        TakeFrameWhole(args, limit);
        SlotsBytesCons(SlotOf(arg), TakeFrame(args[1..], room - |arg|).slots);
        FrameCarries(args[1..], room - |arg|);
      } else {
        TakeFrameCut(args, limit);
        if room >= 0 {
          SlotsBytesCons(SlotOf(arg[..room]), []);
          assert [SlotOf(arg[..room])] + [] == [SlotOf(arg[..room])];
          TotalBytesCons(arg[room..], args[1..]);
        }
      }
    }
  }

  lemma {:induction false} ContinueCount(args: seq<Bytes>, budget: int)
    requires budget >= ARG_LEN_LEN * |args| + 3
    requires AllFit(ContinueSlots(args, budget), budget)
    ensures var n := |ContinueSlots(args, budget)|;
            n > 0 ==> (n - 1) * (budget - 1 - ARG_LEN_LEN * |args|) <= TotalBytes(args)
    decreases Work(args)
  {
    hide TakeFrame, ContinueSlots, AllFit, SlotsBytes;
    ContinueSlotsEmpty(budget);
    if args != [] {
      ContinueSlotsStep(args, budget);
      var t := TakeFrame(args, budget);
      AllFitCons(t.slots, ContinueSlots(t.rest, budget), budget);
      TakeFrameShrinks(args, budget);
      SlotCount(args, budget);
      FrameCarries(args, budget);
      if t.rest != [] {
        FrameIsFull(args, budget);
        ContinueSlotsStep(t.rest, budget);
        ContinueCount(t.rest, budget);
        AddFrameToCount(|ContinueSlots(t.rest, budget)|, budget - 1 - ARG_LEN_LEN * |args|,
                        budget - 1 - ARG_LEN_LEN * |t.rest|, TotalBytes(t.rest), TotalBytes(args));
      }
    }
  }

  lemma AddFrameToCount(n: nat, per: int, perRest: int, rest: int, total: int)
    requires n > 0 && per <= perRest && (n - 1) * perRest <= rest && rest + per <= total
    ensures n * per <= total
  {
    MulMonotone(n - 1, per, perRest);
    Distribute(per, n - 1, 1);
  }

  lemma ContinueSlotsEmpty(budget: int)
    requires budget >= 3
    ensures ContinueSlots([], budget) == []
  {
  }

  lemma MulMonotone(k: int, a: int, b: int)
    requires k >= 0 && a <= b
    ensures k * a <= k * b
  {
  }

  // The frames as `create_frames` builds them

  /** A frame's arguments can be encoded: one to three slots, within the budget. */
  predicate Accepted(slots: seq<Slot>, budget: int) {
    1 <= |slots| <= MAX_FRAME_ARGS && |SlotsBytes(slots)| <= budget
  }

  lemma FrameEncodes(flags: Flags, fields: Bytes, slots: seq<Slot>)
    ensures EncodeWithFields(flags, fields, FrameArgs(slots)) ==
              if Accepted(slots, FirstBudget(|fields|))
              then Ok([flags] + fields + ([0] + SlotsBytes(slots))) else Err(CodecError)
    ensures EncodeContinue(CallContinue(flags, FrameArgs(slots))) ==
              if Accepted(slots, FRAME_BUDGET) then Ok([flags] + ([0] + SlotsBytes(slots))) else Err(CodecError)
  {
  }

  lemma {:induction false} ContinueFramesAccepted(args: seq<Bytes>, frameType: FrameType)
    requires |args| <= MAX_FRAME_ARGS
    ensures ContinueFrames(args, frameType).Ok? <==> AllFit(ContinueSlots(args, FRAME_BUDGET), FRAME_BUDGET)
    decreases Work(args)
  {
    hide TakeFrame, ContinueSlots, AllFit, SlotsBytes, EncodeContinue;
    ContinueSlotsEmpty(FRAME_BUDGET);
    if args == [] {
      AllFitNone(FRAME_BUDGET);
    } else {
      var t := TakeFrame(args, FRAME_BUDGET);
      TakeFrameShrinks(args, FRAME_BUDGET);
      SlotCount(args, FRAME_BUDGET);
      ContinueSlotsStep(args, FRAME_BUDGET);
      AllFitCons(t.slots, ContinueSlots(t.rest, FRAME_BUDGET), FRAME_BUDGET);
      FrameEncodes(FlagsFor(t.rest), [], t.slots);
      ContinueFramesAccepted(t.rest, frameType);
    }
  }

  lemma AllFitNone(budget: int)
    ensures AllFit([], budget)
  {
  }

  /** Acceptance: one to three arguments behind encoded fields that leave room for a length
      field are refused exactly when arithmetic on the lengths has an empty argument reached
      with too little room. */
  lemma AcceptanceCondition(fields: Bytes, args: seq<Bytes>, first: FrameType, continuation: FrameType)
    requires 1 <= |args| <= MAX_FRAME_ARGS && FirstBudget(|fields|) >= ARG_LEN_LEN
    ensures CreateFrames(fields, args, first, continuation).Ok?
       <==> NoOverrun(args, FirstBudget(|fields|), FRAME_BUDGET)
  {
    hide TakeFrame, ContinueSlots, AllFit, SlotsBytes, EncodeWithFields, ContinueFrames, NoOverrun;
    var t := TakeFrame(args, FirstBudget(|fields|));
    SlotCount(args, FirstBudget(|fields|));
    FitsMidFrame(args, FirstBudget(|fields|), FRAME_BUDGET);
    ContinueFramesAccepted(t.rest, continuation);
    FrameEncodes(FlagsFor(t.rest), fields, t.slots);
  }

  /** Without arguments there is never a frame to send. */
  lemma NoArgumentsRefused(fields: Bytes, first: FrameType, continuation: FrameType)
    ensures CreateFrames(fields, [], first, continuation).Err?
  {
    FrameEncodes(NO_FLAGS, fields, []);
  }

  /** What holds of the frames from some point of a message to its end. */
  ghost predicate WellFilled(frames: seq<TFrame>) {
    forall i :: 0 <= i < |frames| ==>
      && 2 <= |frames[i].payload| <= 65518
      && (i < |frames| - 1 ==> |frames[i].payload| >= 65517)
      && frames[i].payload[0] == (if i < |frames| - 1 then 0x01 else 0x00)
  }

  lemma WellFilledCons(frame: TFrame, frames: seq<TFrame>)
    requires WellFilled(frames)
    requires 2 <= |frame.payload| <= 65518
    requires frames != [] ==> |frame.payload| >= 65517
    requires frame.payload[0] == if frames == [] then 0x00 else 0x01
    ensures WellFilled([frame] + frames)
  {
  }

  lemma {:induction false} ContinueFramesFilled(args: seq<Bytes>, frameType: FrameType)
    requires ContinueFrames(args, frameType).Ok?
    ensures var frames := ContinueFrames(args, frameType).value;
            && WellFilled(frames)
            && (frames == [] <==> args == [])
            && |frames| == |ContinueSlots(args, FRAME_BUDGET)|
            && AllFit(ContinueSlots(args, FRAME_BUDGET), FRAME_BUDGET)
    decreases Work(args)
  {
    hide TakeFrame, ContinueSlots, AllFit, SlotsBytes, EncodeContinue;
    ContinueSlotsEmpty(FRAME_BUDGET);
    AllFitNone(FRAME_BUDGET);
    if args != [] {
      var t := TakeFrame(args, FRAME_BUDGET);
      TakeFrameShrinks(args, FRAME_BUDGET);
      ContinueSlotsStep(args, FRAME_BUDGET);
      AllFitCons(t.slots, ContinueSlots(t.rest, FRAME_BUDGET), FRAME_BUDGET);
      FrameEncodes(FlagsFor(t.rest), [], t.slots);
      ContinueFramesFilled(t.rest, frameType);
      var rest := ContinueFrames(t.rest, frameType).value;
      if t.rest != [] {
        FrameIsFull(args, FRAME_BUDGET);
      }
      WellFilledCons(ContinueFrames(args, frameType).value[0], rest);
    }
  }

  /** Fullness and flag protocol: every frame of an accepted message is at most 65534 bytes long
      on the wire, every frame but the last falls at most one byte short of that, and exactly
      the frames before the last say that more fragments follow. */
  lemma FramesAreFull(fields: Bytes, args: seq<Bytes>, first: FrameType, continuation: FrameType)
    requires CreateFrames(fields, args, first, continuation).Ok?
    ensures WellFilled(CreateFrames(fields, args, first, continuation).value)
    ensures |CreateFrames(fields, args, first, continuation).value|
         == |MessageSlots(args, FirstBudget(|fields|), FRAME_BUDGET)|
  {
    hide TakeFrame, ContinueSlots, AllFit, SlotsBytes, EncodeWithFields, ContinueFrames;
    var t := TakeFrame(args, FirstBudget(|fields|));
    FrameEncodes(FlagsFor(t.rest), fields, t.slots);
    ContinueFramesFilled(t.rest, continuation);
    if t.rest != [] {
      FrameIsFull(args, FirstBudget(|fields|));
    }
    var frames := CreateFrames(fields, args, first, continuation).value;
    WellFilledCons(frames[0], ContinueFrames(t.rest, continuation).value);
  }

  /** No more frames than the bytes demand: at most 2 + total / 65509. */
  lemma FrameCount(fields: Bytes, args: seq<Bytes>, first: FrameType, continuation: FrameType)
    requires |args| <= MAX_FRAME_ARGS
    requires CreateFrames(fields, args, first, continuation).Ok?
    ensures |CreateFrames(fields, args, first, continuation).value| <= 2 + TotalBytes(args) / 65509
  {
    hide TakeFrame, ContinueSlots, AllFit, SlotsBytes, EncodeWithFields, ContinueFrames;
    var t := TakeFrame(args, FirstBudget(|fields|));
    FramesAreFull(fields, args, first, continuation);
    FrameEncodes(FlagsFor(t.rest), fields, t.slots);
    ContinueFramesFilled(t.rest, continuation);
    SlotCount(args, FirstBudget(|fields|));
    FrameCarries(args, FirstBudget(|fields|));
    ContinueCount(t.rest, FRAME_BUDGET);
    var n := |ContinueSlots(t.rest, FRAME_BUDGET)|;
    if n > 0 {
      MulMonotone(n - 1, 65509, FRAME_BUDGET - 1 - ARG_LEN_LEN * |t.rest|);
    }
    SlotsBytesLength(t.slots);
  }

  lemma {:induction false} SlotsBytesLength(slots: seq<Slot>)
    ensures |SlotsBytes(slots)| >= ARG_LEN_LEN * |slots|
    decreases |slots|
  {
    if slots != [] {
      SlotsBytesLength(slots[1..]);
    }
  }

  lemma {:induction false} ContinueFramesFailure(args: seq<Bytes>, frameType: FrameType)
    ensures ContinueFrames(args, frameType) != Err(Panic)
    decreases Work(args)
  {
    hide TakeFrame, EncodeContinue;
    if args != [] {
      var t := TakeFrame(args, FRAME_BUDGET);
      TakeFrameShrinks(args, FRAME_BUDGET);
      FrameEncodes(FlagsFor(t.rest), [], t.slots);
      ContinueFramesFailure(t.rest, frameType);
    }
  }

  /** Acceptance of a whole outgoing request, from its lengths alone: a service name that fits,
      at least one argument, and no empty argument reached with too little room. Whatever the
      lengths, cutting never panics. */
  lemma RequestAcceptedIff(service: Str, scheme: ArgScheme, order: seq<Str>, args: seq<Bytes>)
    requires Enumerates(order, CallHeaders(service, scheme)) && |args| <= MAX_FRAME_ARGS
    ensures Fragment(OutgoingRequest(service, scheme), order, args) != Err(Panic)
    ensures Fragment(OutgoingRequest(service, scheme), order, args).Ok? <==>
              && |service| <= 0xFF && args != []
              && NoOverrun(args, FirstBudget(RequestFieldsLength(service, scheme)), FRAME_BUDGET)
  {
    hide EncodeFields, NoOverrun, CreateFrames, SchemeName, CallHeaders;
    var f := OutgoingRequest(service, scheme);
    OutgoingRequestIsSmall(service, scheme, order);
    if EncodeFields(f, order).Ok? {
      CutsLikeItsLengths(EncodeFields(f, order).value, args, CallRequest, CallRequestContinue);
    }
  }

  lemma ResponseAcceptedIff(code: ResponseCode, service: Str, scheme: ArgScheme, order: seq<Str>, args: seq<Bytes>)
    requires Enumerates(order, CallHeaders(service, scheme)) && |args| <= MAX_FRAME_ARGS
    ensures Fragment(OutgoingResponse(code, service, scheme), order, args) != Err(Panic)
    ensures Fragment(OutgoingResponse(code, service, scheme), order, args).Ok? <==>
              && |service| <= 0xFF && args != []
              && NoOverrun(args, FirstBudget(ResponseFieldsLength(service, scheme)), FRAME_BUDGET)
  {
    hide EncodeFields, NoOverrun, CreateFrames, SchemeName, CallHeaders;
    var f := OutgoingResponse(code, service, scheme);
    OutgoingResponseIsSmall(code, service, scheme, order);
    if EncodeFields(f, order).Ok? {
      CutsLikeItsLengths(EncodeFields(f, order).value, args, CallResponse, CallResponseContinue);
    }
  }

  /** `create_frames` panics exactly when the fields alone overrun the payload limit, which then
      underflows. */
  lemma CreateFramesFailure(fields: Bytes, args: seq<Bytes>, first: FrameType, continuation: FrameType)
    ensures CreateFrames(fields, args, first, continuation) == Err(Panic) <==> |fields| > 65517
  {
    hide TakeFrame, EncodeWithFields, ContinueFrames, SlotsBytes, Accepted;
    if |fields| <= 65517 {
      var t := TakeFrame(args, FirstBudget(|fields|));
      FrameEncodes(FlagsFor(t.rest), fields, t.slots);
      ContinueFramesFailure(t.rest, continuation);
    }
  }

  lemma CutsLikeItsLengths(fields: Bytes, args: seq<Bytes>, first: FrameType, continuation: FrameType)
    requires |args| <= MAX_FRAME_ARGS && FirstBudget(|fields|) >= ARG_LEN_LEN
    ensures CreateFrames(fields, args, first, continuation) != Err(Panic)
    ensures CreateFrames(fields, args, first, continuation).Ok?
       <==> args != [] && NoOverrun(args, FirstBudget(|fields|), FRAME_BUDGET)
  {
    hide CreateFrames, NoOverrun;
    CreateFramesFailure(fields, args, first, continuation);
    if args == [] {
      NoArgumentsRefused(fields, first, continuation);
    } else {
      AcceptanceCondition(fields, args, first, continuation);
    }
  }

  /** A request opens with a `call req` frame and goes on in `call req continue` frames. */
  lemma RequestFrameTypes(service: Str, scheme: ArgScheme, order: seq<Str>, args: seq<Bytes>)
    requires Enumerates(order, CallHeaders(service, scheme))
    requires Fragment(OutgoingRequest(service, scheme), order, args).Ok?
    ensures var frames := Fragment(OutgoingRequest(service, scheme), order, args).value;
            && |frames| > 0 && frames[0].frameType == CallRequest
            && forall i :: 0 < i < |frames| ==> frames[i].frameType == CallRequestContinue
  {
    hide TakeFrame, EncodeFields, EncodeWithFields, ContinueFrames;
    var fields := EncodeFields(OutgoingRequest(service, scheme), order).value;
    ContinueFrameTypes(TakeFrame(args, FirstBudget(|fields|)).rest, CallRequestContinue);
  }

  /** A response opens with a `call res` frame and goes on in `call res continue` frames. */
  lemma ResponseFrameTypes(code: ResponseCode, service: Str, scheme: ArgScheme, order: seq<Str>, args: seq<Bytes>)
    requires Enumerates(order, CallHeaders(service, scheme))
    requires Fragment(OutgoingResponse(code, service, scheme), order, args).Ok?
    ensures var frames := Fragment(OutgoingResponse(code, service, scheme), order, args).value;
            && |frames| > 0 && frames[0].frameType == CallResponse
            && forall i :: 0 < i < |frames| ==> frames[i].frameType == CallResponseContinue
  {
    hide TakeFrame, EncodeFields, EncodeWithFields, ContinueFrames;
    var fields := EncodeFields(OutgoingResponse(code, service, scheme), order).value;
    ContinueFrameTypes(TakeFrame(args, FirstBudget(|fields|)).rest, CallResponseContinue);
  }
}

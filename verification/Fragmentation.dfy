/** Cutting the arguments of a message into frames under a byte budget. */
module Fragmentation {
  import opened Basics
  import opened Frames
  import opened Payloads
  import PayloadCodec

  const ARG_LEN_LEN := 2

  datatype FragmentationStatus = Complete | CompleteAtTheEnd | Incomplete

  /** The `as i32` cast of a length. */
  function AsI32(n: nat): int {
    var m := n % 0x1_0000_0000;
    if m < 0x8000_0000 then m else m - 0x1_0000_0000
  }

  /** Every argument is short enough for its length to survive the cast to i32. */
  predicate FitsI32(args: seq<Bytes>) {
    forall i :: 0 <= i < |args| ==> |args[i]| < 0x8000_0000
  }

  /** The slot that carries `fragment`: empty fragments are `None`. */
  function SlotOf(fragment: Bytes): Slot { if fragment == [] then None else Some(fragment) }

  /** One frame's worth of arguments, and the queue left behind. */
  datatype Taken = Taken(slots: seq<Slot>, rest: seq<Bytes>)

  function TakeFrame(args: seq<Bytes>, limit: int): Taken {
    if args == [] then Taken([], [])
    else
      var arg, room := args[0], limit - ARG_LEN_LEN;
      if arg == [] then
        var t := TakeFrame(args[1..], room);
        Taken([None] + t.slots, t.rest)
      else if room < 0 then Taken([], args)
      else if |arg| > room then Taken([SlotOf(arg[..room])], [arg[room..]] + args[1..])
      else if |arg| == room then Taken([Some(arg)], [[]] + args[1..])
      else
        var t := TakeFrame(args[1..], room - |arg|);
        Taken([Some(arg)] + t.slots, t.rest)
  }

  /** An argument that ends with room to spare passes through whole. */
  lemma TakeFrameWhole(args: seq<Bytes>, limit: int)
    requires args != [] && (args[0] == [] || |args[0]| < limit - ARG_LEN_LEN)
    ensures var t := TakeFrame(args[1..], limit - ARG_LEN_LEN - |args[0]|);
            TakeFrame(args, limit) == Taken([SlotOf(args[0])] + t.slots, t.rest)
  {
  }

  /** An argument that does not is cut, held back, or followed by an empty marker. */
  lemma TakeFrameCut(args: seq<Bytes>, limit: int)
    requires args != [] && args[0] != [] && |args[0]| >= limit - ARG_LEN_LEN
    ensures var arg, room := args[0], limit - ARG_LEN_LEN;
            TakeFrame(args, limit) ==
              if room < 0 then Taken([], args)
              else Taken([SlotOf(arg[..room])], [arg[room..]] + args[1..])
  {
    if |args[0]| == limit - ARG_LEN_LEN {
      assert args[0][..|args[0]|] == args[0] && args[0][|args[0]|..] == [];
    }
  }

  /** Bytes and arguments still queued: what every frame uses up. */
  function Work(args: seq<Bytes>): nat {
    if args == [] then 0 else 1 + |args[0]| + Work(args[1..])
  }

  lemma WorkCons(arg: Bytes, args: seq<Bytes>)
    ensures Work([arg] + args) == 1 + |arg| + Work(args)
  {
    assert ([arg] + args)[1..] == args;
  }

  /** Leftovers and empty markers go back to the queue, and still the queue shrinks. */
  lemma {:induction false} TakeFrameShrinks(args: seq<Bytes>, limit: int)
    ensures Work(TakeFrame(args, limit).rest) <= Work(args)
    ensures args != [] && limit >= 3 ==> Work(TakeFrame(args, limit).rest) < Work(args)
    decreases |args|
  {
    if args != [] {
      var arg, room := args[0], limit - ARG_LEN_LEN;
      if arg == [] || |arg| < room {
        TakeFrameShrinks(args[1..], room - |arg|);
      } else if room >= 0 {
        WorkCons(arg[room..], args[1..]);
      }
    }
  }

  /** The slots of every continuation frame, each with budget `budget`. */
  function ContinueSlots(args: seq<Bytes>, budget: int): seq<seq<Slot>>
    requires budget >= 3
    decreases Work(args)
  {
    if args == [] then []
    else
      TakeFrameShrinks(args, budget);
      var t := TakeFrame(args, budget);
      [t.slots] + ContinueSlots(t.rest, budget)
  }

  /** The slots of every frame of a message whose first frame has budget `first`. */
  function MessageSlots(args: seq<Bytes>, first: int, budget: int): seq<seq<Slot>>
    requires budget >= 3
  {
    var t := TakeFrame(args, first);
    [t.slots] + ContinueSlots(t.rest, budget)
  }

  /** Bytes for flags, fields, checksum and arguments once the frame header is paid for. */
  const PAYLOAD_LIMIT := FRAME_MAX_LENGTH - FRAME_HEADER_LENGTH - 1

  function ChecksumLength(t: ChecksumType): nat { if t.NoChecksum? then 1 else 5 }

  /** Argument budget of a continuation frame. */
  const FRAME_BUDGET := PAYLOAD_LIMIT - ChecksumLength(NoChecksum)

  /** Argument budget of a first frame with `fieldsLength` bytes of fields. */
  function FirstBudget(fieldsLength: nat): int { FRAME_BUDGET - fieldsLength }

  /** More frames follow exactly when something is still queued. */
  function FlagsFor(queue: seq<Bytes>): Flags {
    if queue == [] then NO_FLAGS else MORE_FRAGMENTS_FOLLOW
  }

  function FrameArgs(slots: seq<Slot>): CallArgs { CallArgs(NoChecksum, None, slots) }

  function ContinueFrames(args: seq<Bytes>, frameType: FrameType): Result<seq<TFrame>>
    decreases Work(args)
  {
    if args == [] then Ok([])
    else
      TakeFrameShrinks(args, FRAME_BUDGET);
      var t := TakeFrame(args, FRAME_BUDGET);
      var payload :- EncodeContinue(CallContinue(FlagsFor(t.rest), FrameArgs(t.slots)));
      var rest :- ContinueFrames(t.rest, frameType);
      Ok([TFrame(frameType, payload)] + rest)
  }

  lemma {:induction false} ContinueFrameTypes(args: seq<Bytes>, frameType: FrameType)
    requires ContinueFrames(args, frameType).Ok?
    ensures forall i :: 0 <= i < |ContinueFrames(args, frameType).value| ==>
              ContinueFrames(args, frameType).value[i].frameType == frameType
    decreases Work(args)
  {
    hide TakeFrame, EncodeContinue;
    if args != [] {
      var t := TakeFrame(args, FRAME_BUDGET);
      TakeFrameShrinks(args, FRAME_BUDGET);
      ContinueFrameTypes(t.rest, frameType);
    }
  }

  /** `create_frames` once the fields are encoded. */
  function CreateFrames(fields: Bytes, args: seq<Bytes>, first: FrameType, continuation: FrameType): Result<seq<TFrame>> {
    if |fields| > PAYLOAD_LIMIT then Err(Panic)
    else
      var t := TakeFrame(args, FirstBudget(|fields|));
      var payload :- EncodeWithFields(FlagsFor(t.rest), fields, FrameArgs(t.slots));
      var rest :- ContinueFrames(t.rest, continuation);
      Ok([TFrame(first, payload)] + rest)
  }

  /** The frames of a message, for one enumeration order of its headers. */
  function Fragment(f: Fields, order: seq<Str>, args: seq<Bytes>): Result<seq<TFrame>>
    requires forall i :: 0 <= i < |order| ==> order[i] in f.headers
  {
    var fields :- EncodeFields(f, order);
    CreateFrames(fields, args, FirstType(KindOf(f)), ContinueType(KindOf(f)))
  }

  class ArgsFragmenter {
    var args: seq<Bytes>

    constructor (args: seq<Bytes>)
      ensures this.args == args
    {
      this.args := args;
    }

    method NextFrameArgsVec(payloadLimit: int) returns (frameArgs: seq<Slot>)
      requires FitsI32(args)
      modifies this
      ensures Taken(frameArgs, args) == TakeFrame(old(args), payloadLimit)
      ensures FitsI32(args)
    {
      frameArgs := [];
      var limit := payloadLimit;
      while args != []
        invariant FitsI32(args)
        invariant var t := TakeFrame(args, limit);
                  TakeFrame(old(args), payloadLimit) == Taken(frameArgs + t.slots, t.rest)
        decreases |args|
      {
        ghost var before, sent := args, frameArgs;
        var arg := args[0];
        args := args[1..];
        limit := limit - ARG_LEN_LEN;
        var status, fragment, rest := NextArgFragment(arg, limit);
        ghost var room := limit;
        if fragment.Some? {
          if |fragment.value| == 0 {
            frameArgs := frameArgs + [None];
          } else {
            limit := limit - |fragment.value|;
            frameArgs := frameArgs + [Some(fragment.value)];
          }
        }
        assert frameArgs == if fragment.Some? then sent + [SlotOf(fragment.value)] else sent;
        if status == Incomplete {
          TakeFrameCut(before, room + ARG_LEN_LEN);
          args := [rest] + args;
          assert room < 0 ==> args == before;
          return;
        } else if status == CompleteAtTheEnd {
          TakeFrameCut(before, room + ARG_LEN_LEN);
          args := [[]] + args;
          return;
        }
        TakeFrameWhole(before, room + ARG_LEN_LEN);
        Assoc(sent, [SlotOf(arg)], TakeFrame(args, limit).slots);
      }
    }

    /** Cuts `arg` at the room left in the frame; `rest` is what `arg` keeps. */
    static method NextArgFragment(arg: Bytes, room: int)
      returns (status: FragmentationStatus, fragment: Option<Bytes>, rest: Bytes)
      requires |arg| < 0x8000_0000
      ensures fragment == (if arg != [] && room < 0 then None
                           else if arg != [] && |arg| > room then Some(arg[..room])
                           else Some(arg))
      ensures rest == (if fragment.None? then arg else arg[|fragment.value|..])
      ensures status.Incomplete? <==> rest != []
      ensures status.CompleteAtTheEnd? <==> arg != [] && |arg| == room
    {
      var remaining := AsI32(|arg|);
      if remaining == 0 {
        return Complete, Some([]), arg;
      } else if room < 0 {
        return Incomplete, None, arg;
      } else if remaining > room {
        return Incomplete, Some(arg[..room]), arg[room..];
      } else if remaining == room {
        return CompleteAtTheEnd, Some(arg), [];
      } else {
        return Complete, Some(arg), [];
      }
    }
  }

  class Fragmenter {
    const argsFragmenter: ArgsFragmenter

    constructor (args: seq<Bytes>)
      ensures fresh(argsFragmenter) && argsFragmenter.args == args
    {
      argsFragmenter := new ArgsFragmenter(args);
    }

    method CreateFrames(f: Fields) returns (r: Result<seq<TFrame>>, ghost order: seq<Str>)
      requires FitsI32(argsFragmenter.args)
      modifies argsFragmenter
      ensures Enumerates(order, f.headers)
      ensures r == Fragment(f, order, old(argsFragmenter.args))
      ensures r.Ok? ==>
                && |r.value| > 0
                && r.value[0].frameType == (if f.RequestFields? then CallRequest else CallResponse)
                && forall i :: 0 < i < |r.value| ==>
                     r.value[i].frameType == if f.RequestFields? then CallRequestContinue else CallResponseContinue
    {
      hide TakeFrame, EncodeFields, EncodeWithFields, EncodeContinue;
      var dst := new BytesMut([]);
      var ok;
      ok, order := PayloadCodec.PutFields(f, dst);
      if ok.Err? {
        return Err(ok.error), order;
      }
      var fields := dst.data;
      assert fields == [] + EncodeFields(f, order).value == EncodeFields(f, order).value;
      if |fields| > PAYLOAD_LIMIT {
        return Err(Panic), order;
      }
      var slots := NextFrameArgs(PAYLOAD_LIMIT - |fields|);
      var flags := CurrentFrameFlag();
      var payload := PayloadCodec.EncodeWithFieldsBytes(flags, fields, FrameArgs(slots));
      if payload.Err? {
        return Err(payload.error), order;
      }
      var continuation := ContinueType(KindOf(f));
      ghost var queued := argsFragmenter.args;
      ghost var head := TFrame(FirstType(KindOf(f)), payload.value);
      var frames := [TFrame(FirstType(KindOf(f)), payload.value)];
      while argsFragmenter.args != []
        invariant FitsI32(argsFragmenter.args)
        invariant var rest := ContinueFrames(argsFragmenter.args, continuation);
                  (if ContinueFrames(queued, continuation).Ok?
                   then Ok([head] + ContinueFrames(queued, continuation).value)
                   else ContinueFrames(queued, continuation))
                  == if rest.Ok? then Ok(frames + rest.value) else rest
        decreases Work(argsFragmenter.args)
      {
        TakeFrameShrinks(argsFragmenter.args, FRAME_BUDGET);
        slots := NextFrameArgs(PAYLOAD_LIMIT);
        flags := CurrentFrameFlag();
        payload := PayloadCodec.EncodeContinueBytes(CallContinue(flags, FrameArgs(slots)));
        if payload.Err? {
          return Err(payload.error), order;
        }
        ghost var rest := ContinueFrames(argsFragmenter.args, continuation);
        if rest.Ok? {
          Assoc(frames, [TFrame(continuation, payload.value)], rest.value);
        }
        frames := frames + [TFrame(continuation, payload.value)];
      }
      assert frames + [] == frames;
      ContinueFrameTypes(queued, continuation);
      assert frames == [head] + ContinueFrames(queued, continuation).value;
      return Ok(frames), order;
    }

    method NextFrameArgs(payloadLimit: nat) returns (slots: seq<Slot>)
      requires FitsI32(argsFragmenter.args)
      modifies argsFragmenter
      ensures Taken(slots, argsFragmenter.args)
           == TakeFrame(old(argsFragmenter.args), payloadLimit - ChecksumLength(NoChecksum))
      ensures FitsI32(argsFragmenter.args)
    {
      slots := argsFragmenter.NextFrameArgsVec(payloadLimit - ChecksumLength(NoChecksum));
    }

    method CurrentFrameFlag() returns (flags: Flags)
      ensures flags == FlagsFor(argsFragmenter.args)
    {
      if argsFragmenter.args == [] {
        return NO_FLAGS;
      }
      return MORE_FRAGMENTS_FOLLOW;
    }
  }
}

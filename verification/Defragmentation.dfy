/** Rebuilding the argument list from the slots of the arriving frames. */
module Defragmentation {
  import opened Basics
  import opened Frames
  import opened Payloads
  import opened ArgSchemes
  import PayloadCodec

  function ArgOf(slot: Slot): Bytes { if slot.Some? then slot.value else [] }

  function ArgsOf(slots: seq<Slot>): seq<Bytes> {
    seq(|slots|, i requires 0 <= i < |slots| => ArgOf(slots[i]))
  }

  /** Appends `more` to the last argument; without one it becomes the first argument. */
  function Glue(args: seq<Bytes>, more: Bytes): seq<Bytes> {
    if args == [] then [more] else args[..|args| - 1] + [args[|args| - 1] + more]
  }

  /** A frame's first slot continues the argument before it, unless it is empty. */
  function AddFrame(args: seq<Bytes>, slots: seq<Slot>): seq<Bytes> {
    if slots == [] then args
    else
      (match slots[0]
       case Some(fragment) => Glue(args, fragment)
       case None => args + [[]]) + ArgsOf(slots[1..])
  }

  function AddFrames(args: seq<Bytes>, frames: seq<seq<Slot>>): seq<Bytes>
    decreases |frames|
  {
    if frames == [] then args else AddFrames(AddFrame(args, frames[0]), frames[1..])
  }

  class ArgsDefragmenter {
    var args: seq<Bytes>

    constructor ()
      ensures args == []
    {
      args := [];
    }

    method Add(frameArgs: seq<Slot>)
      modifies this
      ensures args == AddFrame(old(args), frameArgs)
    {
      if frameArgs == [] {
        return;
      }
      AddFirstArg(frameArgs[0]);
      AddRemainingArgs(frameArgs[1..]);
    }

    method AddFirstArg(frameArg: Slot)
      modifies this
      ensures args == match frameArg
                      case Some(fragment) => Glue(old(args), fragment)
                      case None => old(args) + [[]]
    {
      match frameArg {
        case Some(fragment) =>
          if args == [] {
            args := args + [fragment];
          } else {
            var previous := args[|args| - 1];
            args := args[..|args| - 1];
            args := args + [previous + fragment];
          }
        case None =>
          args := args + [[]];
      }
    }

    method AddRemainingArgs(frameArgs: seq<Slot>)
      modifies this
      ensures args == old(args) + ArgsOf(frameArgs)
    {
      for i := 0 to |frameArgs|
        invariant args == old(args) + ArgsOf(frameArgs[..i])
      {
        args := args + [ArgOf(frameArgs[i])];
        assert ArgsOf(frameArgs[..i + 1]) == ArgsOf(frameArgs[..i]) + [ArgOf(frameArgs[i])];
        Assoc(old(args), ArgsOf(frameArgs[..i]), [ArgOf(frameArgs[i])]);
      }
      assert frameArgs[..|frameArgs|] == frameArgs;
    }

    /** Hands the arguments over; the slots keep nothing of them. */
    method Args() returns (r: seq<Bytes>)
      modifies this
      ensures r == old(args)
      ensures |args| == |old(args)| && forall i :: 0 <= i < |args| ==> args[i] == []
    {
      r := args;
      args := seq(|args|, _ => []);
    }
  }

  datatype MessageArgs = MessageArgs(scheme: ArgScheme, args: seq<Bytes>)

  /** How far the reader of one message has got. */
  datatype Reader =
    | Start
    | Collecting(fields: Fields, scheme: ArgScheme, args: seq<Bytes>)
    | Finished(fields: Fields, scheme: ArgScheme, args: seq<Bytes>)
    | Failed(error: Failure)
  {
    predicate Pending() { Start? || Collecting? }
  }

  function ReadFirst(kind: Kind, expected: Option<ArgScheme>, frame: TFrame): Reader {
    if frame.frameType != FirstType(kind) then Failed(ChannelError)
    else
      match DecodeCall(kind, frame.payload)
      case Err(e) => Failed(e)
      case Ok(call) =>
        if call.args.checksumType != NoChecksum then Failed(Panic)
        else
          match CheckScheme(call.fields.headers, expected)
          case Err(e) => Failed(e)
          case Ok(scheme) =>
            var args := AddFrame([], call.args.args);
            if HasMore(call.flags) then Collecting(call.fields, scheme, args)
            else Finished(call.fields, scheme, args)
  }

  function ReadNext(r: Reader, frame: TFrame): Reader
    requires r.Collecting?
  {
    if frame.frameType != CallResponseContinue && frame.frameType != CallRequestContinue then Failed(ChannelError)
    else
      match DecodeContinue(frame.payload)
      case Err(e) => Failed(e)
      case Ok(continuation) =>
        if continuation.args.checksumType != NoChecksum then Failed(Panic)
        else
          var args := AddFrame(r.args, continuation.args.args);
          if HasMore(continuation.flags) then Collecting(r.fields, r.scheme, args)
          else Finished(r.fields, r.scheme, args)
  }

  function Read(kind: Kind, expected: Option<ArgScheme>, r: Reader, frame: TFrame): Reader {
    match r
    case Start => ReadFirst(kind, expected, frame)
    case Collecting(_, _, _) => ReadNext(r, frame)
    case _ => r
  }

  function ReadAll(kind: Kind, expected: Option<ArgScheme>, r: Reader, frames: seq<TFrameId>): Reader
    decreases |frames|
  {
    if frames == [] then r
    else ReadAll(kind, expected, Read(kind, expected, r, frames[0].frame), frames[1..])
  }

  /** Receives until the message is complete, broken, or the channel is closed and empty. */
  function ReadFrom(kind: Kind, expected: Option<ArgScheme>, r: Reader, queue: seq<TFrameId>): (Reader, seq<TFrameId>)
    decreases |queue|
  {
    if queue == [] || !r.Pending() then (r, queue)
    else ReadFrom(kind, expected, Read(kind, expected, r, queue[0].frame), queue[1..])
  }

  /** What the caller is told. A message cut short by the closing of its channel after the
      first frame is reported as complete. */
  function Outcome(r: Reader): (o: Result<(Fields, MessageArgs)>)
    ensures o.Ok? <==> r.Collecting? || r.Finished?
    ensures o.Ok? ==> o.value.0 == r.fields && o.value.1.scheme == r.scheme && o.value.1.args == r.args
  {
    match r
    case Start => Err(ChannelError)
    case Failed(e) => Err(e)
    case Collecting(fields, scheme, args) => Ok((fields, MessageArgs(scheme, args)))
    case Finished(fields, scheme, args) => Ok((fields, MessageArgs(scheme, args)))
  }

  /** The receiving end of a channel whose senders are gone: once `queue` is empty it is closed. */
  class FrameInput {
    var queue: seq<TFrameId>

    constructor (queue: seq<TFrameId>)
      ensures this.queue == queue
    {
      this.queue := queue;
    }

    method Recv() returns (r: Option<TFrameId>)
      modifies this
      ensures old(queue) == [] ==> r == None && queue == []
      ensures old(queue) != [] ==> r == Some(old(queue)[0]) && queue == old(queue)[1..]
    {
      if queue == [] {
        return None;
      }
      r := Some(queue[0]);
      queue := queue[1..];
    }
  }

  class Defragmenter {
    const frameInput: FrameInput

    constructor (frameInput: FrameInput)
      ensures this.frameInput == frameInput
    {
      this.frameInput := frameInput;
    }

    method ReadAndCheck(kind: Kind, expected: Option<ArgScheme>) returns (r: Result<(Fields, MessageArgs)>)
      modifies frameInput
      ensures var (reader, rest) := ReadFrom(kind, expected, Start, old(frameInput.queue));
              r == Outcome(reader) && frameInput.queue == rest
    {
      hide DecodeCall, DecodeContinue, AddFrame, CheckScheme;
      var argsDefragmenter := new ArgsDefragmenter();
      var beginning :- ReadBeginning(kind, argsDefragmenter);
      var (fields, flags) := beginning;
      var scheme :- CheckScheme(fields.headers, expected);
      if !HasMore(flags) {
        var args := argsDefragmenter.Args();
        return Ok((fields, MessageArgs(scheme, args)));
      }
      var _ :- ReadContinuation(frameInput, argsDefragmenter, kind, expected, fields, scheme);
      var args := argsDefragmenter.Args();
      return Ok((fields, MessageArgs(scheme, args)));
    }

    method ReadBeginning(kind: Kind, argsDefragmenter: ArgsDefragmenter) returns (r: Result<(Fields, Flags)>)
      modifies frameInput, argsDefragmenter
      ensures var queue := old(frameInput.queue);
              if queue == [] then r == Err(ChannelError) && frameInput.queue == []
              else
                && frameInput.queue == queue[1..]
                && var frame := queue[0].frame;
                   if frame.frameType != FirstType(kind) then r == Err(ChannelError)
                   else match DecodeCall(kind, frame.payload)
                        case Err(e) => r == Err(e)
                        case Ok(call) =>
                          if call.args.checksumType != NoChecksum then r == Err(Panic)
                          else r == Ok((call.fields, call.flags)) &&
                               argsDefragmenter.args == AddFrame(old(argsDefragmenter.args), call.args.args)
    {
      hide DecodeCall, AddFrame;
      var received := frameInput.Recv();
      if received == None {
        return Err(ChannelError);
      }
      var frame := received.value.frame;
      if frame.frameType != FirstType(kind) {
        return Err(ChannelError);
      }
      var payload := new BytesMut(frame.payload);
      var call :- PayloadCodec.DecodeCallBytes(kind, payload);
      if call.args.checksumType != NoChecksum {
        return Err(Panic);
      }
      argsDefragmenter.Add(call.args.args);
      return Ok((call.fields, call.flags));
    }

    /** The loop over the remaining frames; the ghost parameters only name the reader's state. */
    static method ReadContinuation(frameInput: FrameInput, argsDefragmenter: ArgsDefragmenter, ghost kind: Kind,
        ghost expected: Option<ArgScheme>, ghost fields: Fields, ghost scheme: ArgScheme)
      returns (r: Result<()>)
      modifies frameInput, argsDefragmenter
      ensures var (reader, rest) :=
                ReadFrom(kind, expected, Collecting(fields, scheme, old(argsDefragmenter.args)), old(frameInput.queue));
              && frameInput.queue == rest
              && match reader
                 case Start => false
                 case Failed(e) => r == Err(e)
                 case Collecting(f, s, args) => r.Ok? && f == fields && s == scheme && argsDefragmenter.args == args
                 case Finished(f, s, args) => r.Ok? && f == fields && s == scheme && argsDefragmenter.args == args
    {
      hide DecodeContinue, AddFrame;
      while true
        invariant ReadFrom(kind, expected, Collecting(fields, scheme, argsDefragmenter.args), frameInput.queue)
               == ReadFrom(kind, expected, Collecting(fields, scheme, old(argsDefragmenter.args)), old(frameInput.queue))
        decreases |frameInput.queue|
      {
        var received := frameInput.Recv();
        if received == None {
          return Ok(());
        }
        var frame := received.value.frame;
        match frame.frameType {
          case CallResponseContinue | CallRequestContinue =>
            var payload := new BytesMut(frame.payload);
            var continuation :- PayloadCodec.DecodeContinueBytes(payload);
            if continuation.args.checksumType != NoChecksum {
              return Err(Panic);
            }
            argsDefragmenter.Add(continuation.args.args);
            if !HasMore(continuation.flags) {
              return Ok(());
            }
          case _ =>
            return Err(ChannelError);
        }
      }
    }
  }
}

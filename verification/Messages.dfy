/** Raw messages on top of the argument lists. */
module Messages {
  import opened Basics
  import opened Frames
  import opened Payloads
  import opened ArgSchemes
  import opened Fragmentation
  import opened Defragmentation
  import opened Reassembly

  datatype RawMessage = RawMessage(endpoint: Str, header: Str, body: Bytes)

  function ToArgs(m: RawMessage): MessageArgs {
    MessageArgs(Raw, [m.endpoint, m.header, m.body])
  }

  /** A missing argument counts as empty. */
  function ArgAt(args: seq<Bytes>, i: nat): Bytes { if i < |args| then args[i] else [] }

  /** Arguments beyond the third are ignored. */
  function FromArgs(a: MessageArgs): Result<RawMessage> {
    if a.scheme != Raw then Err(CodecError)
    else if !IsUtf8(ArgAt(a.args, 0)) || !IsUtf8(ArgAt(a.args, 1)) then Err(CodecError)
    else Ok(RawMessage(ArgAt(a.args, 0), ArgAt(a.args, 1), ArgAt(a.args, 2)))
  }

  method PopFront(deque: seq<Bytes>) returns (front: Option<Bytes>, rest: seq<Bytes>)
    ensures deque == [] ==> front == None && rest == []
    ensures deque != [] ==> front == Some(deque[0]) && rest == deque[1..]
  {
    if deque == [] {
      return None, [];
    }
    return Some(deque[0]), deque[1..];
  }

  method BytesToString(arg: Option<Bytes>) returns (r: Result<Str>)
    ensures var b := if arg.Some? then arg.value else [];
            r == if IsUtf8(b) then Ok(b) else Err(CodecError)
  {
    match arg {
      case None => return Ok([]);
      case Some(b) =>
        if !IsUtf8(b) {
          return Err(CodecError);
        }
        return Ok(b);
    }
  }

  /** Another scheme, and text that is not UTF-8, are refused; otherwise the three fields are
      the first three arguments, empty where missing. */
  method TryFrom(a: MessageArgs) returns (r: Result<RawMessage>)
    ensures r == FromArgs(a)
    ensures a.scheme != Raw ==> r == Err(CodecError)
    ensures r.Err? ==> r == Err(CodecError)
    ensures var arg := i => if 0 <= i < |a.args| then a.args[i] else [];
            && (r.Ok? <==> a.scheme == Raw && IsUtf8(arg(0)) && IsUtf8(arg(1)))
            && (r.Ok? ==> r.value.endpoint == arg(0) && r.value.header == arg(1) && r.value.body == arg(2))
  {
    hide IsUtf8;
    var deque := a.args;
    if a.scheme != Raw {
      return Err(CodecError);
    }
    var arg;
    arg, deque := PopFront(deque);
    var endpoint :- BytesToString(arg);
    arg, deque := PopFront(deque);
    var header :- BytesToString(arg);
    arg, deque := PopFront(deque);
    return Ok(RawMessage(endpoint, header, if arg.Some? then arg.value else []));
  }

  predicate AllEmpty(args: seq<Bytes>) { forall i :: 0 <= i < |args| ==> args[i] == [] }

  /** No argument starves, and all those after one that fills a frame are empty. */
  predicate Harmless(args: seq<Bytes>, room: int, budget: int)
    requires budget >= 3
  {
    args == [] ||
    (&& !Starves(|args[0]|, room)
     && if FillsFrame(|args[0]|, room, budget) then AllEmpty(args[1..])
        else Harmless(args[1..], RoomAfter(|args[0]|, room, budget), budget))
  }

  /** Position by position, and up to trailing empty arguments, `got` is `args`. */
  ghost predicate ReadsAs(got: seq<Bytes>, args: seq<Bytes>) {
    forall i :: 0 <= i < |args| ==> ArgAt(got, i) == args[i]
  }

  lemma {:induction false} MarkerShifts(base: seq<Bytes>, args: seq<Bytes>, room: int, budget: int)
    requires budget >= 3 && room >= ARG_LEN_LEN * |args|
    ensures ReadsAs(Arrives(base + [[]], args, room, budget), base + args) <==> AllEmpty(args)
    decreases |args|
  {
    var r := Arrives(base + [[]], args, room, budget);
    if args == [] {
      assert base + args == base;
    } else {
      var arg := args[0];
      if arg == [] {
        LandsInside(0, room, budget);
        assert Place(base + [[]], arg, room, budget) == base + [[]] + [[]];
        MarkerShifts(base + [[]], args[1..], room - ARG_LEN_LEN, budget);
        assert base + args == base + [[]] + args[1..];
        assert AllEmpty(args) <==> AllEmpty(args[1..]) by {
          assert forall i :: 0 < i < |args| ==> args[i] == args[1..][i - 1];
        }
      } else {
        var next := Place(base + [[]], arg, room, budget);
        ArrivesKeeps(next, args[1..], RoomAfter(|arg|, room, budget), budget);
        var m := |next| - 1;
        assert next[..m][|base|] == r[..m][|base|] == [];
        assert (base + args)[|base|] == arg;
        assert ArgAt(r, |base|) == [];
      }
    }
  }

  lemma {:induction false} ReadsAsIff(sofar: seq<Bytes>, args: seq<Bytes>, room: int, budget: int)
    requires budget >= ARG_LEN_LEN * |args| + 3
    requires sofar != [] || room >= ARG_LEN_LEN
    ensures ReadsAs(Arrives(sofar, args, room, budget), sofar + args) <==> Harmless(args, room, budget)
    decreases |args|
  {
    hide Excess, RoomAfter, FillsFrame;
    if args == [] {
      assert sofar + args == sofar;
    } else {
      var arg := args[0];
      var next := Place(sofar, arg, room, budget);
      var r := Arrives(sofar, args, room, budget);
      assert sofar + args == sofar + [arg] + args[1..];
      if Starves(|arg|, room) {
        var k := |sofar| - 1;
        ArrivesKeeps(next, args[1..], RoomAfter(|arg|, room, budget), budget);
        assert next[k] == sofar[k] + arg && (sofar + args)[k] == sofar[k];
        var m := |next| - 1;
        if k < m {
          assert r[k] == r[..m][k] == next[..m][k];
        }
        assert |r[k]| > |sofar[k]|;
        assert ArgAt(r, k) == r[k];
      } else if FillsFrame(|arg|, room, budget) {
        RoomAfterFilling(|arg|, room, budget);
        MarkerShifts(sofar + [arg], args[1..], budget - ARG_LEN_LEN, budget);
      } else {
        assert next == sofar + [arg];
        ReadsAsIff(next, args[1..], RoomAfter(|arg|, room, budget), budget);
      }
    }
  }

  lemma FromArgsIff(got: seq<Bytes>, m: RawMessage)
    ensures FromArgs(MessageArgs(Raw, got)) == Ok(m) <==> ReadsAs(got, ToArgs(m).args)
  {
    hide IsUtf8;
    var args := ToArgs(m).args;
    assert args[0] == m.endpoint && args[1] == m.header && args[2] == m.body;
  }

  /** A raw message comes back unchanged exactly when none of its three arguments starves and
      every argument after one that fills a frame is empty. The third may always fill one. */
  lemma RawMessageSurvivesIff(m: RawMessage, first: int, budget: int)
    requires first >= ARG_LEN_LEN && budget >= 9
    ensures FromArgs(MessageArgs(Raw, AddFrames([], MessageSlots(ToArgs(m).args, first, budget)))) == Ok(m)
       <==> Harmless(ToArgs(m).args, first, budget)
  {
    hide Harmless, Arrives, AddFrames, MessageSlots, FromArgs, ReadsAs;
    var args := ToArgs(m).args;
    ReassemblyLaw(args, first, budget);
    ReadsAsIff([], args, first, budget);
    assert [] + args == args;
    FromArgsIff(Arrives([], args, first, budget), m);
  }
}

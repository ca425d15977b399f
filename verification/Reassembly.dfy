/** What the receiver makes of the frames the sender cuts. */
module Reassembly {
  import opened Basics
  import opened Frames
  import opened Payloads
  import opened Fragmentation
  import opened Defragmentation

  // Where an argument of `len` bytes ends, by arithmetic on lengths alone. `room` is the
  // budget left in the frame that reaches the argument and `budget` that of later frames.

  /** Reached with too little room for even its length field, a non-empty argument sends
      nothing in this frame. */
  predicate Starves(len: nat, room: int) { len > 0 && room < ARG_LEN_LEN }

  /** An empty argument is sent even then, and overruns the frame. */
  predicate Overruns(len: nat, room: int) { len == 0 && room < ARG_LEN_LEN }

  /** Bytes the argument still has to send after the frame where it starts; negative when it
      ends there with that much room to spare. */
  function Excess(len: nat, room: int, budget: int): int {
    len - ((if room < ARG_LEN_LEN then budget else room) - ARG_LEN_LEN)
  }

  /** The argument ends exactly where a frame ends. */
  predicate FillsFrame(len: nat, room: int, budget: int)
    requires budget >= 3
  {
    len > 0 && Excess(len, room, budget) >= 0 &&
    Excess(len, room, budget) % (budget - ARG_LEN_LEN) == 0
  }

  /** Room left for the next argument. */
  function RoomAfter(len: nat, room: int, budget: int): int
    requires budget >= 3
  {
    var excess := Excess(len, room, budget);
    if len == 0 then room - ARG_LEN_LEN
    else if excess < 0 then -excess
    else budget - ARG_LEN_LEN - excess % (budget - ARG_LEN_LEN)
  }

  /** `sofar` after one more argument: glued on if it starves, and followed by an empty
      argument if it fills a frame. */
  function Place(sofar: seq<Bytes>, arg: Bytes, room: int, budget: int): seq<Bytes>
    requires budget >= 3
  {
    (if Starves(|arg|, room) then Glue(sofar, arg) else sofar + [arg]) +
    (if FillsFrame(|arg|, room, budget) then [[]] else [])
  }

  /** The list the receiver ends up with: `args`, with an empty argument inserted after each
      one that fills a frame and each starved one glued to its predecessor. */
  function Arrives(sofar: seq<Bytes>, args: seq<Bytes>, room: int, budget: int): seq<Bytes>
    requires budget >= 3
    decreases |args|
  {
    if args == [] then sofar
    else Arrives(Place(sofar, args[0], room, budget), args[1..], RoomAfter(|args[0]|, room, budget), budget)
  }

  lemma Distribute(m: int, a: int, b: int)
    ensures m * (a + b) == m * a + m * b
  {
  }

  lemma MulAtLeast(m: int, k: int)
    requires m > 0 && k >= 1
    ensures m * k >= m
  {
  }

  lemma DivModUnique(n: int, m: int, q: int, r: int)
    requires m > 0 && 0 <= r < m && n == m * q + r
    ensures n % m == r
  {
    var p := n / m;
    assert n == m * p + n % m;
    if q > p {
      Distribute(m, p, q - p);
      MulAtLeast(m, q - p);
    } else if q < p {
      Distribute(m, q, p - q);
      MulAtLeast(m, p - q);
    }
  }

  lemma ModStep(x: nat, m: int)
    requires m > 0
    ensures (x + m) % m == x % m
  {
    Distribute(m, x / m, 1);
    DivModUnique(x + m, m, x / m + 1, x % m);
  }

  /** An argument that ends inside the frame. */
  lemma LandsInside(len: nat, room: int, budget: int)
    requires budget >= 3 && (len == 0 || len < room - ARG_LEN_LEN)
    ensures !Starves(len, room) && !FillsFrame(len, room, budget)
    ensures RoomAfter(len, room, budget) == room - ARG_LEN_LEN - len
  {
  }

  /** An argument cut at the frame's end lands where its second part does when that part
      opens a frame; without a second part there is only the marker to send. */
  lemma LandsAfterCut(len: nat, room: int, budget: int)
    requires budget >= 3 && room >= ARG_LEN_LEN && len > 0 && len >= room - ARG_LEN_LEN
    ensures var left := len - (room - ARG_LEN_LEN);
            && FillsFrame(len, room, budget) == (left == 0 || FillsFrame(left, 0, budget))
            && RoomAfter(len, room, budget)
               == if left == 0 then budget - ARG_LEN_LEN else RoomAfter(left, 0, budget)
  {
    var left := len - (room - ARG_LEN_LEN);
    var period := budget - ARG_LEN_LEN;
    if left >= period {
      ModStep(left - period, period);
    } else {
      DivModUnique(left, period, 0, left);
    }
  }

  /** A starved argument lands as if it opened the next frame. */
  lemma LandsAfterStarving(len: nat, room: int, budget: int)
    requires budget >= 3 && Starves(len, room)
    ensures FillsFrame(len, room, budget) == FillsFrame(len, 0, budget) == FillsFrame(len, budget, budget)
    ensures RoomAfter(len, room, budget) == RoomAfter(len, 0, budget) == RoomAfter(len, budget, budget)
  {
  }

  lemma GlueTwice(args: seq<Bytes>, a: Bytes, b: Bytes)
    ensures Glue(Glue(args, a), b) == Glue(args, a + b)
    ensures Glue(args + [a], b) == args + [a + b]
  {
    if args != [] {
      Assoc(args[|args| - 1], a, b);
    }
  }

  lemma ArgsOfCons(slot: Slot, slots: seq<Slot>, sofar: seq<Bytes>)
    ensures sofar + ArgsOf([slot] + slots) == sofar + [ArgOf(slot)] + ArgsOf(slots)
    ensures AddFrame(sofar, [slot] + slots)
         == (if slot.Some? then Glue(sofar, slot.value) else sofar + [[]]) + ArgsOf(slots)
  {
    assert ArgsOf([slot] + slots) == [ArgOf(slot)] + ArgsOf(slots);
    assert ([slot] + slots)[1..] == slots;
  }

  /** One argument at a time, for an argument that opens a frame. */
  lemma ArrivesAtStart(sofar: seq<Bytes>, head: Bytes, tail: seq<Bytes>, budget: int)
    requires budget >= 3
    ensures Arrives(sofar, [head] + tail, if head == [] then budget else 0, budget)
         == if head == [] then Arrives(sofar + [[]], tail, budget - ARG_LEN_LEN, budget)
            else Arrives(Glue(sofar, head) + (if FillsFrame(|head|, 0, budget) then [[]] else []),
                         tail, RoomAfter(|head|, 0, budget), budget)
  {
    assert ([head] + tail)[1..] == tail;
    if head == [] {
      LandsInside(0, budget, budget);
      assert sofar + [[]] + [] == sofar + [[]];
    }
  }

  /** An argument cut by a frame's end arrives whole: `before` ends with its first part, and
      the rest of it, or the marker, opens the next frame. */
  lemma CutArrives(before: seq<Bytes>, arg: Bytes, tail: seq<Bytes>, room: int, budget: int)
    requires budget >= 3 && before != []
    requires arg != [] && ARG_LEN_LEN <= room && |arg| >= room - ARG_LEN_LEN
    ensures var y := arg[room - ARG_LEN_LEN..];
            Arrives(before, [y] + tail, if y == [] then budget else 0, budget) ==
            Arrives(Glue(before, y) + (if FillsFrame(|arg|, room, budget) then [[]] else []),
                    tail, RoomAfter(|arg|, room, budget), budget)
  {
    hide Excess, FillsFrame, RoomAfter;
    var y := arg[room - ARG_LEN_LEN..];
    ArrivesAtStart(before, y, tail, budget);
    LandsAfterCut(|arg|, room, budget);
    if y == [] {
      assert before[|before| - 1] + [] == before[|before| - 1];
      assert Glue(before, y) == before;
    }
  }

  /** Inside a frame: the slots not yet read, and then the later frames. */
  lemma {:induction false} MidFrame(sofar: seq<Bytes>, args: seq<Bytes>, room: int, budget: int)
    requires budget >= 3
    ensures AddFrames(sofar + ArgsOf(TakeFrame(args, room).slots), ContinueSlots(TakeFrame(args, room).rest, budget))
         == Arrives(sofar, args, room, budget)
    decreases Work(args), 1
  {
    hide Excess, FillsFrame, RoomAfter, TakeFrame, ContinueSlots, AddFrames;
    if args == [] {
      TakeNothing(sofar, room, budget);
    } else {
      var arg := args[0];
      if arg == [] || |arg| < room - ARG_LEN_LEN {
        TakeFrameWhole(args, room);
        LandsInside(|arg|, room, budget);
        ArgsOfCons(SlotOf(arg), TakeFrame(args[1..], room - ARG_LEN_LEN - |arg|).slots, sofar);
        MidFrame(sofar + [arg], args[1..], room - ARG_LEN_LEN - |arg|, budget);
        assert Place(sofar, arg, room, budget) == sofar + [arg];
      } else if room < ARG_LEN_LEN {
        TakeFrameCut(args, room);
        assert sofar + ArgsOf([]) == sofar;
        FrameStart(sofar, args, budget);
        LandsAfterStarving(|arg|, room, budget);
      } else {
        var x, y := arg[..room - ARG_LEN_LEN], arg[room - ARG_LEN_LEN..];
        TakeFrameCut(args, room);
        assert ArgsOf([SlotOf(x)]) == [x];
        WorkCons(y, args[1..]);
        FrameStart(sofar + [x], [y] + args[1..], budget);
        CutArrives(sofar + [x], arg, args[1..], room, budget);
        GlueTwice(sofar, x, y);
        assert arg == x + y;
      }
    }
  }

  lemma TakeNothing(sofar: seq<Bytes>, room: int, budget: int)
    requires budget >= 3
    ensures AddFrames(sofar + ArgsOf(TakeFrame([], room).slots), ContinueSlots(TakeFrame([], room).rest, budget)) == sofar
  {
    assert sofar + ArgsOf([]) == sofar;
  }

  lemma AddFramesStep(sofar: seq<Bytes>, args: seq<Bytes>, budget: int)
    requires budget >= 3 && args != []
    ensures var t := TakeFrame(args, budget);
            AddFrames(sofar, ContinueSlots(args, budget))
            == AddFrames(AddFrame(sofar, t.slots), ContinueSlots(t.rest, budget))
  {
  }

  /** At the start of a continuation frame, where a non-empty head continues the last argument. */
  lemma {:induction false} FrameStart(sofar: seq<Bytes>, args: seq<Bytes>, budget: int)
    requires budget >= 3 && args != []
    ensures AddFrames(sofar, ContinueSlots(args, budget))
         == Arrives(sofar, args, if args[0] == [] then budget else 0, budget)
    decreases Work(args), 0
  {
    hide Excess, FillsFrame, RoomAfter, TakeFrame, ContinueSlots, AddFrames, Arrives, AddFrame;
    var arg := args[0];
    assert args == [arg] + args[1..];
    ArrivesAtStart(sofar, arg, args[1..], budget);
    AddFramesStep(sofar, args, budget);
    if arg == [] || |arg| < budget - ARG_LEN_LEN {
      TakeFrameWhole(args, budget);
      var room := budget - ARG_LEN_LEN - |arg|;
      ArgsOfCons(SlotOf(arg), TakeFrame(args[1..], room).slots, sofar);
      if arg == [] {
        MidFrame(sofar + [[]], args[1..], room, budget);
      } else {
        MidFrame(Glue(sofar, arg), args[1..], room, budget);
        LandsInside(|arg|, budget, budget);
        LandsAfterStarving(|arg|, 0, budget);
        assert Glue(sofar, arg) + [] == Glue(sofar, arg);
      }
    } else {
      var x, y := arg[..budget - ARG_LEN_LEN], arg[budget - ARG_LEN_LEN..];
      TakeFrameCut(args, budget);
      ArgsOfCons(SlotOf(x), [], sofar);
      assert AddFrame(sofar, [SlotOf(x)]) == Glue(sofar, x) by {
        assert [SlotOf(x)] + [] == [SlotOf(x)];
        assert Glue(sofar, x) + ArgsOf([]) == Glue(sofar, x);
      }
      WorkCons(y, args[1..]);
      FrameStart(Glue(sofar, x), [y] + args[1..], budget);
      CutArrives(Glue(sofar, x), arg, args[1..], budget, budget);
      GlueTwice(sofar, x, y);
      assert arg == x + y;
      LandsAfterStarving(|arg|, 0, budget);
    }
  }

  lemma FirstFrameAdds(slots: seq<Slot>)
    ensures AddFrame([], slots) == [] + ArgsOf(slots)
  {
    if slots != [] {
      ArgsOfCons(slots[0], slots[1..], []);
      assert slots == [slots[0]] + slots[1..];
    }
  }

  /** The exact reassembly law. Whatever the arguments and budgets, the receiver of the frames
      holds the arguments with an empty one inserted after each that fills a frame, and each
      starved one glued to its predecessor. */
  lemma ReassemblyLaw(args: seq<Bytes>, first: int, budget: int)
    requires budget >= 3
    ensures AddFrames([], MessageSlots(args, first, budget)) == Arrives([], args, first, budget)
  {
    hide TakeFrame, Arrives, AddFrame, ContinueSlots;
    MidFrame([], args, first, budget);
    FirstFrameAdds(TakeFrame(args, first).slots);
  }

  // Consequences of the law

  lemma FlattenPlace(sofar: seq<Bytes>, arg: Bytes, room: int, budget: int)
    requires budget >= 3
    ensures Flatten(Place(sofar, arg, room, budget)) == Flatten(sofar) + arg
  {
    hide Flatten, FillsFrame;
    FlattenGlue(sofar, arg);
    FlattenConcat(sofar, [arg]);
    FlattenOne(arg);
    FlattenOne([]);
    var placed := if Starves(|arg|, room) then Glue(sofar, arg) else sofar + [arg];
    FlattenConcat(placed, [[]]);
    assert placed + [] == placed;
    assert Flatten(sofar) + arg + [] == Flatten(sofar) + arg;
  }

  lemma FlattenOne(b: Bytes)
    ensures Flatten([b]) == b
  {
  }

  lemma FlattenGlue(sofar: seq<Bytes>, arg: Bytes)
    ensures Flatten(Glue(sofar, arg)) == Flatten(sofar) + arg
  {
    if sofar != [] {
      var init, last := sofar[..|sofar| - 1], sofar[|sofar| - 1];
      FlattenConcat(init, [last]);
      FlattenConcat(init, [last + arg]);
      FlattenOne(last);
      FlattenOne(last + arg);
      assert sofar == init + [last];
      Assoc(Flatten(init), last, arg);
    }
  }

  lemma {:induction false} ArrivesConserves(sofar: seq<Bytes>, args: seq<Bytes>, room: int, budget: int)
    requires budget >= 3
    ensures Flatten(Arrives(sofar, args, room, budget)) == Flatten(sofar) + Flatten(args)
    decreases |args|
  {
    if args != [] {
      var next := RoomAfter(|args[0]|, room, budget);
      ArrivesConserves(Place(sofar, args[0], room, budget), args[1..], next, budget);
      FlattenPlace(sofar, args[0], room, budget);
      Assoc(Flatten(sofar), args[0], Flatten(args[1..]));
    }
  }

  /** No byte is lost, added or moved, boundary cases included. */
  lemma ByteConservation(args: seq<Bytes>, first: int, budget: int)
    requires budget >= 3
    ensures Flatten(AddFrames([], MessageSlots(args, first, budget))) == Flatten(args)
  {
    ReassemblyLaw(args, first, budget);
    ArrivesConserves([], args, first, budget);
  }

  /** No argument starves and none fills a frame: arithmetic on the lengths decides. */
  predicate Undisturbed(args: seq<Bytes>, room: int, budget: int)
    requires budget >= 3
  {
    args == [] ||
    (&& !Starves(|args[0]|, room)
     && !FillsFrame(|args[0]|, room, budget)
     && Undisturbed(args[1..], RoomAfter(|args[0]|, room, budget), budget))
  }

  /** What has arrived stays, except that the last argument may still grow. */
  lemma {:induction false} ArrivesKeeps(sofar: seq<Bytes>, args: seq<Bytes>, room: int, budget: int)
    requires budget >= 3 && sofar != []
    ensures var r, k := Arrives(sofar, args, room, budget), |sofar| - 1;
            |r| > k && r[..k] == sofar[..k] && sofar[k] <= r[k]
    decreases |args|
  {
    if args != [] {
      var next := Place(sofar, args[0], room, budget);
      ArrivesKeeps(next, args[1..], RoomAfter(|args[0]|, room, budget), budget);
      var r, k := Arrives(sofar, args, room, budget), |sofar| - 1;
      assert next[..k] == sofar[..k] && sofar[k] <= next[k] && |next| - 1 >= k;
      var m := |next| - 1;
      if k < m {
        assert r[..m][..k] == r[..k] && next[..m][..k] == next[..k];
        assert r[k] == r[..m][k] == next[..m][k];
      }
    }
  }

  /** A marker in front of the remaining arguments is noticed, however many of those are empty. */
  lemma {:induction false} MarkerShows(base: seq<Bytes>, args: seq<Bytes>, room: int, budget: int)
    requires budget >= 3 && room >= ARG_LEN_LEN * |args|
    ensures Arrives(base + [[]], args, room, budget) != base + args
    decreases |args|
  {
    if args != [] {
      var arg := args[0];
      if arg == [] {
        LandsInside(0, room, budget);
        assert Place(base + [[]], arg, room, budget) == base + [[]] + [[]];
        MarkerShows(base + [[]], args[1..], room - ARG_LEN_LEN, budget);
        assert base + args == base + [[]] + args[1..];
      } else {
        var next := Place(base + [[]], arg, room, budget);
        ArrivesKeeps(next, args[1..], RoomAfter(|arg|, room, budget), budget);
        var r := Arrives(base + [[]], args, room, budget);
        var m := |next| - 1;
        assert next[..m][|base|] == r[..m][|base|] == [];
        assert (base + args)[|base|] == arg;
      }
    }
  }

  lemma {:induction false} ArrivesUnchanged(sofar: seq<Bytes>, args: seq<Bytes>, room: int, budget: int)
    requires budget >= ARG_LEN_LEN * |args| + 3
    requires sofar != [] || room >= ARG_LEN_LEN
    ensures Arrives(sofar, args, room, budget) == sofar + args <==> Undisturbed(args, room, budget)
    decreases |args|
  {
    hide Excess, RoomAfter, FillsFrame;
    if args == [] {
      assert sofar + args == sofar;
    } else {
      var arg := args[0];
      var next := Place(sofar, arg, room, budget);
      var r := Arrives(sofar, args, room, budget);
      if Starves(|arg|, room) {
        var k := |sofar| - 1;
        ArrivesKeeps(next, args[1..], RoomAfter(|arg|, room, budget), budget);
        assert next[k] == sofar[k] + arg && (sofar + args)[k] == sofar[k];
        var m := |next| - 1;
        if k < m {
          assert r[k] == r[..m][k] == next[..m][k];
        }
        assert |r[k]| > |sofar[k]|;
      } else if FillsFrame(|arg|, room, budget) {
        RoomAfterFilling(|arg|, room, budget);
        MarkerShows(sofar + [arg], args[1..], budget - ARG_LEN_LEN, budget);
        assert sofar + args == sofar + [arg] + args[1..];
      } else {
        assert next == sofar + [arg];
        ArrivesUnchanged(next, args[1..], RoomAfter(|arg|, room, budget), budget);
        assert sofar + args == sofar + [arg] + args[1..];
      }
    }
  }

  lemma RoomAfterFilling(len: nat, room: int, budget: int)
    requires budget >= 3 && FillsFrame(len, room, budget)
    ensures RoomAfter(len, room, budget) == budget - ARG_LEN_LEN
  {
  }

  /** The round trip is the identity exactly when no argument starves and none fills a frame. */
  lemma RoundTripIff(args: seq<Bytes>, first: int, budget: int)
    requires first >= ARG_LEN_LEN && budget >= ARG_LEN_LEN * |args| + 3
    ensures AddFrames([], MessageSlots(args, first, budget)) == args <==> Undisturbed(args, first, budget)
  {
    ReassemblyLaw(args, first, budget);
    ArrivesUnchanged([], args, first, budget);
    assert [] + args == args;
  }
}

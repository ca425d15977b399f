/** Multiplexing: the map from message ids to channels, and the frames routed over it. */
module Dispatching {
  import opened Basics
  import opened Frames

  /** A bounded queue of frames for one message. `open` says that its receiver still exists;
      `taken` records what the receiver has taken out so far. */
  datatype Channel = Channel(id: uint32, queue: seq<TFrameId>, taken: seq<TFrameId>, open: bool)
  {
    function Contents(): seq<TFrameId> { taken + queue }
  }

  /** Senders of the pending ids, as indices into the channels created so far. */
  datatype Dispatcher = Dispatcher(senders: map<uint32, nat>, channels: seq<Channel>)

  predicate Valid(d: Dispatcher) {
    forall id :: id in d.senders ==> d.senders[id] < |d.channels| && d.channels[d.senders[id]].id == id
  }

  const NO_DISPATCHER := Dispatcher(map[], [])

  /** A send completes at once, with success or with the error of a dropped receiver. */
  predicate CanSend(c: Channel, capacity: nat) { !c.open || |c.queue| < capacity }

  function Send(d: Dispatcher, k: nat, frame: TFrameId): (Dispatcher, Result<()>)
    requires k < |d.channels|
  {
    var c := d.channels[k];
    if !c.open then (d, Err(ConnectionError))
    else (d.(channels := d.channels[k := c.(queue := c.queue + [frame])]), Ok(()))
  }

  /** Registers a fresh channel. A duplicate is reported, but only after it has replaced the
      sender registered before. */
  function Register(d: Dispatcher, id: uint32): (Dispatcher, Result<()>) {
    (Dispatcher(d.senders[id := |d.channels|], d.channels + [Channel(id, [], [], true)]),
     if id in d.senders then Err(ConnectionError) else Ok(()))
  }

  function Deregister(d: Dispatcher, id: uint32): Dispatcher {
    d.(senders := d.senders - {id})
  }

  function DispatchFollowing(d: Dispatcher, frame: TFrameId): (Dispatcher, Result<()>)
    requires Valid(d)
  {
    if frame.id in d.senders then Send(d, d.senders[frame.id], frame) else (d, Err(ConnectionError))
  }

  /** The first frame of a message opens its channel; `Some` hands out the new channel. */
  function DispatchFirst(d: Dispatcher, frame: TFrameId): (Dispatcher, Result<nat>) {
    if frame.id in d.senders then (d, Err(ConnectionError))
    else (Dispatcher(d.senders[frame.id := |d.channels|], d.channels + [Channel(frame.id, [frame], [], true)]),
          Ok(|d.channels|))
  }

  function Dispatch(d: Dispatcher, frame: TFrameId): (Dispatcher, Result<Option<nat>>)
    requires Valid(d)
  {
    if frame.id in d.senders then
      var (d', r) := Send(d, d.senders[frame.id], frame);
      (d', if r.Ok? then Ok(None) else Err(r.error))
    else
      var (d', r) := DispatchFirst(d, frame);
      (d', Ok(Some(r.value)))
  }

  function Receive(d: Dispatcher, k: nat): Dispatcher
    requires k < |d.channels| && d.channels[k].queue != []
  {
    var c := d.channels[k];
    d.(channels := d.channels[k := c.(queue := c.queue[1..], taken := c.taken + [c.queue[0]])])
  }

  function DropReceiver(d: Dispatcher, k: nat): Dispatcher
    requires k < |d.channels|
  {
    d.(channels := d.channels[k := d.channels[k].(open := false)])
  }

  /** `fetch_add` on the id counter wraps. */
  function NextId(id: uint32): uint32 { (id + 1) % 0x1_0000_0000 }

  /** A new pair of frame input and output: the id is registered, and on a duplicate the
      receiver is dropped along with the error. */
  function OpenIo(d: Dispatcher, id: uint32): Dispatcher {
    var (d', r) := Register(d, id);
    if r.Ok? then d' else DropReceiver(d', |d.channels|)
  }
}

/** The shared objects of a connection. */
module Connection {
  import opened Basics
  import opened Frames
  import opened Dispatching

  /** The shared dispatcher. A method that sends is entered once its `send` can complete. */
  class FramesDispatcher {
    var senders: map<uint32, nat>
    var channels: seq<Channel>
    const bufferSize: nat

    constructor (bufferSize: nat)
      requires bufferSize > 0
      ensures State() == NO_DISPATCHER && this.bufferSize == bufferSize
    {
      senders, channels := map[], [];
      this.bufferSize := bufferSize;
    }

    function State(): Dispatcher
      reads this
    {
      Dispatcher(senders, channels)
    }

    method SendTo(k: nat, frame: TFrameId) returns (r: Result<()>)
      requires k < |channels| && CanSend(channels[k], bufferSize)
      modifies this`channels
      ensures (State(), r) == Send(old(State()), k, frame)
      ensures r == if old(channels[k].open) then Ok(()) else Err(ConnectionError)
    {
      if !channels[k].open {
        return Err(ConnectionError);
      }
      channels := channels[k := channels[k].(queue := channels[k].queue + [frame])];
      return Ok(());
    }

    method Register(id: uint32) returns (r: Result<()>)
      modifies this
      ensures (State(), r) == Dispatching.Register(old(State()), id)
      ensures r == if id in old(senders) then Err(ConnectionError) else Ok(())
      ensures old(Valid(State())) ==> Valid(State())
    {
      var known := id in senders;
      channels := channels + [Channel(id, [], [], true)];
      senders := senders[id := |channels| - 1];
      if known {
        return Err(ConnectionError);
      }
      return Ok(());
    }

    method Deregister(id: uint32)
      modifies this`senders
      ensures State() == Dispatching.Deregister(old(State()), id)
      ensures old(Valid(State())) ==> Valid(State())
    {
      senders := senders - {id};
    }

    method DispatchFollowing(frame: TFrameId) returns (r: Result<()>)
      requires Valid(State())
      requires frame.id in senders ==> CanSend(channels[senders[frame.id]], bufferSize)
      modifies this
      ensures (State(), r) == Dispatching.DispatchFollowing(old(State()), frame)
      ensures frame.id !in old(senders) ==> r == Err(ConnectionError) && State() == old(State())
      ensures old(Valid(State())) ==> Valid(State())
    {
      if frame.id in senders {
        r := SendTo(senders[frame.id], frame);
        return;
      }
      return Err(ConnectionError);
    }

    method DispatchFirst(frame: TFrameId) returns (r: Result<nat>)
      modifies this
      ensures (State(), r) == Dispatching.DispatchFirst(old(State()), frame)
      ensures r == if frame.id in old(senders) then Err(ConnectionError) else Ok(|old(channels)|)
      ensures old(Valid(State())) ==> Valid(State())
    {
      if frame.id in senders {
        return Err(ConnectionError);
      }
      var k := |channels|;
      channels := channels + [Channel(frame.id, [], [], true)];
      channels := channels[k := channels[k].(queue := channels[k].queue + [frame])];
      senders := senders[frame.id := k];
      assert [] + [frame] == [frame];
      assert channels == old(channels) + [Channel(frame.id, [frame], [], true)];
      return Ok(k);
    }

    method Dispatch(frame: TFrameId) returns (r: Result<Option<nat>>)
      requires Valid(State())
      requires frame.id in senders ==> CanSend(channels[senders[frame.id]], bufferSize)
      modifies this
      ensures (State(), r) == Dispatching.Dispatch(old(State()), frame)
      ensures old(Valid(State())) ==> Valid(State())
    {
      if frame.id in senders {
        var _ :- SendTo(senders[frame.id], frame);
        return Ok(None);
      }
      var first := DispatchFirst(frame);
      return Ok(Some(first.value));
    }
  }

  class ClientConnection {
    var nextMessageId: uint32
    const pendingIds: FramesDispatcher

    constructor (bufferSize: nat)
      requires bufferSize > 0
      ensures nextMessageId == 0 && fresh(pendingIds) && pendingIds.State() == NO_DISPATCHER
    {
      nextMessageId := 0;
      pendingIds := new FramesDispatcher(bufferSize);
    }

    method NewFramesIo() returns (r: Result<(nat, uint32)>)
      modifies this`nextMessageId, pendingIds
      ensures nextMessageId == if old(nextMessageId) == 0xFFFF_FFFF then 0 else old(nextMessageId) + 1
      ensures pendingIds.State() == OpenIo(old(pendingIds.State()), old(nextMessageId))
      ensures r == if old(nextMessageId) in old(pendingIds.senders) then Err(ConnectionError)
                   else Ok((|old(pendingIds.channels)|, old(nextMessageId)))
    {
      var id := nextMessageId;
      nextMessageId := (nextMessageId + 1) % 0x1_0000_0000;
      var k := |pendingIds.channels|;
      var registered := pendingIds.Register(id);
      if registered.Err? {
        pendingIds.channels := pendingIds.channels[k := pendingIds.channels[k].(open := false)];
        return Err(registered.error);
      }
      return Ok((k, id));
    }
  }
}

/** Following one id through a list of frames. */
module Projection {
  import opened Basics
  import opened Frames

  /** The frames for one id, in arrival order. */
  function Project(frames: seq<TFrameId>, id: uint32): seq<TFrameId> {
    if frames == [] then []
    else
      var last := frames[|frames| - 1];
      Project(frames[..|frames| - 1], id) + if last.id == id then [last] else []
  }

  function Ids(frames: seq<TFrameId>): set<uint32> { set f | f in frames :: f.id }

  lemma ProjectSnoc(frames: seq<TFrameId>, f: TFrameId, id: uint32)
    ensures Project(frames + [f], id) == Project(frames, id) + if f.id == id then [f] else []
  {
    assert (frames + [f])[..|frames|] == frames;
  }

  lemma {:induction false} ProjectConcat(a: seq<TFrameId>, b: seq<TFrameId>, id: uint32)
    ensures Project(a + b, id) == Project(a, id) + Project(b, id)
    decreases |b|
  {
    if b == [] {
      assert a + b == a;
    } else {
      var n := |b| - 1;
      assert (a + b)[..|a + b| - 1] == a + b[..n];
      ProjectConcat(a, b[..n], id);
      Assoc(Project(a, id), Project(b[..n], id), if b[n].id == id then [b[n]] else []);
    }
  }

  lemma {:induction false} ProjectMember(frames: seq<TFrameId>, id: uint32)
    ensures Project(frames, id) != [] <==> id in Ids(frames)
    decreases |frames|
  {
    if frames != [] {
      var n := |frames| - 1;
      ProjectMember(frames[..n], id);
      assert frames == frames[..n] + [frames[n]];
    }
  }
}

/** Every run of a client connection. */
module ConnectionRuns {
  import opened Basics
  import opened Frames
  import opened Dispatching
  import opened Projection

  datatype Event =
    | Open
    | Deliver(frame: TFrameId)
    | Take(channel: nat)
    | Drop(channel: nat)
    | Close(channel: nat)

  /** The part of the arrival log a channel listens to: from its registration until its id is
      closed or registered anew, or its receiver is dropped. */
  datatype Window = Window(from: nat, to: Option<nat>)

  /** A connection with its arrival log and its channels' windows as history. */
  datatype Run = Run(next: uint32, d: Dispatcher, log: seq<TFrameId>, windows: seq<Window>)

  const NEW_RUN := Run(0, NO_DISPATCHER, [], [])

  predicate Enabled(s: Run, e: Event, capacity: nat) {
    && Valid(s.d) && |s.windows| == |s.d.channels|
    && match e
       case Open => true
       case Deliver(f) => f.id in s.d.senders ==> CanSend(s.d.channels[s.d.senders[f.id]], capacity)
       case Take(k) => k < |s.d.channels| && s.d.channels[k].open && s.d.channels[k].queue != []
       case Drop(k) => k < |s.d.channels| && s.d.channels[k].open
       case Close(k) => k < |s.d.channels|
  }

  function Shut(windows: seq<Window>, k: nat, now: nat): seq<Window>
    requires k < |windows|
  {
    if windows[k].to.Some? then windows else windows[k := windows[k].(to := Some(now))]
  }

  /** Whoever holds `id` stops listening. */
  function ShutOwner(s: Run, id: uint32): seq<Window>
    requires Valid(s.d) && |s.windows| == |s.d.channels|
  {
    if id in s.d.senders then Shut(s.windows, s.d.senders[id], |s.log|) else s.windows
  }

  function Step(s: Run, e: Event, capacity: nat): Run
    requires Enabled(s, e, capacity)
  {
    match e
    case Open =>
      var to := if s.next in s.d.senders then Some(|s.log|) else None;
      Run(NextId(s.next), OpenIo(s.d, s.next), s.log, ShutOwner(s, s.next) + [Window(|s.log|, to)])
    case Deliver(f) => s.(d := DispatchFollowing(s.d, f).0, log := s.log + [f])
    case Take(k) => s.(d := Receive(s.d, k))
    case Drop(k) => s.(d := DropReceiver(s.d, k), windows := Shut(s.windows, k, |s.log|))
    case Close(k) =>
      var id := s.d.channels[k].id;
      s.(d := Deregister(s.d, id), windows := ShutOwner(s, id))
  }

  function End(w: Window, log: seq<TFrameId>): nat { if w.to.Some? then w.to.value else |log| }

  /** The arrivals a window covers. */
  function Covered(w: Window, log: seq<TFrameId>): seq<TFrameId> {
    if w.from <= End(w, log) <= |log| then log[w.from..End(w, log)] else []
  }

  /** What channel `k` has listened to. */
  function Heard(s: Run, k: nat): seq<TFrameId>
    requires k < |s.windows|
  {
    Covered(s.windows[k], s.log)
  }

  /** What holds of channel `k`: its contents are its part of what it heard, it was the k-th to
      be issued an id, and its window is open while its receiver lives and the id is its own. */
  ghost predicate ChannelOk(c: Channel, w: Window, senders: map<uint32, nat>, k: nat, log: seq<TFrameId>) {
    && w.from <= End(w, log) <= |log|
    && c.Contents() == Project(Covered(w, log), c.id)
    && c.id == k % 0x1_0000_0000
    && (w.to.None? <==> c.open && c.id in senders && senders[c.id] == k)
    && (c.id in senders ==> k <= senders[c.id])
  }

  ghost predicate ChannelInv(s: Run, k: nat)
    requires k < |s.d.channels| == |s.windows|
  {
    ChannelOk(s.d.channels[k], s.windows[k], s.d.senders, k, s.log)
  }

  ghost predicate Inv(s: Run) {
    && Valid(s.d)
    && |s.windows| == |s.d.channels|
    && s.next == |s.d.channels| % 0x1_0000_0000
    && forall k :: 0 <= k < |s.d.channels| ==> ChannelInv(s, k)
  }

  /** The arrivals of a shut window stay what they were. */
  lemma ChannelShut(c: Channel, w: Window, senders: map<uint32, nat>, senders': map<uint32, nat>, k: nat,
                    log: seq<TFrameId>, open: bool)
    requires ChannelOk(c, w, senders, k, log)
    requires !open || c.id !in senders' || senders'[c.id] > k
    requires c.id in senders' ==> k <= senders'[c.id]
    ensures ChannelOk(c.(open := open), if w.to.Some? then w else w.(to := Some(|log|)), senders', k, log)
  {
  }

  lemma ChannelUndisturbed(c: Channel, w: Window, senders: map<uint32, nat>, senders': map<uint32, nat>, k: nat,
                           log: seq<TFrameId>)
    requires ChannelOk(c, w, senders, k, log)
    requires (c.id in senders <==> c.id in senders') && (c.id in senders ==> senders[c.id] == senders'[c.id])
    ensures ChannelOk(c, w, senders', k, log)
  {
  }

  lemma ChannelHears(c: Channel, w: Window, senders: map<uint32, nat>, k: nat, log: seq<TFrameId>, f: TFrameId)
    requires ChannelOk(c, w, senders, k, log)
    ensures var mine := w.to.None? && c.id == f.id;
            ChannelOk(if mine then c.(queue := c.queue + [f]) else c, w, senders, k, log + [f])
  {
    if w.to.None? {
      assert Covered(w, log + [f]) == Covered(w, log) + [f];
      ProjectSnoc(Covered(w, log), f, c.id);
      Assoc(c.taken, c.queue, [f]);
      assert Project(Covered(w, log), c.id) + [] == Project(Covered(w, log), c.id);
    } else {
      assert Covered(w, log + [f]) == Covered(w, log);
    }
  }

  lemma ChannelTakes(c: Channel, w: Window, senders: map<uint32, nat>, k: nat, log: seq<TFrameId>)
    requires ChannelOk(c, w, senders, k, log) && c.queue != []
    ensures ChannelOk(c.(queue := c.queue[1..], taken := c.taken + [c.queue[0]]), w, senders, k, log)
  {
    assert c.queue == [c.queue[0]] + c.queue[1..];
    Assoc(c.taken, [c.queue[0]], c.queue[1..]);
  }

  lemma ChannelOpens(senders: map<uint32, nat>, k: nat, id: uint32, log: seq<TFrameId>, duplicate: bool)
    requires id == k % 0x1_0000_0000 && id in senders && senders[id] == k
    ensures ChannelOk(Channel(id, [], [], !duplicate), Window(|log|, if duplicate then Some(|log|) else None),
                      senders, k, log)
  {
    assert log[|log|..|log|] == [];
  }

  lemma OpenOutcome(s: Run, capacity: nat)
    requires Enabled(s, Open, capacity)
    ensures var s', id, n := Step(s, Open, capacity), s.next, |s.d.channels|;
            && Valid(s'.d) && s'.d.senders == s.d.senders[id := n]
            && s'.d.channels == s.d.channels + [Channel(id, [], [], id !in s.d.senders)]
            && s'.next == NextId(id) && s'.log == s.log
            && s'.windows == ShutOwner(s, id) + [Window(|s.log|, if id in s.d.senders then Some(|s.log|) else None)]
  {
  }

  lemma StepOpen(s: Run, capacity: nat)
    requires Inv(s)
    ensures Inv(Step(s, Open, capacity))
  {
    hide ChannelOk, Step;
    var s', id := Step(s, Open, capacity), s.next;
    OpenOutcome(s, capacity);
    forall k | 0 <= k < |s'.d.channels| ensures ChannelInv(s', k) {
      if k == |s.d.channels| {
        ChannelOpens(s'.d.senders, k, id, s.log, id in s.d.senders);
      } else {
        assert ChannelInv(s, k);
        ChannelOwner(s, k);
        var c, w := s.d.channels[k], s.windows[k];
        if c.id != id {
          ChannelUndisturbed(c, w, s.d.senders, s'.d.senders, k, s.log);
        } else {
          ChannelShut(c, w, s.d.senders, s'.d.senders, k, s.log, c.open);
        }
      }
    }
  }

  /** A window that is still open belongs to the owner of its id. */
  lemma ChannelOwner(s: Run, k: nat)
    requires k < |s.d.channels| == |s.windows| && ChannelInv(s, k)
    ensures var c := s.d.channels[k];
            s.windows[k].to.None? <==> c.open && c.id in s.d.senders && s.d.senders[c.id] == k
  {
  }

  lemma StepDeliver(s: Run, f: TFrameId, capacity: nat)
    requires Inv(s) && Enabled(s, Deliver(f), capacity)
    ensures Inv(Step(s, Deliver(f), capacity))
  {
    hide ChannelOk;
    var s' := Step(s, Deliver(f), capacity);
    forall k | 0 <= k < |s'.d.channels| ensures ChannelInv(s', k) {
      assert ChannelInv(s, k);
      ChannelOwner(s, k);
      ChannelHears(s.d.channels[k], s.windows[k], s.d.senders, k, s.log, f);
    }
  }

  lemma StepTake(s: Run, k: nat, capacity: nat)
    requires Inv(s) && Enabled(s, Take(k), capacity)
    ensures Inv(Step(s, Take(k), capacity))
  {
    hide ChannelOk;
    var s' := Step(s, Take(k), capacity);
    forall j | 0 <= j < |s'.d.channels| ensures ChannelInv(s', j) {
      assert ChannelInv(s, j);
      if j == k {
        ChannelTakes(s.d.channels[k], s.windows[k], s.d.senders, k, s.log);
      }
    }
  }

  lemma StepDropOrClose(s: Run, e: Event, capacity: nat)
    requires Inv(s) && (e.Drop? || e.Close?) && Enabled(s, e, capacity)
    ensures Inv(Step(s, e, capacity))
  {
    hide ChannelOk;
    var s' := Step(s, e, capacity);
    var id := s.d.channels[e.channel].id;
    forall j | 0 <= j < |s'.d.channels| ensures ChannelInv(s', j) {
      assert ChannelInv(s, j);
      ChannelOwner(s, j);
      OwnerIsLatest(s, j);
      var c, w := s.d.channels[j], s.windows[j];
      if e.Drop? {
        if j == e.channel {
          ChannelShut(c, w, s.d.senders, s'.d.senders, j, s.log, false);
        }
      } else if c.id != id {
        ChannelUndisturbed(c, w, s.d.senders, s'.d.senders, j, s.log);
      } else {
        ChannelShut(c, w, s.d.senders, s'.d.senders, j, s.log, c.open);
      }
    }
  }

  lemma OwnerIsLatest(s: Run, k: nat)
    requires k < |s.d.channels| == |s.windows| && ChannelInv(s, k)
    ensures var c := s.d.channels[k]; c.id in s.d.senders ==> k <= s.d.senders[c.id]
  {
  }

  /** Every step keeps the invariant. */
  lemma StepKeepsInv(s: Run, e: Event, capacity: nat)
    requires Inv(s) && Enabled(s, e, capacity)
    ensures Inv(Step(s, e, capacity))
  {
    match e {
      case Open => StepOpen(s, capacity);
      case Deliver(f) => StepDeliver(s, f, capacity);
      case Take(k) => StepTake(s, k, capacity);
      case _ => StepDropOrClose(s, e, capacity);
    }
  }

  /** Sequences of steps each of which can be taken, from a new connection on. */
  predicate Possible(events: seq<Event>, capacity: nat)
    decreases |events|, 0
  {
    events == [] ||
    var before, last := events[..|events| - 1], events[|events| - 1];
    Possible(before, capacity) && Enabled(After(before, capacity), last, capacity)
  }

  /** The state such a run leads to. */
  function After(events: seq<Event>, capacity: nat): Run
    requires Possible(events, capacity)
    decreases |events|, 1
  {
    if events == [] then NEW_RUN
    else Step(After(events[..|events| - 1], capacity), events[|events| - 1], capacity)
  }

  lemma {:induction false} RunKeepsInv(events: seq<Event>, capacity: nat)
    requires Possible(events, capacity)
    ensures Inv(After(events, capacity))
    decreases |events|
  {
    if events != [] {
      RunKeepsInv(events[..|events| - 1], capacity);
      StepKeepsInv(After(events[..|events| - 1], capacity), events[|events| - 1], capacity);
    }
  }

  /** The dispatcher's invariant over every run, ids reused or not: what a receiver has taken
      and what is still queued for it is exactly the arrival-order projection, onto its id, of
      the frames that arrived while it was listening. Nothing is lost, doubled or misrouted. */
  lemma NothingLostOrMisrouted(events: seq<Event>, capacity: nat, k: nat)
    requires Possible(events, capacity)
    requires k < |After(events, capacity).d.channels|
    ensures var s := After(events, capacity);
            && k < |s.windows|
            && s.windows[k].from <= End(s.windows[k], s.log) <= |s.log|
            && s.d.channels[k].Contents() == Project(Heard(s, k), s.d.channels[k].id)
  {
    RunKeepsInv(events, capacity);
    assert ChannelInv(After(events, capacity), k);
  }

  // Message ids

  /** The channel's id is registered for it. */
  predicate Pending(s: Run, k: nat) {
    k < |s.d.channels| && s.d.channels[k].id in s.d.senders && s.d.senders[s.d.channels[k].id] == k
  }

  /** Fewer than 2^32 ids are issued between the issue of an id and its close: no id is issued
      while one that many issues old is pending, and none is closed later than that. */
  ghost predicate Timely(s: Run, e: Event) {
    match e
    case Open => forall k :: 0 <= k < |s.d.channels| && Pending(s, k) ==> |s.d.channels| - k < 0x1_0000_0000
    case Close(k) => |s.d.channels| - k <= 0x1_0000_0000
    case _ => true
  }

  ghost predicate TimelyRun(events: seq<Event>, capacity: nat)
    requires Possible(events, capacity)
    decreases |events|
  {
    events == [] ||
    (&& TimelyRun(events[..|events| - 1], capacity)
     && Timely(After(events[..|events| - 1], capacity), events[|events| - 1]))
  }

  lemma SameResidue(a: nat, b: nat, m: nat)
    requires m > 0 && a < b && a % m == b % m
    ensures b - a >= m
  {
    var p, q := a / m, b / m;
    assert a == m * p + a % m && b == m * q + b % m;
    assert b - a == m * (q - p);
    MulSign(m, q - p);
  }

  lemma MulSign(m: int, k: int)
    requires m > 0
    ensures k <= 0 ==> m * k <= 0
    ensures k >= 1 ==> m * k >= m
  {
  }

  /** The id counter never runs into a pending id. */
  lemma FreshIdIsFree(s: Run)
    requires Inv(s) && Timely(s, Open)
    ensures s.next !in s.d.senders
    ensures Register(s.d, s.next).1.Ok?
  {
    if s.next in s.d.senders {
      var k := s.d.senders[s.next];
      assert ChannelInv(s, k);
      SameResidue(k, |s.d.channels|, 0x1_0000_0000);
      assert Pending(s, k);
    }
  }

  /** Closing touches no other message exactly when the id is not registered for a later one;
      a close within 2^32 issues, first or repeated, is such a close. */
  lemma CloseTouchesOnlyItsOwn(s: Run, k: nat)
    requires Inv(s) && k < |s.d.channels|
    ensures (forall j :: 0 <= j < |s.d.channels| && j != k && Pending(s, j) ==>
               s.d.channels[j].id in Deregister(s.d, s.d.channels[k].id).senders)
       <==> (s.d.channels[k].id in s.d.senders ==> s.d.senders[s.d.channels[k].id] == k)
    ensures Timely(s, Close(k)) ==> (s.d.channels[k].id in s.d.senders ==> s.d.senders[s.d.channels[k].id] == k)
  {
    var id := s.d.channels[k].id;
    assert ChannelInv(s, k);
    if id in s.d.senders {
      var j := s.d.senders[id];
      assert ChannelInv(s, j);
      assert Pending(s, j);
      if j != k {
        SameResidue(k, j, 0x1_0000_0000);
      }
    }
  }

  /** Over every timely run: each id is free when it is issued, and a channel stops listening
      only when it is itself closed or its own receiver dropped. */
  lemma {:induction false} TimelyIdsStayDistinct(events: seq<Event>, capacity: nat)
    requires Possible(events, capacity) && TimelyRun(events, capacity)
    ensures var s := After(events, capacity);
            && Inv(s)
            && forall k :: 0 <= k < |s.d.channels| ==>
                 s.windows[k].to.None? || Close(k) in events || Drop(k) in events
    decreases |events|
  {
    if events != [] {
      var before, e := events[..|events| - 1], events[|events| - 1];
      var b, s := After(before, capacity), After(events, capacity);
      TimelyIdsStayDistinct(before, capacity);
      RunKeepsInv(events, capacity);
      if e.Open? {
        FreshIdIsFree(b);
      } else if e.Close? {
        CloseTouchesOnlyItsOwn(b, e.channel);
      }
      forall k | 0 <= k < |s.d.channels| && s.windows[k].to.Some?
        ensures Close(k) in events || Drop(k) in events
      {
        assert e == events[|events| - 1];
        if k < |b.windows| && b.windows[k].to.Some? {
          assert Close(k) in before || Drop(k) in before;
        }
      }
    }
  }

  lemma {:induction false} TimelyPrefix(events: seq<Event>, n: nat, capacity: nat)
    requires n < |events| && Possible(events, capacity) && TimelyRun(events, capacity)
    ensures Possible(events[..n], capacity) && TimelyRun(events[..n], capacity)
    ensures Timely(After(events[..n], capacity), events[n])
    decreases |events|
  {
    hide Step, Enabled, Timely;
    var before := events[..|events| - 1];
    if n == |events| - 1 {
      assert events[..n] == before;
    } else {
      TimelyPrefix(before, n, capacity);
      assert before[..n] == events[..n];
    }
  }

  /** In a timely run no registration ever finds its id taken. */
  lemma RegisterNeverReportsADuplicate(events: seq<Event>, n: nat, capacity: nat)
    requires n < |events| && Possible(events, capacity) && TimelyRun(events, capacity)
    requires events[n] == Open
    ensures Possible(events[..n], capacity)
    ensures var s := After(events[..n], capacity); Register(s.d, s.next).1.Ok?
  {
    TimelyPrefix(events, n, capacity);
    TimelyIdsStayDistinct(events[..n], capacity);
    FreshIdIsFree(After(events[..n], capacity));
  }

  // Runs in terms of their events alone

  /** The frames the network delivered, in order. */
  function Deliveries(events: seq<Event>): seq<TFrameId> {
    if events == [] then []
    else
      var last := events[|events| - 1];
      Deliveries(events[..|events| - 1]) + if last.Deliver? then [last.frame] else []
  }

  /** How often an event occurred. */
  function Count(events: seq<Event>, e: Event): nat {
    if events == [] then 0
    else Count(events[..|events| - 1], e) + if events[|events| - 1] == e then 1 else 0
  }

  lemma {:induction false} DeliveriesConcat(a: seq<Event>, b: seq<Event>)
    ensures Deliveries(a + b) == Deliveries(a) + Deliveries(b)
    decreases |b|
  {
    if b == [] {
      assert a + b == a;
    } else {
      var n := |b| - 1;
      assert (a + b)[..|a + b| - 1] == a + b[..n];
      DeliveriesConcat(a, b[..n]);
      Assoc(Deliveries(a), Deliveries(b[..n]), if b[n].Deliver? then [b[n].frame] else []);
    }
  }

  /** What one step adds to the record. */
  lemma StepRecords(s: Run, e: Event, capacity: nat)
    requires Enabled(s, e, capacity)
    ensures var s', n := Step(s, e, capacity), |s.d.channels|;
            && s'.log == s.log + (if e.Deliver? then [e.frame] else [])
            && |s'.d.channels| == |s'.windows| == n + (if e == Open then 1 else 0)
            && (forall k :: 0 <= k < n ==>
                  && |s'.d.channels[k].taken| == |s.d.channels[k].taken| + (if e == Take(k) then 1 else 0)
                  && s'.windows[k].from == s.windows[k].from)
            && (e == Open ==> s'.d.channels[n].taken == [] && s'.windows[n].from == |s.log|)
  {
  }

  /** The state is a record of the events: the log holds the deliveries, there is a channel for
      each `Open`, and each receiver has taken a frame per `Take`. */
  lemma {:induction false} StateRecordsEvents(events: seq<Event>, capacity: nat)
    requires Possible(events, capacity)
    ensures var s := After(events, capacity);
            && s.log == Deliveries(events)
            && |s.d.channels| == Count(events, Open)
            && forall k :: 0 <= k < |s.d.channels| ==> |s.d.channels[k].taken| == Count(events, Take(k))
    decreases |events|
  {
    hide Step, Enabled;
    if events != [] {
      var before, e := events[..|events| - 1], events[|events| - 1];
      var b := After(before, capacity);
      StateRecordsEvents(before, capacity);
      StepRecords(b, e, capacity);
      NothingTakenYet(before, |b.d.channels|, capacity);
    }
  }

  /** The k-th id issued is k modulo 2^32. */
  lemma IssuedIds(events: seq<Event>, capacity: nat, k: nat)
    requires Possible(events, capacity) && k < |After(events, capacity).d.channels|
    ensures After(events, capacity).d.channels[k].id == k % 0x1_0000_0000
  {
    hide Step, Enabled;
    RunKeepsInv(events, capacity);
    assert ChannelInv(After(events, capacity), k);
  }

  /** A channel that does not exist yet has not been taken from. */
  lemma {:induction false} NothingTakenYet(events: seq<Event>, k: nat, capacity: nat)
    requires Possible(events, capacity) && k >= |After(events, capacity).d.channels|
    ensures Count(events, Take(k)) == 0
    decreases |events|
  {
    hide Step;
    if events != [] {
      StepRecords(After(events[..|events| - 1], capacity), events[|events| - 1], capacity);
      NothingTakenYet(events[..|events| - 1], k, capacity);
    }
  }

  /** A window begins with the arrivals that follow its `Open`. */
  lemma {:induction false} WindowStartsAtItsOpen(events: seq<Event>, n: nat, capacity: nat)
    requires n < |events| && Possible(events, capacity) && events[n] == Open
    ensures Possible(events[..n], capacity)
    ensures var k, s := Count(events[..n], Open), After(events, capacity);
            k < |s.d.channels| == |s.windows| && s.windows[k].from == |Deliveries(events[..n])|
    decreases |events|
  {
    hide Step, Enabled;
    var before, e := events[..|events| - 1], events[|events| - 1];
    StepRecords(After(before, capacity), e, capacity);
    StateRecordsEvents(before, capacity);
    if n == |events| - 1 {
      assert events[..n] == before;
    } else {
      WindowStartsAtItsOpen(before, n, capacity);
      assert before[..n] == events[..n];
    }
  }

  /** Routing in terms of events alone. In a run where no id is issued while the same id is
      pending and none is closed 2^32 issues late, a message that is neither closed nor dropped
      has, taken and queued together, exactly the frames delivered since its `Open` under its id. */
  lemma HearsExactlyItsDeliveries(events: seq<Event>, n: nat, capacity: nat)
    requires n < |events| && Possible(events, capacity) && TimelyRun(events, capacity)
    requires events[n] == Open
    requires Close(Count(events[..n], Open)) !in events && Drop(Count(events[..n], Open)) !in events
    ensures var k, s := Count(events[..n], Open), After(events, capacity);
            && k < |s.d.channels|
            && s.d.channels[k].Contents() == Project(Deliveries(events[n + 1..]), k % 0x1_0000_0000)
  {
    hide Possible, After, TimelyRun, Inv, Project;
    var k, s := Count(events[..n], Open), After(events, capacity);
    TimelyIdsStayDistinct(events, capacity);
    StateRecordsEvents(events, capacity);
    WindowStartsAtItsOpen(events, n, capacity);
    NothingLostOrMisrouted(events, capacity, k);
    IssuedIds(events, capacity, k);
    DeliveriesSince(events, n);
    var from := s.windows[k].from;
    assert s.windows[k].to == None;
    assert Heard(s, k) == s.log[from..|s.log|] == s.log[from..];
  }

  lemma DeliveriesSince(events: seq<Event>, n: nat)
    requires n < |events| && events[n] == Open
    ensures |Deliveries(events[..n])| <= |Deliveries(events)|
    ensures Deliveries(events)[|Deliveries(events[..n])|..] == Deliveries(events[n + 1..])
  {
    assert events == events[..n] + ([Open] + events[n + 1..]);
    DeliveriesConcat(events[..n], [Open] + events[n + 1..]);
    DeliveriesConcat([Open], events[n + 1..]);
    assert Deliveries([Open]) == [];
    assert [] + Deliveries(events[n + 1..]) == Deliveries(events[n + 1..]);
  }

  /** Two messages have the same id only when a multiple of 2^32 ids lies between them. */
  lemma SameIdIff(events: seq<Event>, capacity: nat, j: nat, k: nat)
    requires Possible(events, capacity) && j < k < |After(events, capacity).d.channels|
    ensures var s := After(events, capacity);
            && (s.d.channels[j].id == s.d.channels[k].id <==> (k - j) % 0x1_0000_0000 == 0)
            && (k - j < 0x1_0000_0000 ==> s.d.channels[j].id != s.d.channels[k].id)
  {
    hide Possible, After;
    IssuedIds(events, capacity, j);
    IssuedIds(events, capacity, k);
  }

  /** No channel ever holds more than its capacity. */
  lemma {:induction false} QueuesAreBounded(events: seq<Event>, capacity: nat)
    requires Possible(events, capacity)
    ensures forall k :: 0 <= k < |After(events, capacity).d.channels| ==>
              |After(events, capacity).d.channels[k].queue| <= capacity
    decreases |events|
  {
    if events != [] {
      QueuesAreBounded(events[..|events| - 1], capacity);
    }
  }
}

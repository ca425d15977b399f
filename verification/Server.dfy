/** The server's side of a connection: bounded reading, routing, and handlers that run
    concurrently. Each action is one atomic step. */
module Server {
  import opened Basics
  import opened Frames
  import opened Payloads
  import opened ArgSchemes
  import opened Defragmentation
  import opened Delivery
  import opened Dispatching
  import opened Projection

  /** A handler reads its message, takes its id out of the dispatcher, and sends its response. */
  datatype Phase = Reading | DoneReading | Replying | Answered

  /** `inflight` is a frame whose dispatch has begun and may be waiting for room in a channel.
      Handler `k` owns channel `k`. `log` records the frames routed so far. */
  datatype State = State(input: seq<TFrameId>, inflight: Option<TFrameId>, log: seq<TFrameId>,
                         d: Dispatcher, phases: seq<Phase>, broken: bool)

  /** `limit` is the number of handlers that may be unfinished while more is read, with 0 for
      no limit; `capacity` is the length of a channel. */
  datatype Config = Config(limit: nat, capacity: nat)

  function Init(wire: seq<TFrameId>): State {
    State(wire, None, [], NO_DISPATCHER, [], false)
  }

  function Unfinished(phases: seq<Phase>): set<nat> {
    set k: nat | k < |phases| && phases[k] != Answered
  }

  /** The stream of incoming frames is looked at only while few enough handlers are unfinished. */
  predicate MayRead(s: State, cfg: Config) { cfg.limit == 0 || |Unfinished(s.phases)| < cfg.limit }

  /** A dispatch waiting on a full channel holds the lock on the map of senders. */
  predicate MapLocked(s: State) { s.inflight.Some? && s.inflight.value.id in s.d.senders }

  datatype Action = Poll | Route | Receive(k: nat) | Deregister(k: nat) | Answer(k: nat)

  predicate Enabled(s: State, a: Action, cfg: Config) {
    && !s.broken && Valid(s.d) && |s.phases| == |s.d.channels|
    && match a
       case Poll => MayRead(s, cfg) && s.inflight.None? && s.input != []
       case Route =>
         && MayRead(s, cfg) && s.inflight.Some?
         && (s.inflight.value.id in s.d.senders ==>
               CanSend(s.d.channels[s.d.senders[s.inflight.value.id]], cfg.capacity))
       case Receive(k) => k < |s.phases| && s.phases[k] == Reading && s.d.channels[k].queue != []
       case Deregister(k) => k < |s.phases| && s.phases[k] == DoneReading && !MapLocked(s)
       case Answer(k) => k < |s.phases| && s.phases[k] == Replying
  }

  /** What handler `k` has made of the frames it took. */
  function ReaderOf(taken: seq<TFrameId>): Reader { ReadAll(Request, None, Start, taken) }

  /** A dispatch error or a handler's error ends the whole connection. */
  function Step(s: State, a: Action, cfg: Config): State
    requires Enabled(s, a, cfg)
  {
    match a
    case Poll => s.(input := s.input[1..], inflight := Some(s.input[0]))
    case Route =>
      var f := s.inflight.value;
      var (d', r) := Dispatch(s.d, f);
      s.(inflight := None, log := s.log + [f], d := d', broken := r.Err?,
         phases := if r.Ok? && r.value.Some? then s.phases + [Reading] else s.phases)
    case Receive(k) =>
      var d' := Dispatching.Receive(s.d, k);
      var reader := ReaderOf(d'.channels[k].taken);
      if reader.Finished? then s.(d := DropReceiver(d', k), phases := s.phases[k := DoneReading])
      else s.(d := d', broken := reader.Failed?)
    case Deregister(k) =>
      s.(d := Dispatching.Deregister(s.d, s.d.channels[k].id), phases := s.phases[k := Replying])
    case Answer(k) => s.(phases := s.phases[k := Answered])
  }

  /** Everything has been read, and every handler has answered. */
  predicate Done(s: State) {
    !s.broken && s.input == [] && s.inflight.None? && forall k :: 0 <= k < |s.phases| ==> s.phases[k] == Answered
  }

  predicate Possible(wire: seq<TFrameId>, actions: seq<Action>, cfg: Config)
    decreases |actions|, 0
  {
    actions == [] ||
    var before, last := actions[..|actions| - 1], actions[|actions| - 1];
    Possible(wire, before, cfg) && Enabled(After(wire, before, cfg), last, cfg)
  }

  function After(wire: seq<TFrameId>, actions: seq<Action>, cfg: Config): State
    requires Possible(wire, actions, cfg)
    decreases |actions|, 1
  {
    if actions == [] then Init(wire)
    else Step(After(wire, actions[..|actions| - 1], cfg), actions[|actions| - 1], cfg)
  }

  /** Complete request messages, interleaved in any way, each under its own id. */
  ghost predicate Interleaves(wire: seq<TFrameId>, messages: map<uint32, seq<TFrameId>>) {
    && (forall i :: 0 <= i < |wire| ==> wire[i].id in messages)
    && forall id :: id in messages ==>
         Project(wire, id) == messages[id] && ReadsThrough(Request, None, Start, messages[id])
  }

  /** The messages of which some frames, but not all, are among `frames`. */
  function Partial(frames: seq<TFrameId>, messages: map<uint32, seq<TFrameId>>): set<uint32> {
    set id | id in messages && 0 < |Project(frames, id)| < |messages[id]|
  }

  /** Every prefix leaves fewer than `limit` messages partly received. */
  ghost predicate FewPartial(wire: seq<TFrameId>, messages: map<uint32, seq<TFrameId>>, cfg: Config) {
    cfg.limit == 0 || forall n :: 0 <= n <= |wire| ==> |Partial(wire[..n], messages)| < cfg.limit
  }
}

module ServerRuns {
  import opened Basics
  import opened Frames
  import opened Payloads
  import opened ArgSchemes
  import opened Defragmentation
  import opened Delivery
  import opened Dispatching
  import opened Projection
  import opened Server

  /** What holds of handler `k` with channel `c`. */
  ghost predicate HandlerOk(c: Channel, phase: Phase, senders: map<uint32, nat>, k: nat,
                            log: seq<TFrameId>, messages: map<uint32, seq<TFrameId>>)
  {
    && c.id in messages
    && c.Contents() == Project(log, c.id)
    && c.Contents() != []
    && (phase == Reading ==> c.open && ReaderOf(c.taken).Pending())
    && (phase == Reading || phase == DoneReading ==> c.id in senders && senders[c.id] == k)
    && (phase == Replying || phase == Answered ==> c.id !in senders)
    && (phase != Reading ==> !c.open && c.taken == messages[c.id] && c.queue == [])
  }

  ghost predicate HandlerInv(s: State, messages: map<uint32, seq<TFrameId>>, k: nat)
    requires k < |s.d.channels| == |s.phases|
  {
    HandlerOk(s.d.channels[k], s.phases[k], s.d.senders, k, s.log, messages)
  }

  function ChannelIds(d: Dispatcher): seq<uint32> {
    seq(|d.channels|, i requires 0 <= i < |d.channels| => d.channels[i].id)
  }

  /** One channel for each id seen so far. */
  ghost predicate OneChannelPerId(ids: seq<uint32>, log: seq<TFrameId>) {
    && (forall j, k :: 0 <= j < k < |ids| ==> ids[j] != ids[k])
    && (forall id :: id in Ids(log) ==> id in ids)
  }

  function Pipe(s: State): seq<TFrameId> {
    (if s.inflight.Some? then [s.inflight.value] else []) + s.input
  }

  ghost predicate Inv(s: State, wire: seq<TFrameId>, messages: map<uint32, seq<TFrameId>>) {
    && wire == s.log + Pipe(s)
    && Valid(s.d) && |s.phases| == |s.d.channels| && !s.broken
    && OneChannelPerId(ChannelIds(s.d), s.log)
    && forall k :: 0 <= k < |s.d.channels| ==> HandlerInv(s, messages, k)
  }

  /** What a channel holds is a prefix of its message, and a strict one while frames of the
      message are still to come. */
  lemma ContentsPrefix(s: State, wire: seq<TFrameId>, messages: map<uint32, seq<TFrameId>>, id: uint32)
    requires wire == s.log + Pipe(s) && Interleaves(wire, messages) && id in messages
    ensures Project(s.log, id) <= messages[id]
    ensures s.inflight.Some? && s.inflight.value.id == id ==>
              |Project(s.log, id)| < |messages[id]| && Project(s.log + [s.inflight.value], id) <= messages[id]
    ensures Pipe(s) == [] ==> Project(s.log, id) == messages[id]
  {
    ProjectConcat(s.log, Pipe(s), id);
    if s.inflight.Some? {
      var f := s.inflight.value;
      ProjectConcat([f], s.input, id);
      ProjectSnoc([], f, id);
      assert [] + [f] == [f];
      ProjectSnoc(s.log, f, id);
      Assoc(Project(s.log, id), Project([f], id), Project(s.input, id));
    }
    if Pipe(s) == [] {
      assert s.log + Pipe(s) == s.log;
    }
  }

  lemma StepPoll(s: State, wire: seq<TFrameId>, messages: map<uint32, seq<TFrameId>>, cfg: Config)
    requires Inv(s, wire, messages) && Enabled(s, Poll, cfg)
    ensures Inv(Step(s, Poll, cfg), wire, messages)
  {
    var s' := Step(s, Poll, cfg);
    assert Pipe(s') == Pipe(s);
    forall k | 0 <= k < |s'.d.channels| ensures HandlerInv(s', messages, k) {
      assert HandlerInv(s, messages, k);
    }
  }

  /** A routed frame is never refused: its channel, if there is one, is still being read. */
  lemma RouteTarget(s: State, wire: seq<TFrameId>, messages: map<uint32, seq<TFrameId>>)
    requires Inv(s, wire, messages) && Interleaves(wire, messages) && s.inflight.Some?
    ensures s.inflight.value.id in messages
    ensures s.inflight.value.id in s.d.senders ==> s.phases[s.d.senders[s.inflight.value.id]] == Reading
    ensures s.inflight.value.id !in s.d.senders ==>
              forall k :: 0 <= k < |s.d.channels| ==> s.d.channels[k].id != s.inflight.value.id
  {
    var f := s.inflight.value;
    assert wire[|s.log|] == f;
    ContentsPrefix(s, wire, messages, f.id);
    forall k | 0 <= k < |s.d.channels| && s.d.channels[k].id == f.id
      ensures s.phases[k] == Reading && f.id in s.d.senders
    {
      assert HandlerInv(s, messages, k);
      assert s.d.channels[k].taken + [] == s.d.channels[k].taken;
    }
  }

  /** A frame for another message passes a handler by. */
  lemma HandlerPassedBy(c: Channel, phase: Phase, senders: map<uint32, nat>, senders': map<uint32, nat>, k: nat,
                        log: seq<TFrameId>, f: TFrameId, messages: map<uint32, seq<TFrameId>>)
    requires HandlerOk(c, phase, senders, k, log, messages) && c.id != f.id
    requires (c.id in senders <==> c.id in senders') && (c.id in senders ==> senders[c.id] == senders'[c.id])
    ensures HandlerOk(c, phase, senders', k, log + [f], messages)
  {
    ProjectSnoc(log, f, c.id);
    assert Project(log, c.id) + [] == Project(log, c.id);
  }

  lemma HandlerGetsFrame(c: Channel, senders: map<uint32, nat>, k: nat,
                         log: seq<TFrameId>, f: TFrameId, messages: map<uint32, seq<TFrameId>>)
    requires HandlerOk(c, Reading, senders, k, log, messages) && c.id == f.id
    ensures HandlerOk(c.(queue := c.queue + [f]), Reading, senders, k, log + [f], messages)
  {
    ProjectSnoc(log, f, c.id);
    Assoc(c.taken, c.queue, [f]);
  }

  lemma HandlerStarts(senders: map<uint32, nat>, k: nat, log: seq<TFrameId>, f: TFrameId,
                      messages: map<uint32, seq<TFrameId>>)
    requires f.id in messages && f.id in senders && senders[f.id] == k && f.id !in Ids(log)
    ensures HandlerOk(Channel(f.id, [f], [], true), Reading, senders, k, log + [f], messages)
  {
    ProjectSnoc(log, f, f.id);
    ProjectMember(log, f.id);
    assert [] + [f] == [f];
  }

  lemma StepRoute(s: State, wire: seq<TFrameId>, messages: map<uint32, seq<TFrameId>>, cfg: Config)
    requires Inv(s, wire, messages) && Interleaves(wire, messages) && Enabled(s, Route, cfg)
    ensures Inv(Step(s, Route, cfg), wire, messages)
  {
    hide Interleaves, HandlerOk, CanSend;
    var f, s' := s.inflight.value, Step(s, Route, cfg);
    RouteTarget(s, wire, messages);
    RouteOutcome(s, messages, cfg);
    assert Pipe(s) == [f] + s.input;
    Assoc(s.log, [f], s.input);
    assert Pipe(s') == s.input;
    forall k | 0 <= k < |s'.d.channels| ensures HandlerInv(s', messages, k) {
      if k == |s.d.channels| {
        assert f.id !in ChannelIds(s.d);
        HandlerStarts(s'.d.senders, k, s.log, f, messages);
      } else {
        assert HandlerInv(s, messages, k);
        if s.d.channels[k].id != f.id {
          HandlerPassedBy(s.d.channels[k], s.phases[k], s.d.senders, s'.d.senders, k, s.log, f, messages);
        } else {
          OwnerIsUnique(s, k);
          HandlerGetsFrame(s.d.channels[k], s.d.senders, k, s.log, f, messages);
        }
      }
    }
    RouteKeepsIds(s, s', f);
  }

  /** The dispatcher's answer to a frame that can be routed. */
  lemma RouteOutcome(s: State, messages: map<uint32, seq<TFrameId>>, cfg: Config)
    requires Enabled(s, Route, cfg)
    requires forall k :: 0 <= k < |s.d.channels| ==> HandlerInv(s, messages, k)
    requires s.inflight.value.id in s.d.senders ==> s.phases[s.d.senders[s.inflight.value.id]] == Reading
    ensures var f, s' := s.inflight.value, Step(s, Route, cfg);
            && !s'.broken && Valid(s'.d)
            && if f.id in s.d.senders then
                 var k := s.d.senders[f.id];
                 && s'.d.senders == s.d.senders && s'.phases == s.phases
                 && s'.d.channels == s.d.channels[k := s.d.channels[k].(queue := s.d.channels[k].queue + [f])]
               else
                 && s'.d.senders == s.d.senders[f.id := |s.d.channels|] && s'.phases == s.phases + [Reading]
                 && s'.d.channels == s.d.channels + [Channel(f.id, [f], [], true)]
  {
    var f := s.inflight.value;
    if f.id in s.d.senders {
      assert HandlerInv(s, messages, s.d.senders[f.id]);
    }
  }

  lemma OwnerIsUnique(s: State, k: nat)
    requires Valid(s.d) && k < |s.d.channels| && s.d.channels[k].id in s.d.senders
    requires OneChannelPerId(ChannelIds(s.d), s.log)
    ensures s.d.senders[s.d.channels[k].id] == k
  {
    var j := s.d.senders[s.d.channels[k].id];
    assert ChannelIds(s.d)[j] == ChannelIds(s.d)[k];
  }

  lemma RouteKeepsIds(s: State, s': State, f: TFrameId)
    requires OneChannelPerId(ChannelIds(s.d), s.log) && Valid(s.d) && s'.log == s.log + [f]
    requires if f.id in s.d.senders then ChannelIds(s'.d) == ChannelIds(s.d)
             else ChannelIds(s'.d) == ChannelIds(s.d) + [f.id]
    requires f.id !in s.d.senders ==> forall k :: 0 <= k < |s.d.channels| ==> s.d.channels[k].id != f.id
    ensures OneChannelPerId(ChannelIds(s'.d), s'.log)
  {
    var ids, ids' := ChannelIds(s.d), ChannelIds(s'.d);
    forall id | id in Ids(s'.log) ensures id in ids' {
      if id == f.id {
        if f.id in s.d.senders {
          assert ids[s.d.senders[f.id]] == f.id;
        } else {
          assert ids'[|ids|] == f.id;
        }
      } else {
        assert id in Ids(s.log);
        var k :| 0 <= k < |ids| && ids[k] == id;
        assert ids'[k] == id;
      }
    }
  }

  /** Taking a frame leaves the message unfinished or completes it; it never fails. */
  lemma HandlerTakes(c: Channel, senders: map<uint32, nat>, k: nat,
                     log: seq<TFrameId>, messages: map<uint32, seq<TFrameId>>)
    requires HandlerOk(c, Reading, senders, k, log, messages) && c.queue != []
    requires Project(log, c.id) <= messages[c.id] && ReadsThrough(Request, None, Start, messages[c.id])
    ensures var c' := c.(queue := c.queue[1..], taken := c.taken + [c.queue[0]]);
            var reader := ReaderOf(c'.taken);
            && !reader.Failed?
            && if reader.Finished? then HandlerOk(c'.(open := false), DoneReading, senders, k, log, messages)
               else HandlerOk(c', Reading, senders, k, log, messages)
  {
    var m, taken := messages[c.id], c.taken + [c.queue[0]];
    assert c.queue == [c.queue[0]] + c.queue[1..];
    Assoc(c.taken, [c.queue[0]], c.queue[1..]);
    assert taken == m[..|taken|];
    ConsumesExactly(Request, None, Start, m, []);
    hide ReadsThrough, ReadAll;
    if |taken| == |m| {
      assert taken == m;
    }
  }

  lemma StepReceive(s: State, wire: seq<TFrameId>, messages: map<uint32, seq<TFrameId>>, cfg: Config, k: nat)
    requires Inv(s, wire, messages) && Interleaves(wire, messages) && Enabled(s, Receive(k), cfg)
    ensures Inv(Step(s, Receive(k), cfg), wire, messages)
  {
    var s' := Step(s, Receive(k), cfg);
    assert HandlerInv(s, messages, k);
    var c := s.d.channels[k];
    assert c.id in messages;
    ContentsPrefix(s, wire, messages, c.id);
    HandlerTakes(c, s.d.senders, k, s.log, messages);
    hide Interleaves, HandlerOk, ReaderOf;
    forall j | 0 <= j < |s'.d.channels| ensures HandlerInv(s', messages, j) {
      assert HandlerInv(s, messages, j);
    }
    assert ChannelIds(s'.d) == ChannelIds(s.d);
    assert Pipe(s') == Pipe(s);
  }

  lemma HandlerFreed(c: Channel, phase: Phase, senders: map<uint32, nat>, id: uint32, k: nat,
                     log: seq<TFrameId>, messages: map<uint32, seq<TFrameId>>)
    requires HandlerOk(c, phase, senders, k, log, messages)
    ensures c.id != id ==> HandlerOk(c, phase, senders - {id}, k, log, messages)
    ensures c.id == id && phase == DoneReading ==> HandlerOk(c, Replying, senders - {id}, k, log, messages)
    ensures phase == Replying ==> HandlerOk(c, Answered, senders, k, log, messages)
  {
  }

  lemma StepFinish(s: State, wire: seq<TFrameId>, messages: map<uint32, seq<TFrameId>>, cfg: Config, a: Action)
    requires Inv(s, wire, messages) && Enabled(s, a, cfg) && (a.Deregister? || a.Answer?)
    ensures Inv(Step(s, a, cfg), wire, messages)
  {
    hide HandlerOk;
    var s' := Step(s, a, cfg);
    var id := s.d.channels[a.k].id;
    forall j | 0 <= j < |s'.d.channels| ensures HandlerInv(s', messages, j) {
      assert HandlerInv(s, messages, j);
      HandlerFreed(s.d.channels[j], s.phases[j], s.d.senders, id, j, s.log, messages);
      if j != a.k {
        assert ChannelIds(s.d)[j] != ChannelIds(s.d)[a.k];
      }
    }
  }

  /** Every action keeps the invariant, so the connection never breaks. */
  lemma StepKeepsInv(s: State, wire: seq<TFrameId>, messages: map<uint32, seq<TFrameId>>, cfg: Config, a: Action)
    requires Inv(s, wire, messages) && Interleaves(wire, messages) && Enabled(s, a, cfg)
    ensures Inv(Step(s, a, cfg), wire, messages)
  {
    match a {
      case Poll => StepPoll(s, wire, messages, cfg);
      case Route => StepRoute(s, wire, messages, cfg);
      case Receive(k) => StepReceive(s, wire, messages, cfg, k);
      case _ => StepFinish(s, wire, messages, cfg, a);
    }
  }

  // Progress

  /** A frame waits to be routed only while reading is allowed. */
  predicate InflightMayRead(s: State, cfg: Config) { s.inflight.Some? ==> MayRead(s, cfg) }

  lemma UnfinishedSteps(phases: seq<Phase>, k: nat, phase: Phase)
    requires k < |phases| && phases[k] != Answered
    ensures |Unfinished(phases[k := phase])| <= |Unfinished(phases)|
  {
    SubsetSize(Unfinished(phases[k := phase]), Unfinished(phases));
  }

  lemma {:induction false} SubsetSize<T>(a: set<T>, b: set<T>)
    requires a <= b
    ensures |a| <= |b|
    decreases |a|
  {
    if a != {} {
      var x :| x in a;
      SubsetSize(a - {x}, b - {x});
    }
  }

  lemma StepKeepsInflight(s: State, cfg: Config, a: Action)
    requires Enabled(s, a, cfg) && InflightMayRead(s, cfg)
    ensures InflightMayRead(Step(s, a, cfg), cfg)
  {
    match a {
      case Receive(k) => UnfinishedSteps(s.phases, k, DoneReading);
      case Deregister(k) => UnfinishedSteps(s.phases, k, Replying);
      case Answer(k) => UnfinishedSteps(s.phases, k, Answered);
      case _ =>
    }
  }

  /** Distinct ids of handlers in `a` all lie in `b`. */
  lemma {:induction false} Injection(a: set<nat>, b: set<uint32>, ids: seq<uint32>)
    requires forall k :: k in a ==> k < |ids| && ids[k] in b
    requires forall j, k :: 0 <= j < k < |ids| ==> ids[j] != ids[k]
    ensures |a| <= |b|
    decreases |a|
  {
    if a != {} {
      var k :| k in a;
      Injection(a - {k}, b - {ids[k]}, ids);
    }
  }

  /** Every id in `b` belongs to a handler in `a`. */
  lemma {:induction false} Surjection(a: set<nat>, b: set<uint32>, ids: seq<uint32>)
    requires forall id :: id in b ==> exists k :: k in a && k < |ids| && ids[k] == id
    ensures |b| <= |a|
    decreases |b|
  {
    if b != {} {
      var id :| id in b;
      var k :| k in a && k < |ids| && ids[k] == id;
      forall q | q in b - {id} ensures exists j :: j in a - {k} && j < |ids| && ids[j] == q {
        var j :| j in a && j < |ids| && ids[j] == q;
        assert j in a - {k};
      }
      Surjection(a - {k}, b - {id}, ids);
    }
  }

  /** Each partly received message has its own unfinished handler. */
  lemma PartialAtMostUnfinished(s: State, wire: seq<TFrameId>, messages: map<uint32, seq<TFrameId>>)
    requires Inv(s, wire, messages)
    ensures |Partial(s.log, messages)| <= |Unfinished(s.phases)|
  {
    var ids := ChannelIds(s.d);
    forall id | id in Partial(s.log, messages)
      ensures exists k :: k in Unfinished(s.phases) && k < |ids| && ids[k] == id
    {
      ProjectMember(s.log, id);
      var k :| 0 <= k < |ids| && ids[k] == id;
      assert HandlerInv(s, messages, k);
      var c := s.d.channels[k];
      assert c.taken + [] == c.taken;
      assert k in Unfinished(s.phases);
    }
    Surjection(Unfinished(s.phases), Partial(s.log, messages), ids);
  }

  /** A handler that is reading and has emptied its channel has received its message in part. */
  lemma StarvedIsPartial(s: State, wire: seq<TFrameId>, messages: map<uint32, seq<TFrameId>>, k: nat)
    requires Inv(s, wire, messages) && Interleaves(wire, messages) && k < |s.phases|
    requires s.phases[k] == Reading && s.d.channels[k].queue == []
    ensures s.d.channels[k].id in Partial(s.log, messages)
    ensures Pipe(s) != []
  {
    assert HandlerInv(s, messages, k);
    var c := s.d.channels[k];
    assert c.id in messages;
    assert c.taken + [] == c.taken;
    ContentsPrefix(s, wire, messages, c.id);
    ConsumesExactly(Request, None, Start, messages[c.id], []);
    assert c.taken != messages[c.id];
    hide ReadsThrough, ReadAll;
    PrefixLength(c.taken, messages[c.id]);
  }

  lemma PrefixLength<T>(a: seq<T>, b: seq<T>)
    requires a <= b && a != b
    ensures |a| < |b|
  {
  }

  /** The next action of a handler that has not answered. */
  function SomeHandler(s: State, k: nat): Action
    requires k < |s.phases|
  {
    match s.phases[k]
    case Reading => Receive(k)
    case DoneReading => Deregister(k)
    case _ => Answer(k)
  }

  lemma WaitingFrameMoves(s: State, wire: seq<TFrameId>, messages: map<uint32, seq<TFrameId>>, cfg: Config)
    returns (a: Action)
    requires Inv(s, wire, messages) && Interleaves(wire, messages) && cfg.capacity > 0
    requires s.inflight.Some? && InflightMayRead(s, cfg)
    ensures Enabled(s, a, cfg)
  {
    RouteTarget(s, wire, messages);
    var id := s.inflight.value.id;
    if id in s.d.senders && !CanSend(s.d.channels[s.d.senders[id]], cfg.capacity) {
      a := Receive(s.d.senders[id]);
    } else {
      a := Route;
    }
  }

  lemma QuietServerReads(s: State, wire: seq<TFrameId>, messages: map<uint32, seq<TFrameId>>, cfg: Config)
    requires Inv(s, wire, messages) && Interleaves(wire, messages)
    requires s.inflight.None? && !Done(s)
    requires cfg.limit == 0 || |Partial(s.log, messages)| < cfg.limit
    requires forall k :: 0 <= k < |s.phases| ==> !Enabled(s, SomeHandler(s, k), cfg)
    ensures Enabled(s, Poll, cfg)
  {
    forall k | k in Unfinished(s.phases)
      ensures s.d.channels[k].id in Partial(s.log, messages) && Pipe(s) != []
    {
      assert !Enabled(s, SomeHandler(s, k), cfg);
      StarvedIsPartial(s, wire, messages, k);
    }
    var ids := ChannelIds(s.d);
    Injection(Unfinished(s.phases), Partial(s.log, messages), ids);
    if k :| 0 <= k < |s.phases| && s.phases[k] != Answered {
      assert k in Unfinished(s.phases);
    }
  }

  /** No deadlock: while anything is left to read or answer, some action is possible. */
  lemma NeverStuck(s: State, wire: seq<TFrameId>, messages: map<uint32, seq<TFrameId>>, cfg: Config)
    returns (a: Action)
    requires Inv(s, wire, messages) && Interleaves(wire, messages) && cfg.capacity > 0
    requires FewPartial(wire, messages, cfg) && InflightMayRead(s, cfg) && !Done(s)
    ensures Enabled(s, a, cfg)
  {
    hide Interleaves;
    if s.inflight.Some? {
      a := WaitingFrameMoves(s, wire, messages, cfg);
    } else if k :| 0 <= k < |s.phases| && Enabled(s, SomeHandler(s, k), cfg) {
      a := SomeHandler(s, k);
    } else {
      assert s.log == wire[..|s.log|];
      QuietServerReads(s, wire, messages, cfg);
      a := Poll;
    }
  }

  // Termination

  function PhaseWork(p: Phase): nat {
    match p
    case Reading => 3
    case DoneReading => 2
    case Replying => 1
    case Answered => 0
  }

  function PhasesWork(phases: seq<Phase>): nat {
    if phases == [] then 0 else PhaseWork(phases[|phases| - 1]) + PhasesWork(phases[..|phases| - 1])
  }

  function Queued(channels: seq<Channel>): nat {
    if channels == [] then 0 else |channels[|channels| - 1].queue| + Queued(channels[..|channels| - 1])
  }

  function Remaining(s: State): nat {
    10 * |s.input| + (if s.inflight.Some? then 9 else 0) + Queued(s.d.channels) + PhasesWork(s.phases)
  }

  lemma {:induction false} PhasesWorkUpdate(phases: seq<Phase>, k: nat, p: Phase)
    requires k < |phases|
    ensures PhasesWork(phases[k := p]) == PhasesWork(phases) - PhaseWork(phases[k]) + PhaseWork(p)
    decreases |phases|
  {
    var n := |phases| - 1;
    if k < n {
      PhasesWorkUpdate(phases[..n], k, p);
      assert phases[k := p][..n] == phases[..n][k := p];
    } else {
      assert phases[k := p][..n] == phases[..n];
    }
  }

  lemma {:induction false} QueuedUpdate(channels: seq<Channel>, k: nat, c: Channel)
    requires k < |channels|
    ensures Queued(channels[k := c]) == Queued(channels) - |channels[k].queue| + |c.queue|
    decreases |channels|
  {
    var n := |channels| - 1;
    if k < n {
      QueuedUpdate(channels[..n], k, c);
      assert channels[k := c][..n] == channels[..n][k := c];
    } else {
      assert channels[k := c][..n] == channels[..n];
    }
  }

  lemma RouteDecreases(s: State, cfg: Config)
    requires Enabled(s, Route, cfg)
    ensures Remaining(Step(s, Route, cfg)) < Remaining(s)
  {
    var s' := Step(s, Route, cfg);
    var f := s.inflight.value;
    if f.id in s.d.senders {
      var k := s.d.senders[f.id];
      QueuedUpdate(s.d.channels, k, s'.d.channels[k]);
      assert s'.d.channels == s.d.channels[k := s'.d.channels[k]];
    } else {
      assert s'.d.channels[..|s.d.channels|] == s.d.channels;
      assert s'.phases[..|s.phases|] == s.phases;
    }
  }

  lemma ReceiveDecreases(s: State, cfg: Config, k: nat)
    requires Enabled(s, Receive(k), cfg)
    ensures Remaining(Step(s, Receive(k), cfg)) < Remaining(s)
  {
    hide ReaderOf;
    var s' := Step(s, Receive(k), cfg);
    QueuedUpdate(s.d.channels, k, s'.d.channels[k]);
    assert s'.d.channels == s.d.channels[k := s'.d.channels[k]];
    PhasesWorkUpdate(s.phases, k, DoneReading);
  }

  /** Every action leaves less to do. */
  lemma StepDecreases(s: State, cfg: Config, a: Action)
    requires Enabled(s, a, cfg)
    ensures Remaining(Step(s, a, cfg)) < Remaining(s)
  {
    match a {
      case Poll =>
      case Route => RouteDecreases(s, cfg);
      case Receive(k) => ReceiveDecreases(s, cfg, k);
      case Deregister(k) => PhasesWorkUpdate(s.phases, k, Replying);
      case Answer(k) => PhasesWorkUpdate(s.phases, k, Answered);
    }
  }

  // Whole runs

  lemma {:induction false} RunKeepsInv(wire: seq<TFrameId>, messages: map<uint32, seq<TFrameId>>,
                                      actions: seq<Action>, cfg: Config)
    requires Interleaves(wire, messages) && Possible(wire, actions, cfg)
    ensures var s := After(wire, actions, cfg);
            && Inv(s, wire, messages) && InflightMayRead(s, cfg)
            && |actions| + Remaining(s) <= 10 * |wire|
    decreases |actions|
  {
    hide Interleaves;
    if actions == [] {
      assert [] + wire == wire;
    } else {
      var before, a := actions[..|actions| - 1], actions[|actions| - 1];
      var s := After(wire, before, cfg);
      RunKeepsInv(wire, messages, before, cfg);
      StepKeepsInv(s, wire, messages, cfg, a);
      StepKeepsInflight(s, cfg, a);
      StepDecreases(s, cfg, a);
    }
  }

  /** Handler `k` has answered, and what it was given is the whole of its message. */
  ghost predicate AnsweredWhole(s: State, k: nat, messages: map<uint32, seq<TFrameId>>) {
    && k < |s.d.channels| == |s.phases|
    && s.phases[k] == Answered
    && s.d.channels[k].id in messages
    && s.d.channels[k].taken == messages[s.d.channels[k].id]
    && ReaderOf(s.d.channels[k].taken).Finished?
  }

  /** When everything is done, every message has exactly one handler, and it has answered. */
  lemma DoneMeansAnswered(s: State, wire: seq<TFrameId>, messages: map<uint32, seq<TFrameId>>)
    requires Inv(s, wire, messages) && Interleaves(wire, messages) && Done(s)
    ensures forall k :: 0 <= k < |s.d.channels| ==> AnsweredWhole(s, k, messages)
    ensures forall id :: id in messages ==> exists k :: 0 <= k < |s.d.channels| && s.d.channels[k].id == id
    ensures forall j, k :: 0 <= j < k < |s.d.channels| ==> s.d.channels[j].id != s.d.channels[k].id
  {
    forall k | 0 <= k < |s.d.channels| ensures AnsweredWhole(s, k, messages) {
      assert HandlerInv(s, messages, k);
      ConsumesExactly(Request, None, Start, messages[s.d.channels[k].id], []);
    }
    hide ReadsThrough, ReadAll, HandlerOk;
    var ids := ChannelIds(s.d);
    assert wire == s.log + [] == s.log;
    forall id | id in messages ensures exists k :: 0 <= k < |s.d.channels| && s.d.channels[k].id == id {
      assert messages[id] != [] by { NonEmpty(messages[id]); }
      ProjectMember(s.log, id);
      assert id in ids;
      var k :| 0 <= k < |ids| && ids[k] == id;
      assert s.d.channels[k].id == id;
    }
    forall j, k | 0 <= j < k < |s.d.channels| ensures s.d.channels[j].id != s.d.channels[k].id {
      assert ids[j] != ids[k];
    }
  }

  lemma NonEmpty(frames: seq<TFrameId>)
    requires ReadsThrough(Request, None, Start, frames)
    ensures frames != []
  {
  }

  /** Server progress. With few enough messages partly received at every point of the stream,
      no run goes on for ever, and every run that can go no further has read everything and
      answered every request, each from the whole of its own frames. */
  lemma EveryRunAnswersEverything(wire: seq<TFrameId>, messages: map<uint32, seq<TFrameId>>,
                                  actions: seq<Action>, cfg: Config)
    requires Interleaves(wire, messages) && FewPartial(wire, messages, cfg) && cfg.capacity > 0
    requires Possible(wire, actions, cfg)
    ensures |actions| <= 10 * |wire|
    ensures var s := After(wire, actions, cfg);
            (forall a :: !Enabled(s, a, cfg)) ==>
              && Done(s)
              && (forall k :: 0 <= k < |s.d.channels| ==> AnsweredWhole(s, k, messages))
              && (forall id :: id in messages ==> exists k :: 0 <= k < |s.d.channels| && s.d.channels[k].id == id)
  {
    hide Interleaves, FewPartial, Inv, Enabled;
    var s := After(wire, actions, cfg);
    RunKeepsInv(wire, messages, actions, cfg);
    if !Done(s) {
      var a := NeverStuck(s, wire, messages, cfg);
    } else {
      DoneMeansAnswered(s, wire, messages);
    }
  }

  /** Any run can be completed. */
  lemma {:induction false} RunCanFinish(wire: seq<TFrameId>, messages: map<uint32, seq<TFrameId>>,
                                       actions: seq<Action>, cfg: Config) returns (all: seq<Action>)
    requires Interleaves(wire, messages) && FewPartial(wire, messages, cfg) && cfg.capacity > 0
    requires Possible(wire, actions, cfg)
    ensures Possible(wire, all, cfg) && Done(After(wire, all, cfg))
    decreases 10 * |wire| - |actions|
  {
    hide Interleaves, FewPartial, Inv, Enabled, Done, Step;
    var s := After(wire, actions, cfg);
    RunKeepsInv(wire, messages, actions, cfg);
    if Done(s) {
      all := actions;
    } else {
      var a := NeverStuck(s, wire, messages, cfg);
      var more := actions + [a];
      assert more[..|more| - 1] == actions;
      assert Possible(wire, more, cfg);
      RunKeepsInv(wire, messages, more, cfg);
      all := RunCanFinish(wire, messages, more, cfg);
    }
  }

  /** Each frame was taken off the wire while few messages were partly received. */
  ghost predicate ReadUnderLimit(s: State, wire: seq<TFrameId>, messages: map<uint32, seq<TFrameId>>, cfg: Config) {
    forall n :: 0 <= n < |wire| - |s.input| && n <= |wire| ==> |Partial(wire[..n], messages)| < cfg.limit
  }

  lemma {:induction false} RunReadsUnderLimit(wire: seq<TFrameId>, messages: map<uint32, seq<TFrameId>>,
                                             actions: seq<Action>, cfg: Config)
    requires Interleaves(wire, messages) && Possible(wire, actions, cfg) && cfg.limit > 0
    ensures ReadUnderLimit(After(wire, actions, cfg), wire, messages, cfg)
    decreases |actions|
  {
    hide Interleaves, Partial;
    if actions != [] {
      var before, a := actions[..|actions| - 1], actions[|actions| - 1];
      var s, s' := After(wire, before, cfg), After(wire, actions, cfg);
      RunReadsUnderLimit(wire, messages, before, cfg);
      RunKeepsInv(wire, messages, before, cfg);
      PartialAtMostUnfinished(s, wire, messages);
      forall n | 0 <= n < |wire| - |s'.input| && n <= |wire|
        ensures |Partial(wire[..n], messages)| < cfg.limit
      {
        if n == |wire| - |s.input| {
          assert wire[..n] == s.log;
        }
      }
    }
  }

  lemma NothingPartialAtTheEnd(wire: seq<TFrameId>, messages: map<uint32, seq<TFrameId>>)
    requires Interleaves(wire, messages)
    ensures Partial(wire, messages) == {}
  {
  }

  lemma FinishedRunHadRoom(wire: seq<TFrameId>, messages: map<uint32, seq<TFrameId>>,
                           actions: seq<Action>, cfg: Config)
    requires Interleaves(wire, messages) && Possible(wire, actions, cfg) && Done(After(wire, actions, cfg))
    ensures FewPartial(wire, messages, cfg)
  {
    hide Interleaves, Partial;
    if cfg.limit > 0 {
      RunReadsUnderLimit(wire, messages, actions, cfg);
      NothingPartialAtTheEnd(wire, messages);
      assert wire[..|wire|] == wire;
    }
  }

  /** Exactly when progress is assured: some run answers everything if and only if every prefix
      of the stream leaves fewer than `limit` messages partly received (or there is no limit).
      By the theorem above every run then does. */
  lemma ProgressIff(wire: seq<TFrameId>, messages: map<uint32, seq<TFrameId>>, cfg: Config)
    requires Interleaves(wire, messages) && cfg.capacity > 0
    ensures (exists actions :: Possible(wire, actions, cfg) && Done(After(wire, actions, cfg)))
       <==> FewPartial(wire, messages, cfg)
  {
    hide Interleaves, Done, Enabled, FewPartial;
    if FewPartial(wire, messages, cfg) {
      var all := RunCanFinish(wire, messages, [], cfg);
    }
    forall actions | Possible(wire, actions, cfg) && Done(After(wire, actions, cfg))
      ensures FewPartial(wire, messages, cfg)
    {
      FinishedRunHadRoom(wire, messages, actions, cfg);
    }
  }

  /** With a limit of one handler, progress is assured exactly when every request fits one frame. */
  lemma OneHandlerNeedsOneFrame(wire: seq<TFrameId>, messages: map<uint32, seq<TFrameId>>, cfg: Config)
    requires Interleaves(wire, messages) && cfg.limit == 1
    ensures FewPartial(wire, messages, cfg) <==> forall id :: id in messages ==> |messages[id]| == 1
  {
    forall id | id in messages ensures messages[id] != [] {
      NonEmpty(messages[id]);
    }
    hide ReadsThrough;
    forall id | id in messages && |messages[id]| > 1 ensures !FewPartial(wire, messages, cfg) {
      var n := FirstOf(wire, id);
      assert id in Partial(wire[..n], messages);
      SubsetSize({id}, Partial(wire[..n], messages));
    }
    if forall id :: id in messages ==> |messages[id]| == 1 {
      forall n | 0 <= n <= |wire| ensures |Partial(wire[..n], messages)| < cfg.limit {
        assert Partial(wire[..n], messages) == {};
      }
    }
  }

  /** The point of the stream just after the first frame of a message. */
  lemma {:induction false} FirstOf(wire: seq<TFrameId>, id: uint32) returns (n: nat)
    requires Project(wire, id) != []
    ensures n <= |wire| && |Project(wire[..n], id)| == 1
    decreases |wire|
  {
    var m := |wire| - 1;
    if Project(wire[..m], id) == [] {
      n := |wire|;
      assert wire[..n] == wire;
    } else {
      n := FirstOf(wire[..m], id);
      assert wire[..m][..n] == wire[..n];
    }
  }

  // Bounds on every run, whatever arrives

  /** At no point of any run are more than `limit` handlers unfinished. */
  lemma {:induction false} HandlersAreBounded(wire: seq<TFrameId>, actions: seq<Action>, cfg: Config)
    requires Possible(wire, actions, cfg) && cfg.limit > 0
    ensures var s := After(wire, actions, cfg);
            |set k: nat | k < |s.phases| && s.phases[k] != Answered| <= cfg.limit
    decreases |actions|
  {
    var s' := After(wire, actions, cfg);
    assert Unfinished(s'.phases) == set k: nat | k < |s'.phases| && s'.phases[k] != Answered;
    if actions == [] {
      assert Unfinished([]) == {};
    } else {
      var before, a := actions[..|actions| - 1], actions[|actions| - 1];
      var s := After(wire, before, cfg);
      HandlersAreBounded(wire, before, cfg);
      assert Unfinished(s.phases) == set k: nat | k < |s.phases| && s.phases[k] != Answered;
      UnfinishedStep(s, a, cfg);
    }
  }

  lemma UnfinishedStep(s: State, a: Action, cfg: Config)
    requires Enabled(s, a, cfg)
    ensures |Unfinished(Step(s, a, cfg).phases)| <= |Unfinished(s.phases)| + (if a.Route? then 1 else 0)
    ensures a.Route? ==> MayRead(s, cfg)
  {
    match a {
      case Poll =>
      case Route => SubsetSize(Unfinished(Step(s, a, cfg).phases), Unfinished(s.phases) + {|s.phases|});
      case Receive(k) => UnfinishedSteps(s.phases, k, DoneReading);
      case Deregister(k) => UnfinishedSteps(s.phases, k, Replying);
      case Answer(k) => UnfinishedSteps(s.phases, k, Answered);
    }
  }

  /** At no point of any run does a channel hold more than its capacity. */
  lemma {:induction false} QueuesAreBounded(wire: seq<TFrameId>, actions: seq<Action>, cfg: Config)
    requires Possible(wire, actions, cfg) && cfg.capacity > 0
    ensures forall k :: 0 <= k < |After(wire, actions, cfg).d.channels| ==>
              |After(wire, actions, cfg).d.channels[k].queue| <= cfg.capacity
    decreases |actions|
  {
    if actions != [] {
      var before, a := actions[..|actions| - 1], actions[|actions| - 1];
      QueuesAreBounded(wire, before, cfg);
      QueueStep(After(wire, before, cfg), a, cfg);
    }
  }

  lemma QueueStep(s: State, a: Action, cfg: Config)
    requires Enabled(s, a, cfg) && cfg.capacity > 0
    requires forall k :: 0 <= k < |s.d.channels| ==> |s.d.channels[k].queue| <= cfg.capacity
    ensures forall k :: 0 <= k < |Step(s, a, cfg).d.channels| ==>
              |Step(s, a, cfg).d.channels[k].queue| <= cfg.capacity
  {
    hide ReaderOf;
  }

  /** What the lock is for: a frame that waits to be routed finds its id registered for the same
      channel, or not at all, until it is routed. */
  lemma WaitingFrameKeepsItsTarget(s: State, a: Action, cfg: Config)
    requires Enabled(s, a, cfg) && a != Route && s.inflight.Some?
    ensures var s', id := Step(s, a, cfg), s.inflight.value.id;
            && s'.inflight == s.inflight
            && (id in s'.d.senders <==> id in s.d.senders)
            && (id in s.d.senders ==> s'.d.senders[id] == s.d.senders[id])
  {
    hide ReaderOf;
  }

  /** A message that cannot be read, and a frame for a handler that is past reading, end the
      connection: no action is possible any more. */
  lemma ErrorsEndTheConnection(s: State, a: Action, cfg: Config)
    requires Enabled(s, a, cfg)
    requires || (a.Receive? && ReaderOf(s.d.channels[a.k].taken + [s.d.channels[a.k].queue[0]]).Failed?)
             || (a.Route? && s.inflight.value.id in s.d.senders
                 && !s.d.channels[s.d.senders[s.inflight.value.id]].open)
    ensures forall b :: !Enabled(Step(s, a, cfg), b, cfg)
    ensures !Done(Step(s, a, cfg))
  {
    hide ReaderOf;
  }
}

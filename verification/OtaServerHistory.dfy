/** What the server's counters, completions and delays mean in terms of the events of a run. */
module OtaServerHistory {
  import opened ByteUtilities
  import opened OtaProtocol
  import opened OtaServerModel
  import opened OtaServerProperties

  // ---- Error counters ----

  predicate Armed(s: Server, e: Event, stage: Stage) {
    e.TimerExpired? && s.timer && s.mode.Running? && s.mode.stage == stage
  }

  /** The event is the sent callback the server is waiting for, with this status. */
  predicate AwaitedSent(s: Server, e: Event, status: SendStatus) {
    e.MessageSent? && e.endpoint == SERVER_ENDPOINT && e.status == status &&
    s.mode.Running? && s.mode.stage == Pending && e.command == RequestCommand(s.mode.phase)
  }

  /** A frame the stack did not take, or took and could not send. */
  predicate StackFailed(s: Server, e: Event) {
    (Armed(s, e, Interval) && !e.submit && !(s.mode.phase == SegmentPhase && e.image.None?)) ||
    AwaitedSent(s, e, StackFailure)
  }

  /** A frame sent without acknowledgement, or one no response followed in time. */
  predicate TargetFailed(s: Server, e: Event) {
    AwaitedSent(s, e, NoAck) || Armed(s, e, Waiting)
  }

  predicate StartsProcess(s: Server, e: Event) {
    (e.StartDistribution? && AcceptsDistribution(s, e.target, e.imageSize)) ||
    (e.StartBootload? && AcceptsBootload(s, e.target))
  }

  /** The target agreed to go on: to the first segment, or past the segment just sent. */
  predicate Progressed(s: Server, e: Event) {
    e.IncomingMessage? && AcceptsMessage(s, e) && ResponseStatus(e.payload) == RESP_ONGOING &&
    (s.mode.phase == HandshakePhase || (s.mode.phase == SegmentPhase && WordField(e.payload) == s.sent))
  }

  /** Stack failures since a frame last left the radio, or since the process began. */
  function StackFailures(s: Server, events: seq<Event>): nat
    requires Sane(s)
  {
    if events == [] then 0
    else
      var prefix, e := events[..|events| - 1], events[|events| - 1];
      var before := Run(s, prefix).server;
      if StartsProcess(before, e) || AwaitedSent(before, e, Delivered) || AwaitedSent(before, e, NoAck) then 0
      else StackFailures(s, prefix) + if StackFailed(before, e) then 1 else 0
  }

  /** Target failures since the target last agreed to go on, or since the process began. */
  function TargetFailures(s: Server, events: seq<Event>): nat
    requires Sane(s)
  {
    if events == [] then 0
    else
      var prefix, e := events[..|events| - 1], events[|events| - 1];
      var before := Run(s, prefix).server;
      if StartsProcess(before, e) || Progressed(before, e) then 0
      else TargetFailures(s, prefix) + if TargetFailed(before, e) then 1 else 0
  }

  lemma StackCounterStep(s: Server, e: Event)
    requires Orderly(s) && Fair(s, e)
    ensures Step(s, e).server.stackErrors ==
            if StartsProcess(s, e) || AwaitedSent(s, e, Delivered) || AwaitedSent(s, e, NoAck) then 0
            else s.stackErrors + if StackFailed(s, e) then 1 else 0
  {
    if Armed(s, e, Interval) && s.mode.phase == SegmentPhase {
      WindowInRange(s.next, s.size);
    }
  }

  lemma TargetCounterStep(s: Server, e: Event)
    requires Orderly(s) && Fair(s, e)
    ensures Step(s, e).server.targetErrors ==
            if StartsProcess(s, e) || Progressed(s, e) then 0
            else s.targetErrors + if TargetFailed(s, e) then 1 else 0
  {
  }

  /** Over every fair run from power-on, the two counters are the two failure histories. */
  lemma {:induction false} CountersAreHistories(events: seq<Event>)
    requires FairRun(PowerOn, events)
    ensures Run(PowerOn, events).server.stackErrors == StackFailures(PowerOn, events)
    ensures Run(PowerOn, events).server.targetErrors == TargetFailures(PowerOn, events)
  {
    if events != [] {
      var prefix, e := events[..|events| - 1], events[|events| - 1];
      CountersAreHistories(prefix);
      OrderlyRun(PowerOn, prefix);
      StackCounterStep(Run(PowerOn, prefix).server, e);
      TargetCounterStep(Run(PowerOn, prefix).server, e);
    }
  }

  /** A process ends with this status in this step. */
  predicate EndsWith(s: Server, e: Event, status: Status)
    requires Sane(s)
  {
    exists kind :: Completed(kind, status) in Step(s, e).outputs
  }

  lemma StackErrorStep(s: Server, e: Event)
    requires Orderly(s) && Fair(s, e)
    ensures EndsWith(s, e, StackError) <==> StackFailed(s, e) && s.stackErrors + 1 == MAX_STACK_ERRORS
  {
    if Armed(s, e, Interval) && s.mode.phase == SegmentPhase {
      WindowInRange(s.next, s.size);
    }
    if StackFailed(s, e) && s.stackErrors + 1 == MAX_STACK_ERRORS {
      assert Completed(KindOf(s.mode.phase), StackError) in Step(s, e).outputs;
    }
  }

  lemma UnreachableStep(s: Server, e: Event)
    requires Orderly(s) && Fair(s, e)
    ensures EndsWith(s, e, Unreachable) <==> TargetFailed(s, e) && s.targetErrors + 1 == MAX_UNICAST_ERRORS
  {
    if TargetFailed(s, e) && s.targetErrors + 1 == MAX_UNICAST_ERRORS {
      assert Completed(KindOf(s.mode.phase), Unreachable) in Step(s, e).outputs;
    }
  }

  /**
   * A process gives up with a stack error at the eighth stack failure of its history and at no
   * other point, and as unreachable at the fourth target failure and at no other point.
   */
  lemma GivesUpExactlyAtTheLimit(events: seq<Event>, e: Event)
    requires FairRun(PowerOn, events + [e])
    ensures var s := Run(PowerOn, events).server;
            (EndsWith(s, e, StackError) <==>
             StackFailed(s, e) && StackFailures(PowerOn, events + [e]) == 8) &&
            (EndsWith(s, e, Unreachable) <==>
             TargetFailed(s, e) && TargetFailures(PowerOn, events + [e]) == 4)
  {
    assert (events + [e])[..|events|] == events;
    var s := Run(PowerOn, events).server;
    OrderlyRun(PowerOn, events);
    CountersAreHistories(events);
    CountersAreHistories(events + [e]);
    StackErrorStep(s, e);
    UnreachableStep(s, e);
    StackCounterStep(s, e);
    TargetCounterStep(s, e);
  }

  // ---- Completions: one per process, of its own kind ----

  function ActiveProcesses(s: Server, kind: Kind): nat {
    match s.mode
    case Idle => 0
    case Running(phase, _) => if KindOf(phase) == kind then 1 else 0
    case Faulted => if kind == Distribution then 1 else 0
  }

  function StartedProcesses(s: Server, events: seq<Event>, kind: Kind): nat
    requires Sane(s)
  {
    if events == [] then 0
    else
      var prefix, e := events[..|events| - 1], events[|events| - 1];
      StartedProcesses(s, prefix, kind) +
      if StartsProcess(Run(s, prefix).server, e) && (e.StartBootload? <==> kind == Bootload) then 1 else 0
  }

  function Completions(outputs: seq<Output>, kind: Kind): nat {
    if outputs == [] then 0
    else
      var last := outputs[|outputs| - 1];
      Completions(outputs[..|outputs| - 1], kind) + if last.Completed? && last.kind == kind then 1 else 0
  }

  lemma {:induction false} CompletionsConcat(a: seq<Output>, b: seq<Output>, kind: Kind)
    ensures Completions(a + b, kind) == Completions(a, kind) + Completions(b, kind)
  {
    if b == [] {
      assert a + b == a;
    } else {
      CompletionsConcat(a, b[..|b| - 1], kind);
      assert (a + b)[..|a + b| - 1] == a + b[..|b| - 1];
    }
  }

  lemma ShortCompletions(outputs: seq<Output>, kind: Kind)
    requires |outputs| <= 2
    ensures Completions(outputs, kind) ==
            (if |outputs| > 0 && outputs[0].Completed? && outputs[0].kind == kind then 1 else 0) +
            (if |outputs| > 1 && outputs[1].Completed? && outputs[1].kind == kind then 1 else 0)
  {
    if |outputs| == 2 {
      assert outputs == [outputs[0]] + [outputs[1]];
      CompletionsConcat([outputs[0]], [outputs[1]], kind);
    }
  }

  lemma IdleIsSilent(s: Server, e: Event)
    requires Sane(s) && s.mode == Idle
    ensures Step(s, e).outputs == []
  {
  }

  /**
   * At most two outputs, frames go to the target, and a process is completed, in its own kind, only
   * by the last output.
   */
  predicate WellShaped(s: Server, o: Outcome) {
    (forall x :: x in o.outputs && x.Submitted? ==> x.to == s.target && s.mode.Running?) &&
    |o.outputs| <= 2 && (|o.outputs| == 2 ==> o.outputs[0].Submitted?) &&
    (o.outputs != [] && o.outputs[|o.outputs| - 1].Completed? ==>
      s.mode.Running? && o.server.mode == Idle && o.outputs[|o.outputs| - 1].kind == KindOf(s.mode.phase))
  }

  lemma TimerShape(s: Server, submit: bool, now: u32, image: Option<seq<byte>>)
    requires Sane(s)
    ensures WellShaped(s, OnTimer(s, submit, now, image))
  {
  }

  lemma OutputShape(s: Server, e: Event)
    requires Sane(s)
    ensures WellShaped(s, Step(s, e))
  {
    if e.TimerExpired? {
      TimerShape(s, e.submit, e.now, e.image);
    }
  }

  lemma TimerContinues(s: Server, submit: bool, now: u32, image: Option<seq<byte>>, kind: Kind)
    requires Sane(s)
    requires var o := OnTimer(s, submit, now, image).outputs; o == [] || o[|o| - 1].Submitted?
    ensures ActiveProcesses(OnTimer(s, submit, now, image).server, kind) == ActiveProcesses(s, kind)
  {
  }

  lemma MessageContinues(s: Server, e: Event, kind: Kind)
    requires Sane(s) && e.IncomingMessage? && OnIncoming(s, e).outputs == []
    ensures ActiveProcesses(OnIncoming(s, e).server, kind) == ActiveProcesses(s, kind)
  {
  }

  /** Without a completion a running process stays one of its kind. */
  lemma ProcessContinues(s: Server, e: Event, kind: Kind)
    requires Sane(s)
    requires var o := Step(s, e).outputs; o == [] || o[|o| - 1].Submitted?
    ensures ActiveProcesses(Step(s, e).server, kind) ==
            ActiveProcesses(s, kind) + if StartsProcess(s, e) && (e.StartBootload? <==> kind == Bootload) then 1 else 0
  {
    match e
    case TimerExpired(submit, now, image) =>
      if s.timer {
        TimerContinues(s, submit, now, image, kind);
      }
    case IncomingMessage(_, _, _, _, _) => QuietMessageContinues(s, e, kind);
    case MessageSent(endpoint, command, status) =>
      if endpoint == SERVER_ENDPOINT {
        SentContinues(s, command, status, kind);
      }
    case _ =>
  }

  lemma QuietMessageContinues(s: Server, e: Event, kind: Kind)
    requires Sane(s) && e.IncomingMessage?
    requires var o := OnIncoming(s, e).outputs; o == [] || o[|o| - 1].Submitted?
    ensures ActiveProcesses(OnIncoming(s, e).server, kind) == ActiveProcesses(s, kind)
  {
    if OnIncoming(s, e).outputs == [] {
      MessageContinues(s, e, kind);
    }
  }

  lemma SentContinues(s: Server, command: byte, status: SendStatus, kind: Kind)
    requires Sane(s)
    requires var o := OnSent(s, command, status).outputs; o == [] || o[|o| - 1].Submitted?
    ensures ActiveProcesses(OnSent(s, command, status).server, kind) == ActiveProcesses(s, kind)
  {
  }

  /** A step ends at most the process that is running. */
  lemma CompletionStep(s: Server, e: Event, kind: Kind)
    requires Sane(s)
    ensures ActiveProcesses(s, kind) +
            (if StartsProcess(s, e) && (e.StartBootload? <==> kind == Bootload) then 1 else 0)
         == Completions(Step(s, e).outputs, kind) + ActiveProcesses(Step(s, e).server, kind)
  {
    var outputs := Step(s, e).outputs;
    OutputShape(s, e);
    ShortCompletions(outputs, kind);
    if outputs == [] || outputs[|outputs| - 1].Submitted? {
      ProcessContinues(s, e, kind);
    }
  }

  /**
   * Conservation over every run in any environment: the process active at first and each accepted
   * start are matched by exactly one completion callback of their own kind, except for the process
   * still active.
   */
  lemma {:induction false} OneCompletionPerProcess(s: Server, events: seq<Event>, kind: Kind)
    requires Sane(s)
    ensures var o := Run(s, events);
            ActiveProcesses(s, kind) + StartedProcesses(s, events, kind)
            == Completions(o.outputs, kind) + ActiveProcesses(o.server, kind)
  {
    if events != [] {
      var prefix, e := events[..|events| - 1], events[|events| - 1];
      OneCompletionPerProcess(s, prefix, kind);
      var before := Run(s, prefix);
      CompletionStep(before.server, e, kind);
      CompletionsConcat(before.outputs, Step(before.server, e).outputs, kind);
    }
  }

  lemma {:induction false} NothingStarted(s: Server, events: seq<Event>, kind: Kind)
    requires Sane(s) && NoStarts(events)
    ensures StartedProcesses(s, events, kind) == 0
  {
    if events != [] {
      assert events[|events| - 1] in events;
      NothingStarted(s, events[..|events| - 1], kind);
    }
  }

  /**
   * Liveness: once a distribution has been given what it waits for 180 * (total + 2) times, however
   * the sends, submissions and answers turned out and whatever came in between, it is over and has
   * reported exactly one outcome, of its own kind.
   */
  lemma DistributionEnds(s: Server, target: u16, size: u32, tag: byte, events: seq<Event>)
    requires Orderly(s) && AcceptsDistribution(s, target, size)
    requires var started := OnStartDistribution(s, target, size, tag);
             FairRun(started, events) && NoStarts(events) && Served(started, events) >= 180 * (TotalSegments(size) + 2)
    ensures var o := Run(OnStartDistribution(s, target, size, tag), events);
            o.server.mode == Idle && Completions(o.outputs, Distribution) == 1 && Completions(o.outputs, Bootload) == 0
  {
    var started := OnStartDistribution(s, target, size, tag);
    assert Measure(started) <= 180 * (TotalSegments(size) + 2);
    ServedRunEnds(started, events);
    NothingStarted(started, events, Distribution);
    NothingStarted(started, events, Bootload);
    OneCompletionPerProcess(started, events, Distribution);
    OneCompletionPerProcess(started, events, Bootload);
  }

  // ---- Addressing ----

  /** The target named by the last accepted start. */
  function LatestTarget(events: seq<Event>): u16 {
    if events == [] then NULL_NODE_ID
    else
      var prefix, e := events[..|events| - 1], events[|events| - 1];
      if StartsProcess(Run(PowerOn, prefix).server, e) then e.target else LatestTarget(prefix)
  }

  lemma {:induction false} TargetIsTheLatest(events: seq<Event>)
    ensures var s := Run(PowerOn, events).server;
            s.target == LatestTarget(events) && (s.mode.Running? ==> s.target != NULL_NODE_ID)
  {
    if events != [] {
      TargetIsTheLatest(events[..|events| - 1]);
      TargetKept(Run(PowerOn, events[..|events| - 1]).server, events[|events| - 1]);
    }
  }

  lemma TargetKept(s: Server, e: Event)
    requires Sane(s)
    ensures Step(s, e).server.target == if StartsProcess(s, e) then e.target else s.target
    ensures Step(s, e).server.mode.Running? ==> s.mode.Running? || StartsProcess(s, e)
  {
  }

  /** In every run, each frame is addressed to the node the current process was started for. */
  lemma FramesGoToTheTarget(events: seq<Event>, e: Event, o: Output)
    requires o in Step(Run(PowerOn, events).server, e).outputs && o.Submitted?
    ensures o.to == LatestTarget(events) != NULL_NODE_ID
  {
    TargetIsTheLatest(events);
    OutputShape(Run(PowerOn, events).server, e);
  }

  // ---- Abort ----

  /**
   * The header promises that abort succeeds while any process is under way. It does so exactly
   * outside the handshake phase; during the handshake it returns an error and changes nothing.
   */
  lemma AbortEndsProcess(s: Server)
    requires Sane(s) && s.mode.Running?
    ensures EndsWith(s, AbortCall, Aborted) && Step(s, AbortCall).server.mode == Idle <==>
            s.mode.phase != HandshakePhase
    ensures s.mode.phase == HandshakePhase ==> Step(s, AbortCall) == Outcome(s, [])
  {
    if s.mode.phase != HandshakePhase {
      assert Completed(KindOf(s.mode.phase), Aborted) in Step(s, AbortCall).outputs;
    }
  }

  lemma AbortFailsDuringHandshake()
    ensures var s := Run(PowerOn, [StartDistribution(1, 96, 0)]).server;
            s.mode.Running? && !EndsWith(s, AbortCall, Aborted)
  {
    assert [StartDistribution(1, 96, 0)][..0] == [];
  }

  // ---- The bootload deadline ----

  function Max0(n: int): nat {
    if n < 0 then 0 else n
  }

  /**
   * The delay put into a request built `e` ms after the start, at start tick `t` and requested
   * delay `d`, is the true remaining time exactly when that time is within half a clock turn.
   */
  lemma DelayExact(t: nat, d: u32, e: nat)
    ensures RemainingDelay((t + e) % WRAP, (t % WRAP + d) % WRAP) == Max0(d - e) <==>
            0 < d - e < HALF_WRAP || (d <= e && (e - d) % WRAP <= HALF_WRAP)
  {
    TicksBetween(t, d, e);
    TicksLeft(d, e);
  }

  /** The first request for a bootload in 2^31 ms, just under 25 days, tells the target to start at once. */
  lemma LongDelayIsLost(t: nat)
    ensures RemainingDelay(t % WRAP, (t % WRAP + HALF_WRAP) % WRAP) == 0
  {
    TicksBetween(t, HALF_WRAP, 0);
    assert (0 - HALF_WRAP) % WRAP == HALF_WRAP;
  }

  /** Clock differences are the true ones, modulo the width of the clock. */
  lemma TicksBetween(t: nat, d: u32, e: nat)
    ensures Elapsed((t % WRAP + d) % WRAP, (t + e) % WRAP) == (e - d) % WRAP
    ensures Elapsed((t + e) % WRAP, (t % WRAP + d) % WRAP) == (d - e) % WRAP
  {
    ElapsedMod(t + d, t + e);
    ElapsedMod(t + e, t + d);
    assert (t % WRAP + d) % WRAP == (t + d) % WRAP by {
      ModShift(t % WRAP + d, t / WRAP);
    }
  }

  lemma TicksLeft(d: u32, e: nat)
    ensures (if (e - d) % WRAP <= HALF_WRAP then 0 else (d - e) % WRAP) == Max0(d - e) <==>
            0 < d - e < HALF_WRAP || (d <= e && (e - d) % WRAP <= HALF_WRAP)
  {
    if d > e {
      assert (d - e) % WRAP == d - e;
      assert (e - d) % WRAP == WRAP - (d - e);
    } else {
      NegMod(e - d);
    }
  }

  lemma ElapsedMod(a: nat, b: nat)
    ensures (b % WRAP - a % WRAP) % WRAP == (b - a) % WRAP
  {
    assert b % WRAP - a % WRAP == (b - a) + WRAP * (a / WRAP - b / WRAP);
    ModShift(b - a, a / WRAP - b / WRAP);
  }

  lemma ModShift(x: int, k: int)
    ensures (x + WRAP * k) % WRAP == x % WRAP
  {
    var y := x + WRAP * k;
    assert y == WRAP * (x / WRAP + k) + x % WRAP;
  }

  lemma NegMod(x: nat)
    ensures (0 - x) % WRAP == if x % WRAP == 0 then 0 else WRAP - x % WRAP
  {
    assert 0 - x == WRAP * (0 - x / WRAP) - x % WRAP;
    ModShift(0 - x % WRAP, 0 - x / WRAP);
  }

  /** A bootload process keeps its tag and deadline until it ends. */
  lemma {:induction false} DeadlineKept(s: Server, events: seq<Event>)
    requires Sane(s) && s.mode.Running? && s.mode.phase == BootloadPhase && NoStarts(events)
    ensures var r := Run(s, events).server;
            r.mode == Idle || (r.mode.Running? && r.mode.phase == BootloadPhase && r.size == s.size && r.tag == s.tag)
  {
    if events != [] {
      assert events[|events| - 1] in events;
      DeadlineKept(s, events[..|events| - 1]);
    }
  }

  lemma BootloadFrames(s: Server, submit: bool, now: u32, image: Option<seq<byte>>)
    requires Sane(s) && (s.mode == Idle || (s.mode.Running? && s.mode.phase == BootloadPhase))
    ensures forall o :: o in Step(s, TimerExpired(submit, now, image)).outputs && o.Submitted? ==>
              s.mode.Running? && o.frame == EncodeRequest(BootloadRequest(s.tag, RemainingDelay(now, s.size)))
  {
  }

  /**
   * Every bootload request of a process started at tick `t` with delay `d`, retransmissions
   * included, sent `e` ms later carries what is left of the delay: all name the same deadline.
   */
  lemma RetriesNameTheSameDeadline(s: Server, d: u32, tag: byte, target: u16, t: nat, events: seq<Event>,
                                   e: nat, submit: bool, image: Option<seq<byte>>)
    requires Sane(s) && AcceptsBootload(s, target) && NoStarts(events)
    requires d < HALF_WRAP && e <= d + HALF_WRAP
    ensures var r := Run(OnStartBootload(s, d, tag, target, t % WRAP), events).server;
            forall o :: o in Step(r, TimerExpired(submit, (t + e) % WRAP, image)).outputs && o.Submitted? ==>
              ParseRequest(o.frame) == Some(BootloadRequest(tag, Max0(d - e)))
  {
    StartedBootload(s, d, tag, target, t % WRAP);
    DelayExact(t, d, e);
    RetriesNameTheDeadline(OnStartBootload(s, d, tag, target, t % WRAP), tag, events, (t + e) % WRAP, submit, image,
                           Max0(d - e));
  }

  lemma StartedBootload(s: Server, d: u32, tag: byte, target: u16, now: u32)
    requires AcceptsBootload(s, target)
    ensures var started := OnStartBootload(s, d, tag, target, now);
            Sane(started) && started.mode == Running(BootloadPhase, Interval) && started.size == (now + d) % WRAP &&
            started.tag == tag
  {
  }

  lemma RetriesNameTheDeadline(started: Server, tag: byte, events: seq<Event>, now: u32, submit: bool,
                               image: Option<seq<byte>>, left: u32)
    requires Sane(started) && started.mode == Running(BootloadPhase, Interval) && started.tag == tag && NoStarts(events)
    requires RemainingDelay(now, started.size) == left
    ensures var outputs := Step(Run(started, events).server, TimerExpired(submit, now, image)).outputs;
            forall o :: o in outputs && o.Submitted? ==> ParseRequest(o.frame) == Some(BootloadRequest(tag, left))
  {
    DeadlineKept(started, events);
    RequestNamesDelay(Run(started, events).server, started.size, tag, submit, now, image, left);
  }

  lemma RequestNamesDelay(r: Server, deadline: u32, tag: byte, submit: bool, now: u32, image: Option<seq<byte>>,
                          left: u32)
    requires Sane(r) && (r.mode == Idle || (r.mode.Running? && r.mode.phase == BootloadPhase && r.size == deadline &&
                                            r.tag == tag))
    requires RemainingDelay(now, deadline) == left
    ensures forall o :: o in Step(r, TimerExpired(submit, now, image)).outputs && o.Submitted? ==>
              ParseRequest(o.frame) == Some(BootloadRequest(tag, left))
  {
    BootloadFrames(r, submit, now, image);
    RequestRoundTrip(BootloadRequest(tag, left));
  }
}

/** What every run of the OTA server keeps, and how long a run can be. */
module OtaServerProperties {
  import opened ByteUtilities
  import opened OtaProtocol
  import opened OtaServerModel

  // ---- Segmentation ----

  /** In range, nothing wraps: the window is the segment's slice of the image, cut at the end. */
  lemma WindowInRange(next: u32, size: u32)
    requires 0 < size <= MAXIMUM_IMAGE_SIZE && next < TotalSegments(size)
    ensures WindowStart(next) == next * MAX_SEGMENT_PAYLOAD_LENGTH < size
    ensures WindowEnd(next, size) + 1
            == if next + 1 < TotalSegments(size) then (next + 1) * MAX_SEGMENT_PAYLOAD_LENGTH else size
    ensures WindowStart(next) <= WindowEnd(next, size) < size
  {
  }

  /** The window lies inside the image exactly when its 32-bit start does. */
  lemma WindowInsideImage(next: u32, size: u32)
    requires 0 < size <= MAXIMUM_IMAGE_SIZE
    ensures WindowStart(next) <= WindowEnd(next, size) < size <==> WindowStart(next) < size
  {
    assert WindowStart(next) < size ==> WindowStart(next) as int + 95 < WRAP;
  }

  /** A start segment far beyond the image wraps back onto the image's first bytes. */
  lemma WindowAliases()
    ensures exists next: u32, size: u32 :: 0 < size <= MAXIMUM_IMAGE_SIZE && next >= TotalSegments(size) &&
              WindowStart(next) == 0
  {
    assert TotalSegments(1) == 1 && WindowStart(0x800_0000) == 0;
  }

  // ---- A well-behaved environment and the invariant it buys ----

  /**
   * The assumptions on the target and the application: a resume point inside the image, only the
   * four segment statuses the server handles, no request to go on after the last segment, and an
   * application image as long as announced.
   */
  predicate Fair(s: Server, e: Event) {
    match e
    case TimerExpired(_, _, image) =>
      s.mode == Running(SegmentPhase, Interval) && image.Some? ==> s.size <= |image.value|
    case IncomingMessage(_, _, _, payload, _) =>
      AcceptsMessage(s, e) ==>
        var status := ResponseStatus(payload);
        (s.mode.phase == HandshakePhase && status == RESP_ONGOING ==> StartSegment(payload) < TotalSegments(s.size)) &&
        (s.mode.phase == SegmentPhase ==>
          status in {RESP_COMPLETED, RESP_ONGOING, RESP_REFUSED, RESP_OUT_OF_SEQ} &&
          (status == RESP_ONGOING ==> WordField(payload) + 1 < TotalSegments(s.size)))
    case _ => true
  }

  predicate FairRun(s: Server, events: seq<Event>)
    requires Sane(s)
  {
    events == [] ||
    (FairRun(s, events[..|events| - 1]) && Fair(Run(s, events[..|events| - 1]).server, events[|events| - 1]))
  }

  /**
   * The invariant. A running server is either waiting for a sent callback or has its timer armed,
   * never both and never neither; segments stay inside the image and the acknowledged segment is
   * the current one.
   */
  predicate Orderly(s: Server) {
    Sane(s) && s.mode != Faulted &&
    (s.timer <==> s.mode.Running? && s.mode.stage != Pending) &&
    (s.mode.Running? && s.mode.phase == SegmentPhase ==>
      s.next < TotalSegments(s.size) && (s.mode.stage != Interval ==> s.sent == s.next))
  }

  lemma OrderlyTimer(s: Server, submit: bool, now: u32, image: Option<seq<byte>>)
    requires Orderly(s) && s.timer
    requires s.mode == Running(SegmentPhase, Interval) && image.Some? ==> s.size <= |image.value|
    ensures Orderly(OnTimer(s, submit, now, image).server)
  {
    if s.mode == Running(SegmentPhase, Interval) {
      WindowInRange(s.next, s.size);
    }
  }

  lemma OrderlyIncoming(s: Server, e: Event)
    requires Orderly(s) && Fair(s, e) && e.IncomingMessage?
    ensures Orderly(OnIncoming(s, e).server)
  {
  }

  lemma OrderlyStep(s: Server, e: Event)
    requires Orderly(s) && Fair(s, e)
    ensures Orderly(Step(s, e).server)
  {
    match e
    case TimerExpired(submit, now, image) =>
      if s.timer {
        OrderlyTimer(s, submit, now, image);
      }
    case IncomingMessage(_, _, _, _, _) => OrderlyIncoming(s, e);
    case _ =>
  }

  /** Over every fair run: no fault, no stall, and the segment invariants. */
  lemma {:induction false} OrderlyRun(s: Server, events: seq<Event>)
    requires Orderly(s) && FairRun(s, events)
    ensures Orderly(Run(s, events).server)
  {
    if events != [] {
      OrderlyRun(s, events[..|events| - 1]);
      OrderlyStep(Run(s, events[..|events| - 1]).server, events[|events| - 1]);
    }
  }

  /** The event a running server is entitled to next. */
  function Awaited(s: Server, submit: bool, now: u32, image: Option<seq<byte>>, status: SendStatus): Event
    requires s.mode.Running?
  {
    if s.mode.stage == Pending then MessageSent(SERVER_ENDPOINT, RequestCommand(s.mode.phase), status)
    else TimerExpired(submit, now, image)
  }

  // ---- What goes wrong without those assumptions, exactly ----

  /** What a copy needs, by where its window starts: at the end of the image it needs nothing. */
  lemma CopyFitsExactly(next: u32, size: u32, length: nat)
    requires 0 < size <= MAXIMUM_IMAGE_SIZE
    ensures !CopyFits(next, size, length) <==>
            WindowStart(next) > size || (WindowStart(next) < size && WindowEnd(next, size) >= length)
  {
    WindowInsideImage(next, size);
    if WindowStart(next) > size {
      assert WindowEnd(next, size) < size;
    }
  }

  /**
   * The only way into a fault is to build a segment whose 32-bit window starts past the announced size,
   * or starts inside it and ends past the real image.
   */
  lemma FaultsExactly(s: Server, e: Event)
    requires Sane(s) && s.mode != Faulted
    ensures Step(s, e).server.mode == Faulted <==>
            e.TimerExpired? && s.timer && s.mode == Running(SegmentPhase, Interval) && e.image.Some? &&
            (WindowStart(s.next) > s.size ||
             (WindowStart(s.next) < s.size && WindowEnd(s.next, s.size) >= |e.image.value|))
  {
    if e.TimerExpired? && e.image.Some? && s.mode.Running? && s.mode.phase == SegmentPhase {
      CopyFitsExactly(s.next, s.size, |e.image.value|);
    }
  }

  /** The timer is armed while the server runs and awaits no sent callback. */
  predicate Timed(s: Server) {
    s.timer <==> s.mode.Running? && s.mode.stage != Pending
  }

  /**
   * The only way to stall is an accepted segment response: with a status the server does not know,
   * before its sent callback, or with leave to go on past the end of the image.
   */
  lemma StallsExactly(s: Server, e: Event)
    requires Sane(s) && Timed(s)
    ensures !Timed(Step(s, e).server) <==>
            e.IncomingMessage? && AcceptsMessage(s, e) && s.mode.phase == SegmentPhase &&
            var status := ResponseStatus(e.payload);
            (s.mode.stage == Pending && status !in {RESP_COMPLETED, RESP_ONGOING, RESP_REFUSED, RESP_OUT_OF_SEQ}) ||
            (status == RESP_ONGOING && WordField(e.payload) == s.sent && s.next >= TotalSegments(s.size))
  {
    if e.TimerExpired? && s.timer {
      TimerKeepsTimed(s, e.submit, e.now, e.image);
    }
  }

  lemma TimerKeepsTimed(s: Server, submit: bool, now: u32, image: Option<seq<byte>>)
    requires Sane(s)
    ensures Timed(OnTimer(s, submit, now, image).server)
  {
  }

  /** The window behind the last segment starts at the end of the image or past it. */
  lemma PastTheEnd(size: u32)
    requires 0 < size <= MAXIMUM_IMAGE_SIZE
    ensures WindowStart(TotalSegments(size)) >= size
    ensures WindowStart(TotalSegments(size)) == size <==> size % MAX_SEGMENT_PAYLOAD_LENGTH == 0
  {
  }

  /** The server has been told to go on past the last segment. */
  predicate PastTheLast(s: Server) {
    Sane(s) && s.timer && s.mode == Running(SegmentPhase, Interval) && s.next == TotalSegments(s.size)
  }

  /** ONGOING for the last segment. */
  lemma OngoingAfterTheLast(s: Server, e: Event)
    requires Orderly(s) && s.mode.Running? && s.mode.phase == SegmentPhase && s.next + 1 == TotalSegments(s.size)
    requires e.IncomingMessage? && AcceptsMessage(s, e)
    requires ResponseStatus(e.payload) == RESP_ONGOING && WordField(e.payload) == s.sent
    ensures Step(s, e).outputs == [] && PastTheLast(Step(s, e).server)
  {
  }

  /**
   * The expiry after that copies from outside the image if and only if the size is no multiple of the
   * segment length. Otherwise an empty segment goes out, under an index the image does not have.
   */
  lemma PastTheLastFaults(s: Server, submit: bool, now: u32, image: seq<byte>)
    requires PastTheLast(s)
    ensures var o := Step(s, TimerExpired(submit, now, Some(image)));
            (o.server.mode == Faulted <==> s.size % MAX_SEGMENT_PAYLOAD_LENGTH != 0) &&
            (s.size % MAX_SEGMENT_PAYLOAD_LENGTH == 0 ==> o == EmptySegment(s, submit))
  {
    PastTheEnd(s.size);
    FaultsExactly(s, TimerExpired(submit, now, Some(image)));
  }

  function EmptySegment(s: Server, submit: bool): Outcome
    requires s.mode.Running?
  {
    Transmit(s.(timer := false), ImageSegment(s.tag, s.next, []), submit)
  }

  /**
   * If the empty segment is sent and answered ONGOING too, the server stalls: it waits for a response
   * with no timer armed, and from then on it sends nothing and completes nothing of its own accord.
   */
  lemma EmptySegmentStalls(s: Server, e: Event)
    requires Sane(s) && s.mode.Running? && s.mode.phase == SegmentPhase && s.mode.stage != Interval
    requires s.next == s.sent == TotalSegments(s.size) && e.IncomingMessage? && AcceptsMessage(s, e)
    requires ResponseStatus(e.payload) == RESP_ONGOING && WordField(e.payload) == s.sent
    ensures Step(s, e).outputs == [] && Stalled(Step(s, e).server)
  {
  }

  predicate Stalled(s: Server) {
    s.mode == Running(SegmentPhase, Waiting) && !s.timer
  }

  /** Only a segment response or an abort reaches a stalled server. */
  lemma StalledStays(s: Server, e: Event)
    requires Sane(s) && Stalled(s)
    ensures Step(s, e) != Outcome(s, []) ==> e.AbortCall? || (e.IncomingMessage? && AcceptsMessage(s, e))
  {
  }

  // ---- Termination ----

  /** Segments still to be acknowledged, the negotiation counting as one more. */
  function Left(s: Server): nat
    requires Orderly(s)
  {
    if s.mode == Idle then 0
    else match s.mode.phase
      case HandshakePhase => TotalSegments(s.size) + 1
      case SegmentPhase => TotalSegments(s.size) - s.next
      case BootloadPhase => 1
  }

  /** The lexicographic measure, its bounded components packed into one number. */
  function Measure(s: Server): nat
    requires Orderly(s)
  {
    if s.mode == Idle then 0
    else
      180 * Left(s) + 36 * (MAX_UNICAST_ERRORS - s.targetErrors) + (if s.mode.stage == Waiting then 0 else 18)
      + 2 * (MAX_STACK_ERRORS - s.stackErrors) + (if s.mode.stage == Interval then 1 else 0)
  }

  predicate Starts(e: Event) {
    e.StartDistribution? || e.StartBootload?
  }

  /** Within one process every step either changes nothing and says nothing, or comes closer to the end. */
  lemma StepDecreases(s: Server, e: Event)
    requires Orderly(s) && Fair(s, e) && !Starts(e)
    ensures Orderly(Step(s, e).server)
    ensures Measure(Step(s, e).server) < Measure(s) || Step(s, e) == Outcome(s, [])
  {
    OrderlyStep(s, e);
    match e
    case TimerExpired(submit, now, image) =>
      if s.timer {
        TimerDecreases(s, submit, now, image);
      }
    case MessageSent(_, command, status) => SentDecreases(s, command, status);
    case IncomingMessage(_, _, _, _, _) => IncomingDecreases(s, e);
    case _ =>
  }

  lemma TimerDecreases(s: Server, submit: bool, now: u32, image: Option<seq<byte>>)
    requires Orderly(s) && s.timer && Orderly(OnTimer(s, submit, now, image).server)
    ensures Measure(OnTimer(s, submit, now, image).server) < Measure(s)
  {
  }

  lemma SentDecreases(s: Server, command: byte, status: SendStatus)
    requires Orderly(s)
    ensures Orderly(OnSent(s, command, status).server)
    ensures Measure(OnSent(s, command, status).server) < Measure(s) || OnSent(s, command, status) == Outcome(s, [])
  {
  }

  lemma IncomingDecreases(s: Server, e: Event)
    requires Orderly(s) && Fair(s, e) && e.IncomingMessage? && Orderly(OnIncoming(s, e).server)
    ensures Measure(OnIncoming(s, e).server) < Measure(s) || OnIncoming(s, e) == Outcome(s, [])
  {
  }

  /** What a running server awaits does move it, whatever the outcome of the send or the submission. */
  lemma AwaitedMoves(s: Server, submit: bool, now: u32, image: Option<seq<byte>>, status: SendStatus)
    requires Orderly(s) && s.mode.Running? && Fair(s, Awaited(s, submit, now, image, status))
    ensures var t := Step(s, Awaited(s, submit, now, image, status)).server; Orderly(t) && Measure(t) < Measure(s)
  {
    var e := Awaited(s, submit, now, image, status);
    StepDecreases(s, e);
    if e.TimerExpired? && s.mode == Running(SegmentPhase, Interval) {
      WindowInRange(s.next, s.size);
    }
  }

  /** Steps of a run that changed the server. */
  function Moves(s: Server, events: seq<Event>): nat
    requires Sane(s)
  {
    if events == [] then 0
    else
      var before := Run(s, events[..|events| - 1]).server;
      Moves(s, events[..|events| - 1]) + if Step(before, events[|events| - 1]).server != before then 1 else 0
  }

  predicate NoStarts(events: seq<Event>) {
    forall e :: e in events ==> !Starts(e)
  }

  /** A process is over after a bounded number of moves, however the events are chosen. */
  lemma {:induction false} RunTerminates(s: Server, events: seq<Event>)
    requires Orderly(s) && FairRun(s, events) && NoStarts(events)
    ensures Orderly(Run(s, events).server)
    ensures Moves(s, events) + Measure(Run(s, events).server) <= Measure(s)
  {
    if events != [] {
      var prefix, e := events[..|events| - 1], events[|events| - 1];
      RunTerminates(s, prefix);
      assert e in events;
      StepDecreases(Run(s, prefix).server, e);
    }
  }

  /** This is the event the server waits for, whatever its outcome; an idle server waits for nothing. */
  predicate IsAwaited(s: Server, e: Event) {
    s.mode.Running? ==>
      if s.mode.stage == Pending then
        e.MessageSent? && e.endpoint == SERVER_ENDPOINT && e.command == RequestCommand(s.mode.phase)
      else e.TimerExpired?
  }

  /** How often the server was given what it waited for, if it waited for anything. */
  function Served(s: Server, events: seq<Event>): nat
    requires Sane(s)
  {
    if events == [] then 0
    else
      var prefix, e := events[..|events| - 1], events[|events| - 1];
      Served(s, prefix) + if IsAwaited(Run(s, prefix).server, e) then 1 else 0
  }

  lemma ServedOnce(s: Server, e: Event)
    requires Orderly(s) && Fair(s, e) && IsAwaited(s, e) && s.mode.Running?
    ensures Orderly(Step(s, e).server) && Measure(Step(s, e).server) < Measure(s)
  {
    if e.TimerExpired? {
      AwaitedMoves(s, e.submit, e.now, e.image, Delivered);
    } else {
      AwaitedMoves(s, true, 0, None, e.status);
    }
  }

  /** A server served often enough is idle, whatever else happens in between. */
  lemma {:induction false} ServedRunEnds(s: Server, events: seq<Event>)
    requires Orderly(s) && FairRun(s, events) && NoStarts(events)
    ensures Orderly(Run(s, events).server)
    ensures Run(s, events).server.mode.Running? ==> Served(s, events) + Measure(Run(s, events).server) <= Measure(s)
    ensures Served(s, events) >= Measure(s) ==> Run(s, events).server.mode == Idle
  {
    if events != [] {
      var prefix, e := events[..|events| - 1], events[|events| - 1];
      ServedRunEnds(s, prefix);
      assert e in events;
      var before := Run(s, prefix).server;
      StepDecreases(before, e);
      if before.mode.Running? && IsAwaited(before, e) {
        ServedOnce(before, e);
      }
    }
    MeasureOfIdle(Run(s, events).server);
  }

  lemma MeasureOfIdle(s: Server)
    requires Orderly(s)
    ensures Measure(s) == 0 <==> s.mode == Idle
  {
  }

  // ---- How many transmissions a process can cost ----

  /** Submissions to the stack in a list of outputs, accepted or not. */
  function Attempts(outputs: seq<Output>): nat {
    if outputs == [] then 0
    else Attempts(outputs[..|outputs| - 1]) + if outputs[|outputs| - 1].Submitted? then 1 else 0
  }

  lemma {:induction false} AttemptsConcat(a: seq<Output>, b: seq<Output>)
    ensures Attempts(a + b) == Attempts(a) + Attempts(b)
  {
    if b == [] {
      assert a + b == a;
    } else {
      AttemptsConcat(a, b[..|b| - 1]);
      assert (a + b)[..|a + b| - 1] == a + b[..|b| - 1];
    }
  }

  /** Eight attempts for each of the four target errors, afresh for every segment left. */
  function AttemptBudget(s: Server): int
    requires Orderly(s)
  {
    if s.mode == Idle then 0
    else
      32 * (Left(s) - 1) + 8 * (MAX_UNICAST_ERRORS - 1 - s.targetErrors) +
      match s.mode.stage
      case Interval => MAX_STACK_ERRORS - s.stackErrors
      case Pending => MAX_STACK_ERRORS - 1 - s.stackErrors
      case Waiting => 0
  }

  lemma AttemptsOfTwo(outputs: seq<Output>)
    requires |outputs| <= 2
    ensures Attempts(outputs) ==
            (if |outputs| > 0 && outputs[0].Submitted? then 1 else 0) +
            if |outputs| > 1 && outputs[1].Submitted? then 1 else 0
  {
    if |outputs| == 2 {
      assert outputs == [outputs[0]] + [outputs[1]];
      AttemptsConcat([outputs[0]], [outputs[1]]);
    }
  }

  /** Only an expiry in an INTERVAL stage hands a frame to the stack, and only one. */
  lemma StepAttempts(s: Server, e: Event)
    requires Orderly(s) && Attempts(Step(s, e).outputs) > 0
    ensures Attempts(Step(s, e).outputs) == 1
    ensures e.TimerExpired? && s.mode.Running? && s.mode.stage == Interval
  {
    AttemptsOfTwo(Step(s, e).outputs);
  }

  lemma AttemptsWithinBudget(s: Server, e: Event)
    requires Orderly(s) && Fair(s, e) && !Starts(e)
    ensures Orderly(Step(s, e).server)
    ensures Attempts(Step(s, e).outputs) + AttemptBudget(Step(s, e).server) <= AttemptBudget(s)
    ensures AttemptBudget(s) >= 0
  {
    OrderlyStep(s, e);
    match e
    case TimerExpired(submit, now, image) =>
      if s.timer {
        TimerWithinBudget(s, submit, now, image);
      }
    case IncomingMessage(_, _, _, _, _) => IncomingWithinBudget(s, e);
    case _ =>
  }

  lemma TimerWithinBudget(s: Server, submit: bool, now: u32, image: Option<seq<byte>>)
    requires Orderly(s) && s.timer && Orderly(OnTimer(s, submit, now, image).server)
    ensures var o := OnTimer(s, submit, now, image); Attempts(o.outputs) + AttemptBudget(o.server) <= AttemptBudget(s)
  {
    AttemptsOfTwo(OnTimer(s, submit, now, image).outputs);
  }

  lemma IncomingWithinBudget(s: Server, e: Event)
    requires Orderly(s) && Fair(s, e) && e.IncomingMessage? && Orderly(OnIncoming(s, e).server)
    ensures var o := OnIncoming(s, e); Attempts(o.outputs) + AttemptBudget(o.server) <= AttemptBudget(s)
  {
    AttemptsOfTwo(OnIncoming(s, e).outputs);
  }

  lemma {:induction false} RunAttempts(s: Server, events: seq<Event>)
    requires Orderly(s) && FairRun(s, events) && NoStarts(events)
    ensures Orderly(Run(s, events).server)
    ensures Attempts(Run(s, events).outputs) + AttemptBudget(Run(s, events).server) <= AttemptBudget(s)
  {
    if events != [] {
      var prefix, e := events[..|events| - 1], events[|events| - 1];
      RunAttempts(s, prefix);
      assert e in events;
      var before := Run(s, prefix);
      AttemptsWithinBudget(before.server, e);
      AttemptsConcat(before.outputs, Step(before.server, e).outputs);
    }
  }

  /** From an accepted start to wherever the run stands: bounded moves and bounded transmissions. */
  lemma DistributionCost(s: Server, target: u16, size: u32, tag: byte, events: seq<Event>)
    requires Orderly(s) && AcceptsDistribution(s, target, size)
    requires var started := OnStartDistribution(s, target, size, tag); FairRun(started, events) && NoStarts(events)
    ensures var started := OnStartDistribution(s, target, size, tag);
            Attempts(Run(started, events).outputs) <= 32 * (TotalSegments(size) + 1) &&
            Moves(started, events) <= 180 * (TotalSegments(size) + 2)
  {
    var started := OnStartDistribution(s, target, size, tag);
    RunAttempts(started, events);
    RunTerminates(started, events);
    var end := Run(started, events).server;
    AttemptsWithinBudget(end, AbortCall);
  }
}

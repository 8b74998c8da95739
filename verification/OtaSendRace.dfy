/**
 * The OTA server while its handler is blocked in a message call. The handler stores its pending state
 * only after the call has returned, and callbacks and API calls of other threads can come in between.
 */
module OtaSendRace {
  import opened ByteUtilities
  import opened OtaProtocol
  import opened OtaServerModel
  import opened OtaServerProperties

  /** The handler has a frame to hand to the stack. */
  predicate Sends(s: Server, image: Option<seq<byte>>)
    requires Sane(s)
  {
    s.timer && s.mode.Running? && s.mode.stage == Interval &&
    (s.mode.phase == SegmentPhase ==> image.Some? && CopyFits(s.next, s.size, |image.value|))
  }

  function RequestOf(s: Server, now: u32, image: Option<seq<byte>>): Request
    requires Sane(s) && Sends(s, image)
  {
    match s.mode.phase
    case HandshakePhase => Handshake(s.tag, s.size)
    case SegmentPhase => ImageSegment(s.tag, s.next, SegmentData(image.value, s.next, s.size))
    case BootloadPhase => BootloadRequest(s.tag, RemainingDelay(now, s.size))
  }

  /** The events of other threads during a call: anything but an expiry, which only the blocked thread handles. */
  predicate FromOthers(during: seq<Event>) {
    forall e :: e in during ==> !e.TimerExpired?
  }

  /** The process is aborted while its handler is in the call. */
  predicate CutShort(s: Server, during: seq<Event>) {
    Abortable(s) && AbortCall in during
  }

  /** After an abort a new process would bring its own thread, which is left out. */
  predicate OneThread(s: Server, during: seq<Event>) {
    FromOthers(during) && (CutShort(s, during) ==> NoStarts(during))
  }

  datatype Ending = Continues(o: Outcome) | AssertionFails(outputs: seq<Output>)

  /** What the handler stores after an accepted submission, whatever the state has become. */
  function PendingStored(s: Server, phase: Phase): Server {
    s.(mode := Running(phase, Pending), sent := if phase == SegmentPhase then s.next else s.sent)
  }

  /** One expiry in three parts: the submission, the events during the call, and the stores behind it. */
  function BlockedSend(s: Server, submit: bool, now: u32, image: Option<seq<byte>>, during: seq<Event>)
    : (r: Ending)
    requires Sane(s) && Sends(s, image) && OneThread(s, during)
    ensures r.Continues? ==> Sane(r.o.server)
  {
    DuringTheCall(s.(timer := false), during);
    var phase, frame := s.mode.phase, EncodeRequest(RequestOf(s, now, image));
    var inCall := Run(s.(timer := false), during);
    var outputs := [Submitted(s.target, frame, submit)] + inCall.outputs;
    if submit then Continues(Outcome(PendingStored(inCall.server, phase), outputs))
    else if inCall.server.mode == Running(phase, Interval) then
      var rest := Retry(inCall.server.(stackErrors := Bump(inCall.server.stackErrors)));
      Continues(Outcome(rest.server, outputs + rest.outputs))
    else AssertionFails(outputs)
  }

  // ---- What the other threads can do ----

  /** In an INTERVAL state every event but an expiry and an effective abort is without effect. */
  lemma IntervalIgnores(s: Server, e: Event)
    requires Sane(s) && s.mode.Running? && s.mode.stage == Interval && !e.TimerExpired?
    ensures Step(s, e) == if e.AbortCall? && Abortable(s) then Finish(s, Aborted) else Outcome(s, [])
  {
  }

  lemma IdleIgnores(s: Server, e: Event)
    requires Sane(s) && s.mode == Idle && !s.timer && !Starts(e)
    ensures Step(s, e) == Outcome(s, [])
  {
  }

  /** During a call every callback is ignored, and an abort succeeds at most once. */
  lemma {:induction false} DuringTheCall(s: Server, during: seq<Event>)
    requires Sane(s) && s.mode.Running? && s.mode.stage == Interval && OneThread(s, during)
    ensures Run(s, during) == if CutShort(s, during) then Finish(s, Aborted) else Outcome(s, [])
  {
    if during != [] {
      var prefix, e := during[..|during| - 1], during[|during| - 1];
      assert during == prefix + [e];
      DuringTheCall(s, prefix);
      if CutShort(s, prefix) {
        IdleIgnores(Run(s, prefix).server, e);
      } else {
        IntervalIgnores(s, e);
      }
    }
  }

  lemma ExpirySends(s: Server, submit: bool, now: u32, image: Option<seq<byte>>)
    requires Sane(s) && Sends(s, image)
    ensures Step(s, TimerExpired(submit, now, image))
         == Transmit(s.(timer := false), RequestOf(s, now, image), submit)
  {
  }

  /**
   * A blocked send is the atomic expiry placed behind the events that came during the call, exactly when
   * none of them aborts the process.
   */
  lemma BlockedIsAtomic(s: Server, submit: bool, now: u32, image: Option<seq<byte>>, during: seq<Event>)
    requires Sane(s) && Sends(s, image) && OneThread(s, during)
    ensures BlockedSend(s, submit, now, image, during)
            == Continues(Run(s, during + [TimerExpired(submit, now, image)]))
            <==> !CutShort(s, during)
  {
    DuringTheCall(s, during);
    DuringTheCall(s.(timer := false), during);
    RunSnoc(s, during, TimerExpired(submit, now, image));
    ExpirySends(s, submit, now, image);
  }

  // ---- Whole runs ----

  datatype Action =
    | Atomic(e: Event)
    | Blocked(submit: bool, now: u32, image: Option<seq<byte>>, during: seq<Event>)

  /** The same events with each expiry behind those that came during its call. */
  function Linear(actions: seq<Action>): seq<Event> {
    if actions == [] then []
    else
      Linear(actions[..|actions| - 1]) +
      match actions[|actions| - 1]
      case Atomic(e) => [e]
      case Blocked(submit, now, image, during) => during + [TimerExpired(submit, now, image)]
  }

  /** Each blocked action is a send, and no send is cut short by an abort. */
  predicate NoneCutShort(s: Server, actions: seq<Action>)
    requires Sane(s)
  {
    actions == [] ||
    (NoneCutShort(s, actions[..|actions| - 1]) &&
     match actions[|actions| - 1]
     case Atomic(_) => true
     case Blocked(_, _, image, during) =>
       var t := Run(s, Linear(actions[..|actions| - 1])).server;
       Sends(t, image) && FromOthers(during) && !CutShort(t, during))
  }

  /** Steps and blocked sends; a blocked action that is no send of one thread does nothing. */
  function Racing(s: Server, actions: seq<Action>): (r: Ending)
    requires Sane(s)
    ensures r.Continues? ==> Sane(r.o.server)
  {
    if actions == [] then Continues(Outcome(s, []))
    else
      var before := Racing(s, actions[..|actions| - 1]);
      match before
      case AssertionFails(_) => before
      case Continues(o) =>
        match actions[|actions| - 1]
        case Atomic(e) =>
          var last := Step(o.server, e);
          Continues(Outcome(last.server, o.outputs + last.outputs))
        case Blocked(submit, now, image, during) =>
          if !Sends(o.server, image) || !OneThread(o.server, during) then before
          else
            match BlockedSend(o.server, submit, now, image, during)
            case Continues(last) => Continues(Outcome(last.server, o.outputs + last.outputs))
            case AssertionFails(outputs) => AssertionFails(o.outputs + outputs)
  }

  lemma {:induction false} RunConcat(s: Server, a: seq<Event>, b: seq<Event>)
    requires Sane(s)
    ensures Run(s, a + b)
            == Outcome(Run(Run(s, a).server, b).server, Run(s, a).outputs + Run(Run(s, a).server, b).outputs)
  {
    if b == [] {
      assert a + b == a;
    } else {
      var prefix, e := b[..|b| - 1], b[|b| - 1];
      RunConcat(s, a, prefix);
      RunSnoc(s, a + prefix, e);
      assert (a + prefix) + [e] == a + b;
      var first, second := Run(s, a), Run(Run(s, a).server, prefix);
      Regroup(first.outputs, second.outputs, Step(second.server, e).outputs);
    }
  }

  /**
   * Every run in which no abort falls into a blocked send is, state and outputs, a run of the server
   * with atomic steps; what holds of those runs holds of it.
   */
  lemma {:induction false} RacingIsAtomic(s: Server, actions: seq<Action>)
    requires Sane(s) && NoneCutShort(s, actions)
    ensures Racing(s, actions) == Continues(Run(s, Linear(actions)))
  {
    if actions != [] {
      var prefix, last := actions[..|actions| - 1], actions[|actions| - 1];
      RacingIsAtomic(s, prefix);
      match last {
        case Atomic(e) => RunSnoc(s, Linear(prefix), e);
        case Blocked(submit, now, image, during) =>
          BlockedIsAtomic(Run(s, Linear(prefix)).server, submit, now, image, during);
          RunConcat(s, Linear(prefix), during + [TimerExpired(submit, now, image)]);
      }
    }
  }

  // ---- A sent callback that came too early ----

  /** The event moves a server that waits for a sent callback without a timer. */
  predicate Reaches(s: Server, e: Event)
    requires s.mode.Running?
  {
    (e.MessageSent? && e.endpoint == SERVER_ENDPOINT && e.command == RequestCommand(s.mode.phase)) ||
    (e.AbortCall? && Abortable(s)) ||
    (e.IncomingMessage? && AcceptsMessage(s, e))
  }

  predicate AwaitsCallback(s: Server) {
    Sane(s) && s.mode.Running? && s.mode.stage == Pending && !s.timer
  }

  lemma PendingStep(s: Server, e: Event)
    requires AwaitsCallback(s)
    ensures Step(s, e) == Outcome(s, []) <==> !Reaches(s, e)
    ensures Reaches(s, e) ==> Unlike(Step(s, e))
  {
  }

  /** Something has been put out, or the server no longer waits for a sent callback. */
  predicate Unlike(o: Outcome) {
    o.outputs != [] || !(o.server.mode.Running? && o.server.mode.stage == Pending)
  }

  lemma OnlyASendPends(s: Server, e: Event)
    requires Sane(s) && !(s.mode.Running? && s.mode.stage == Pending)
    ensures Unlike(Step(s, e))
  {
  }

  /**
   * Over any run, with starts, aborts, expiries and messages of all kinds, a server that awaits a sent
   * callback stays as it is and puts out nothing exactly as long as no event reaches it.
   */
  lemma {:induction false} PendingStays(s: Server, events: seq<Event>)
    requires AwaitsCallback(s)
    ensures Run(s, events) == Outcome(s, []) <==> forall e :: e in events ==> !Reaches(s, e)
    ensures Run(s, events) == Outcome(s, []) || Unlike(Run(s, events))
  {
    if events != [] {
      var prefix, e := events[..|events| - 1], events[|events| - 1];
      assert events == prefix + [e];
      PendingStays(s, prefix);
      var before := Run(s, prefix);
      if before == Outcome(s, []) {
        PendingStep(s, e);
      } else if before.outputs == [] {
        OnlyASendPends(before.server, e);
      }
    }
  }

  /**
   * If the callback of a handshake frame comes during the call that submits it, the server is stuck
   * for good: without another such callback no event of any kind changes it, neither abort nor start.
   */
  lemma HandshakeStuck(s: Server, now: u32, during: seq<Event>, later: seq<Event>)
    requires Sane(s) && Sends(s, None) && s.mode.phase == HandshakePhase && FromOthers(during)
    requires forall e :: e in later ==> !(e.MessageSent? && e.command == CMD_HANDSHAKE)
    ensures var frame := Submitted(s.target, EncodeRequest(Handshake(s.tag, s.size)), true);
            var stuck := s.(mode := Running(HandshakePhase, Pending), timer := false);
            BlockedSend(s, true, now, None, during) == Continues(Outcome(stuck, [frame])) &&
            Run(stuck, later) == Outcome(stuck, []) && Step(stuck, AbortCall) == Outcome(stuck, []) &&
            StartReply(stuck, true) == Busy
  {
    DuringTheCall(s.(timer := false), during);
    PendingStays(s.(mode := Running(HandshakePhase, Pending), timer := false), later);
  }

  // ---- An abort during the call ----

  /**
   * An abort during the call is reported as the end of the process, and then undone if the frame was
   * accepted: the server is where the send alone would have left it, and the process can end a
   * second time. If the frame was refused, the handler runs into a failing assertion.
   */
  lemma AbortDuringTheCall(s: Server, now: u32, image: Option<seq<byte>>, during: seq<Event>)
    requires Sane(s) && Sends(s, image) && OneThread(s, during) && CutShort(s, during)
    ensures var done := Completed(KindOf(s.mode.phase), Aborted);
            var sent := BlockedSend(s, true, now, image, during);
            var atomic := Step(s, TimerExpired(true, now, image));
            sent == Continues(Outcome(atomic.server, atomic.outputs + [done])) &&
            Step(atomic.server, AbortCall).outputs == [done] &&
            BlockedSend(s, false, now, image, during).AssertionFails?
  {
    DuringTheCall(s.(timer := false), during);
    ExpirySends(s, true, now, image);
  }
}

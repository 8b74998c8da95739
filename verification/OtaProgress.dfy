/**
 * Success stays within reach: whatever has happened so far, while a distribution is under way the
 * network and the target can still behave so that the server reports success.
 */
module OtaProgress {
  import opened ByteUtilities
  import opened OtaProtocol
  import opened OtaServerModel
  import opened OtaServerProperties
  import opened OtaDelivery

  function SegmentFrame(job: Job, i: u32): seq<byte>
    requires ValidJob(job) && i < TotalSegments(job.size)
  {
    EncodeRequest(ImageSegment(job.tag, i, Piece(job, i)))
  }

  /** Once a segment is out, its frame is in the network until the server moves on. */
  predicate FrameOut(job: Job, sys: System) {
    Inv(job, sys) &&
    (InSegmentPhase(sys.server) && sys.server.mode.stage != Interval ==>
      SegmentFrame(job, sys.server.next) in sys.toTarget)
  }

  /** What an expiry does in the segment phase, if it goes well. */
  lemma ExpirySends(job: Job, s: Server, now: u32)
    requires ValidJob(job) && Orderly(s) && s.mode == Running(SegmentPhase, Interval)
    requires s.size == job.size && s.tag == job.tag
    ensures var o := Step(s, TimerExpired(true, now, Some(job.image)));
            o.server == s.(mode := Running(SegmentPhase, Pending), timer := false, sent := s.next) &&
            o.outputs == [Submitted(s.target, SegmentFrame(job, s.next), true)]
  {
    WindowInRange(s.next, s.size);
  }

  /** Segments leave INTERVAL only by being sent, and while one is out the next index stays. */
  lemma StageMoves(s: Server, e: Event)
    requires Orderly(s) && Fair(s, e) && !Starts(e)
    ensures var t := Step(s, e).server;
            InSegmentPhase(t) && t.mode.stage != Interval ==>
              InSegmentPhase(s) && t.next == s.next &&
              (s.mode.stage == Interval ==> e.TimerExpired? && e.submit && e.image.Some?)
  {
    if e.TimerExpired? && s.mode == Running(SegmentPhase, Interval) {
      WindowInRange(s.next, s.size);
    }
  }

  lemma ServerKeepsFrameOut(job: Job, sys: System, e: Event, start: Option<nat>)
    requires FrameOut(job, sys) && Fair(sys.server, e) && !Starts(e) && Inv(job, AfterServer(sys, e, start))
    requires e.TimerExpired? ==> e.image in {None, Some(job.image)}
    ensures FrameOut(job, AfterServer(sys, e, start))
  {
    var s, t := sys.server, Step(sys.server, e).server;
    StageMoves(s, e);
    if InSegmentPhase(t) && t.mode.stage != Interval && s.mode.stage == Interval {
      ExpirySends(job, s, e.now);
      assert Submitted(s.target, SegmentFrame(job, s.next), true) in Step(s, e).outputs;
      assert SegmentFrame(job, t.next) in Sent(Step(s, e).outputs);
    }
  }

  lemma ApplyKeepsFrameOut(job: Job, sys: System, a: Action)
    requires FrameOut(job, sys) && Enabled(job, sys, a)
    ensures FrameOut(job, Apply(job, sys, a))
  {
    ApplyKeepsInv(job, sys, a);
    match a
    case ServerActs(e) =>
      ServerKeepsFrameOut(job, sys, e, sys.start);
    case ServerReceives(r, junk) =>
      ReceivedIsFair(job, sys, r, junk);
      ServerKeepsFrameOut(job, sys, Received(job, r, junk), StartAfter(sys, r));
    case TargetStores(_) =>
    case TargetAnswers(_) =>
  }

  lemma {:induction false} AlwaysFrameOut(job: Job, actions: seq<Action>)
    requires ValidJob(job) && Possible(job, actions)
    ensures FrameOut(job, After(job, actions))
  {
    if actions != [] {
      AlwaysFrameOut(job, actions[..|actions| - 1]);
      ApplyKeepsFrameOut(job, After(job, actions[..|actions| - 1]), actions[|actions| - 1]);
    }
  }

  lemma Extend(job: Job, actions: seq<Action>, a: Action)
    requires ValidJob(job) && Possible(job, actions) && Enabled(job, After(job, actions), a)
    ensures Possible(job, actions + [a]) && After(job, actions + [a]) == Apply(job, After(job, actions), a)
  {
    assert (actions + [a])[..|actions|] == actions;
  }

  // ---- One segment ----

  /** The answer of a target that has just stored segment i. */
  function Answer(job: Job, i: u32): Response
    requires ValidJob(job)
  {
    SegmentResponse(job.tag, if i + 1 == TotalSegments(job.size) then RESP_COMPLETED else RESP_ONGOING, i, 0)
  }

  const Junk: seq<byte> := [0, 0, 0, 0, 0, 0, 0]

  lemma AnswerAccepted(job: Job, s: Server)
    requires ValidJob(job) && Orderly(s) && InSegmentPhase(s) && s.mode.stage != Interval
    requires s.target == job.target && s.size == job.size && s.tag == job.tag
    ensures var e := Received(job, Answer(job, s.next), Junk);
            AcceptsMessage(s, e) && ResponseStatus(e.payload) == Answer(job, s.next).status &&
            WordField(e.payload) == s.next
  {
    ResponseRoundTrip(Answer(job, s.next), EncodeResponse(Answer(job, s.next)) + Junk);
  }

  lemma AnswerMovesOn(job: Job, s: Server)
    requires ValidJob(job) && Orderly(s) && InSegmentPhase(s) && s.mode.stage != Interval
    requires s.target == job.target && s.size == job.size && s.tag == job.tag
    ensures var o := Step(s, Received(job, Answer(job, s.next), Junk));
            if s.next + 1 == TotalSegments(job.size) then Completed(Distribution, Success) in o.outputs
            else o.server.mode == Running(SegmentPhase, Interval) && o.server.next == s.next + 1
  {
    AnswerAccepted(job, s);
    var e := Received(job, Answer(job, s.next), Junk);
    if s.next + 1 == TotalSegments(job.size) {
      CompletedEnds(s, e);
    } else {
      OngoingMovesOn(s, e);
    }
  }

  lemma CompletedEnds(s: Server, e: Event)
    requires Orderly(s) && InSegmentPhase(s) && e.IncomingMessage? && AcceptsMessage(s, e)
    requires ResponseStatus(e.payload) == RESP_COMPLETED
    ensures Completed(Distribution, Success) in Step(s, e).outputs
  {
    assert Step(s, e).outputs[0] == Completed(Distribution, Success);
  }

  lemma OngoingMovesOn(s: Server, e: Event)
    requires Orderly(s) && InSegmentPhase(s) && s.mode.stage != Interval && e.IncomingMessage? && AcceptsMessage(s, e)
    requires ResponseStatus(e.payload) == RESP_ONGOING && WordField(e.payload) == s.next
    ensures Step(s, e).server.mode == Running(SegmentPhase, Interval) && Step(s, e).server.next == s.next + 1
  {
  }

  /** A segment that is out can be stored and answered, which ends the distribution or starts the next segment. */
  lemma FinishSegment(job: Job, actions: seq<Action>) returns (more: seq<Action>)
    requires ValidJob(job) && Possible(job, actions)
    requires InSegmentPhase(After(job, actions).server) && After(job, actions).server.mode.stage != Interval
    ensures actions <= more && Possible(job, more)
    ensures var sys, next := After(job, more), After(job, actions).server.next;
            if next + 1 == TotalSegments(job.size) then sys.succeeded
            else sys.server.mode == Running(SegmentPhase, Interval) && sys.server.next == next + 1
  {
    more := StoreSegment(job, actions);
    more := AnswerSegment(job, more);
    more := ReceiveAnswer(job, more);
  }

  lemma StoreSegment(job: Job, actions: seq<Action>) returns (more: seq<Action>)
    requires ValidJob(job) && Possible(job, actions)
    requires InSegmentPhase(After(job, actions).server) && After(job, actions).server.mode.stage != Interval
    ensures actions <= more && Possible(job, more)
    ensures After(job, more).server == After(job, actions).server
    ensures After(job, more).server.next as nat in After(job, more).flash
  {
    AlwaysFrameOut(job, actions);
    var next := After(job, actions).server.next;
    RequestRoundTrip(ImageSegment(job.tag, next, Piece(job, next)));
    more := Take(job, actions, TargetStores(SegmentFrame(job, next)));
  }

  lemma AnswerSegment(job: Job, actions: seq<Action>) returns (more: seq<Action>)
    requires ValidJob(job) && Possible(job, actions) && InSegmentPhase(After(job, actions).server)
    requires After(job, actions).server.next as nat in After(job, actions).flash
    ensures actions <= more && Possible(job, more)
    ensures After(job, more).server == After(job, actions).server
    ensures Answer(job, After(job, actions).server.next) in After(job, more).toServer
  {
    AnswerIsPromised(job, After(job, actions).server.next, After(job, actions).flash);
    more := Take(job, actions, TargetAnswers(Answer(job, After(job, actions).server.next)));
  }

  lemma AnswerIsPromised(job: Job, i: u32, flash: map<nat, seq<byte>>)
    requires ValidJob(job) && i < TotalSegments(job.size) && i as nat in flash
    ensures Promise(job, flash, Answer(job, i))
  {
  }

  lemma ReceiveAnswer(job: Job, actions: seq<Action>) returns (more: seq<Action>)
    requires ValidJob(job) && Possible(job, actions)
    requires InSegmentPhase(After(job, actions).server) && After(job, actions).server.mode.stage != Interval
    requires Answer(job, After(job, actions).server.next) in After(job, actions).toServer
    ensures actions <= more && Possible(job, more)
    ensures var sys, next := After(job, more), After(job, actions).server.next;
            if next + 1 == TotalSegments(job.size) then sys.succeeded
            else sys.server.mode == Running(SegmentPhase, Interval) && sys.server.next == next + 1
  {
    AnswerMovesOn(job, After(job, actions).server);
    more := Take(job, actions, ServerReceives(Answer(job, After(job, actions).server.next), Junk));
  }

  lemma Take(job: Job, actions: seq<Action>, a: Action) returns (more: seq<Action>)
    requires ValidJob(job) && Possible(job, actions) && Enabled(job, After(job, actions), a)
    ensures actions <= more && Possible(job, more) && After(job, more) == Apply(job, After(job, actions), a)
  {
    Extend(job, actions, a);
    more := actions + [a];
  }

  lemma SendSegment(job: Job, actions: seq<Action>) returns (more: seq<Action>)
    requires ValidJob(job) && Possible(job, actions)
    requires After(job, actions).server.mode == Running(SegmentPhase, Interval)
    ensures actions <= more && Possible(job, more)
    ensures var s := After(job, more).server;
            InSegmentPhase(s) && s.mode.stage == Pending && s.next == After(job, actions).server.next
  {
    ExpirySends(job, After(job, actions).server, 0);
    more := Take(job, actions, ServerActs(TimerExpired(true, 0, Some(job.image))));
  }

  // ---- The rest of the image ----

  lemma {:induction false} FinishImage(job: Job, actions: seq<Action>) returns (more: seq<Action>)
    requires ValidJob(job) && Possible(job, actions) && InSegmentPhase(After(job, actions).server)
    ensures actions <= more && Possible(job, more) && After(job, more).succeeded
    decreases TotalSegments(job.size) - After(job, actions).server.next
  {
    var s := After(job, actions).server;
    more := actions;
    if s.mode.stage == Interval {
      more := SendSegment(job, more);
    }
    more := FinishSegment(job, more);
    if s.next + 1 < TotalSegments(job.size) {
      more := FinishImage(job, more);
    }
  }

  // ---- The handshake ----

  function Agreed(job: Job): Response {
    HandshakeResponse(job.tag, RESP_ONGOING, 0)
  }

  /** A handshake still to be sent, or sent and not acknowledged, can be brought to its response. */
  lemma AwaitHandshake(job: Job, actions: seq<Action>) returns (more: seq<Action>)
    requires ValidJob(job) && Possible(job, actions)
    requires var m := After(job, actions).server.mode; m.Running? && m.phase == HandshakePhase
    ensures actions <= more && Possible(job, more)
    ensures After(job, more).server.mode == Running(HandshakePhase, Waiting)
  {
    more := actions;
    if After(job, more).server.mode.stage == Interval {
      more := Take(job, more, ServerActs(TimerExpired(true, 0, None)));
    }
    if After(job, more).server.mode.stage == Pending {
      more := Take(job, more, ServerActs(MessageSent(SERVER_ENDPOINT, CMD_HANDSHAKE, Delivered)));
    }
  }

  lemma AgreementStarts(job: Job, s: Server)
    requires ValidJob(job) && Orderly(s) && s.mode == Running(HandshakePhase, Waiting)
    requires s.target == job.target && s.size == job.size && s.tag == job.tag
    ensures InSegmentPhase(Step(s, Received(job, Agreed(job), Junk)).server)
  {
    AgreementAccepted(job, s);
    OngoingStarts(s, Received(job, Agreed(job), Junk));
  }

  lemma AgreementAccepted(job: Job, s: Server)
    requires s.mode == Running(HandshakePhase, Waiting) && s.target == job.target && s.tag == job.tag
    ensures var e := Received(job, Agreed(job), Junk); AcceptsMessage(s, e) && ResponseStatus(e.payload) == RESP_ONGOING
  {
    ResponseRoundTrip(Agreed(job), EncodeResponse(Agreed(job)) + Junk);
  }

  lemma OngoingStarts(s: Server, e: Event)
    requires Orderly(s) && s.mode == Running(HandshakePhase, Waiting)
    requires e.IncomingMessage? && AcceptsMessage(s, e) && ResponseStatus(e.payload) == RESP_ONGOING
    ensures InSegmentPhase(Step(s, e).server)
  {
  }

  lemma BeginImage(job: Job, actions: seq<Action>) returns (more: seq<Action>)
    requires ValidJob(job) && Possible(job, actions)
    requires After(job, actions).server.mode == Running(HandshakePhase, Waiting)
    ensures actions <= more && Possible(job, more) && InSegmentPhase(After(job, more).server)
  {
    more := Take(job, actions, TargetAnswers(Agreed(job)));
    AgreementStarts(job, After(job, more).server);
    more := Take(job, more, ServerReceives(Agreed(job), Junk));
  }

  /**
   * From every state any run can reach, short of the end of the distribution, some continuation
   * ends in success: no sequence of losses, delays, duplicates and failures is a dead end before
   * the server itself has given up.
   */
  lemma SuccessStaysReachable(job: Job, actions: seq<Action>)
    requires ValidJob(job) && Possible(job, actions) && After(job, actions).server.mode.Running?
    ensures exists more :: actions <= more && Possible(job, more) && After(job, more).succeeded
  {
    var more := actions;
    if After(job, more).server.mode.phase == HandshakePhase {
      more := AwaitHandshake(job, more);
      more := BeginImage(job, more);
    }
    more := FinishImage(job, more);
  }
}

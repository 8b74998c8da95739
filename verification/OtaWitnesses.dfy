/** Concrete runs of the server against a target that does not keep to the protocol. */
module OtaWitnesses {
  import opened ByteUtilities
  import opened OtaProtocol
  import opened OtaServerModel
  import opened OtaServerProperties

  const Agree: Buffer := [0x15, 0, 0, 0, 0, 0, 0]

  /** ONGOING for a segment. */
  function GoOnPast(index: byte): Buffer {
    [0x11, 0, index, 0, 0, 0, 0]
  }

  function FromTarget(payload: Buffer): Event {
    IncomingMessage(SERVER_ENDPOINT, true, 1, payload, 7)
  }

  /** The state of a distribution of 96 bytes to node 1 under tag 0. */
  function At(phase: Phase, stage: Stage, next: u32, sent: u32): Server {
    Server(Running(phase, stage), 1, 96, 0, next, sent, 0, 0, stage != Pending)
  }

  lemma Then(events: seq<Event>, e: Event, before: Server, o: Outcome) returns (more: seq<Event>)
    requires Run(PowerOn, events).server == before && Sane(before) && Step(before, e) == o
    ensures Run(PowerOn, more) == Outcome(o.server, Run(PowerOn, events).outputs + o.outputs)
  {
    RunSnoc(PowerOn, events, e);
    more := events + [e];
  }

  lemma HandshakeSteps()
    ensures Step(PowerOn, StartDistribution(1, 96, 0)) == Outcome(At(HandshakePhase, Interval, 0, 0), [])
    ensures Step(At(HandshakePhase, Pending, 0, 0), MessageSent(SERVER_ENDPOINT, CMD_HANDSHAKE, Delivered))
         == Outcome(At(HandshakePhase, Waiting, 0, 0), [])
    ensures Step(At(HandshakePhase, Interval, 0, 0), TimerExpired(true, 0, None)).server
            == At(HandshakePhase, Pending, 0, 0)
  {
  }

  lemma AgreeStep()
    ensures Step(At(HandshakePhase, Waiting, 0, 0), FromTarget(Agree)) == Outcome(At(SegmentPhase, Interval, 0, 0), [])
  {
  }

  lemma SendStep(image: seq<byte>)
    requires |image| == 96
    ensures Step(At(SegmentPhase, Interval, 0, 0), TimerExpired(true, 0, Some(image))).server
            == At(SegmentPhase, Pending, 0, 0)
  {
    assert CopyFits(0, 96, 96);
  }

  lemma AnswerReads(index: byte)
    ensures var p := GoOnPast(index);
            CommandId(p) == CMD_IMAGE_SEGMENT_RESPONSE && ResponseStatus(p) == RESP_ONGOING && p[TAG_OFFSET] == 0 &&
            WordField(p) == index
  {
    SmallWord(GoOnPast(index));
  }

  lemma SmallWord(frame: seq<byte>)
    requires |frame| >= 6 && frame[3] == 0 && frame[4] == 0 && frame[5] == 0
    ensures WordField(frame) == frame[2]
  {
    assert Value32(0, 0, 0, frame[2]) == frame[2];
  }

  lemma GoOn(s: Server, index: byte)
    requires Sane(s) && s.mode == Running(SegmentPhase, Pending) && s.target == 1 && s.tag == 0
    requires s.sent == index && s.next < TotalSegments(s.size)
    ensures Step(s, FromTarget(GoOnPast(index)))
         == Outcome(s.(mode := Running(SegmentPhase, Interval), timer := true, targetErrors := 0, next := s.next + 1),
                    [])
  {
    AnswerReads(index);
  }

  lemma SendEmptyStep(image: seq<byte>)
    requires |image| == 96
    ensures Step(At(SegmentPhase, Interval, 1, 0), TimerExpired(true, 0, Some(image)))
         == Outcome(At(SegmentPhase, Pending, 1, 1), [Submitted(1, [0x10, 0, 1, 0, 0, 0], true)])
  {
    PastTheLastFaults(At(SegmentPhase, Interval, 1, 0), true, 0, image);
    assert EncodeRequest(ImageSegment(0, 1, [])) == [0x10, 0, 1, 0, 0, 0];
  }

  lemma Stall(s: Server, index: byte)
    requires Sane(s) && s.mode == Running(SegmentPhase, Pending) && s.target == 1 && s.tag == 0
    requires s.sent == s.next == TotalSegments(s.size) == index
    ensures Step(s, FromTarget(GoOnPast(index))).outputs == [] && Stalled(Step(s, FromTarget(GoOnPast(index))).server)
  {
    AnswerReads(index);
    EmptySegmentStalls(s, FromTarget(GoOnPast(index)));
  }

  /** Handshake, up to the first segment. */
  lemma Begin() returns (events: seq<Event>)
    ensures Run(PowerOn, events).server == At(SegmentPhase, Interval, 0, 0)
  {
    HandshakeSteps();
    AgreeStep();
    events := Then([], StartDistribution(1, 96, 0), PowerOn, Outcome(At(HandshakePhase, Interval, 0, 0), []));
    var e := TimerExpired(true, 0, None);
    events := Then(events, e, At(HandshakePhase, Interval, 0, 0), Step(At(HandshakePhase, Interval, 0, 0), e));
    events := Then(events, MessageSent(SERVER_ENDPOINT, CMD_HANDSHAKE, Delivered), At(HandshakePhase, Pending, 0, 0),
                   Outcome(At(HandshakePhase, Waiting, 0, 0), []));
    events := Then(events, FromTarget(Agree), At(HandshakePhase, Waiting, 0, 0),
                   Outcome(At(SegmentPhase, Interval, 0, 0), []));
  }

  /** The only segment is sent and answered ONGOING. */
  lemma AnswerTheLast(image: seq<byte>) returns (events: seq<Event>)
    requires |image| == 96
    ensures Run(PowerOn, events).server == At(SegmentPhase, Interval, 1, 0)
  {
    SendStep(image);
    GoOn(At(SegmentPhase, Pending, 0, 0), 0);
    var e := TimerExpired(true, 0, Some(image));
    events := Begin();
    events := Then(events, e, At(SegmentPhase, Interval, 0, 0), Step(At(SegmentPhase, Interval, 0, 0), e));
    events := Then(events, FromTarget(GoOnPast(0)), At(SegmentPhase, Pending, 0, 0),
                   Outcome(At(SegmentPhase, Interval, 1, 0), []));
  }

  /** A 96-byte image has one segment. A second, empty one goes out, and with its answer the server stalls. */
  lemma EmptySegmentThenStall(image: seq<byte>)
    requires |image| == 96
    ensures exists events ::
              Submitted(1, [0x10, 0, 1, 0, 0, 0], true) in Run(PowerOn, events).outputs &&
              Stalled(Run(PowerOn, events).server)
  {
    SendEmptyStep(image);
    Stall(At(SegmentPhase, Pending, 1, 1), 1);
    var events := AnswerTheLast(image);
    var empty := Submitted(1, [0x10, 0, 1, 0, 0, 0], true);
    events := Then(events, TimerExpired(true, 0, Some(image)), At(SegmentPhase, Interval, 1, 0),
                   Outcome(At(SegmentPhase, Pending, 1, 1), [empty]));
    assert Run(PowerOn, events).outputs[|Run(PowerOn, events).outputs| - 1] == empty;
    var last := Step(At(SegmentPhase, Pending, 1, 1), FromTarget(GoOnPast(1)));
    events := Then(events, FromTarget(GoOnPast(1)), At(SegmentPhase, Pending, 1, 1), last);
    assert empty in Run(PowerOn, events).outputs && Stalled(Run(PowerOn, events).server);
  }
}

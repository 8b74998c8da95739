/**
 * What each event does to the server, told by the bytes received and the statuses reported: where a
 * transfer resumes, how each process ends, and what goes on the air.
 */
module OtaServerOutcomes {
  import opened ByteUtilities
  import opened OtaProtocol
  import opened OtaServerModel
  import opened OtaServerProperties
  import opened OtaServerHistory

  // ---- Messages as bytes ----

  /** A 32-bit value, least significant byte first. */
  function LittleEndian(b0: byte, b1: byte, b2: byte, b3: byte): u32 {
    b0 as int + 0x100 * b1 + 0x1_0000 * b2 + 0x100_0000 * b3
  }

  lemma WordRead(frame: seq<byte>)
    requires |frame| >= 6
    ensures WordField(frame) == LittleEndian(frame[2], frame[3], frame[4], frame[5])
  {
  }

  lemma WordWritten(b0: byte, b1: byte, b2: byte, b3: byte)
    ensures LowHigh32(LittleEndian(b0, b1, b2, b3)) == [b0, b1, b2, b3]
  {
    Digits(b0, b1, b2, b3);
    assert Value32(b3, b2, b1, b0) == LittleEndian(b0, b1, b2, b3);
  }

  /** The low four bits of the first byte name the command, the next three the status; the tag follows. */
  predicate Names(e: Event, command: byte, status: byte)
    requires e.IncomingMessage?
  {
    e.payload[0] % 16 == command && e.payload[0] / 16 % 8 == status
  }

  /** A secured message for endpoint 13 from the node the process is about. */
  predicate FromTarget(s: Server, e: Event) {
    e.IncomingMessage? && e.endpoint == 13 && e.secured && e.source == s.target
  }

  /** A plain (5) or extended (6) answer to the handshake. */
  predicate HandshakeAnswer(s: Server, e: Event, status: byte) {
    FromTarget(s, e) && s.mode == Running(HandshakePhase, Waiting) && e.payload[1] == s.tag &&
    (Names(e, 5, status) || Names(e, 6, status))
  }

  predicate SegmentAnswer(s: Server, e: Event, status: byte) {
    FromTarget(s, e) && s.mode in {Running(SegmentPhase, Pending), Running(SegmentPhase, Waiting)} &&
    e.payload[1] == s.tag && Names(e, 1, status)
  }

  /** Three bytes long, and under any tag. */
  predicate BootloadAnswer(s: Server, e: Event, status: byte) {
    FromTarget(s, e) && s.mode == Running(BootloadPhase, Waiting) && e.length == 3 && Names(e, 3, status)
  }

  predicate AnyAnswer(s: Server, e: Event) {
    exists status :: HandshakeAnswer(s, e, status) || SegmentAnswer(s, e, status) || BootloadAnswer(s, e, status)
  }

  lemma StatusOf(s: Server, e: Event)
    requires e.IncomingMessage?
    ensures AcceptsMessage(s, e) ==>
              var status := ResponseStatus(e.payload);
              HandshakeAnswer(s, e, status) || SegmentAnswer(s, e, status) || BootloadAnswer(s, e, status)
    ensures AnyAnswer(s, e) ==> AcceptsMessage(s, e)
  {
  }

  /** Everything else that comes in is ignored. */
  lemma OnlyAnswersCount(s: Server, e: Event)
    requires Sane(s) && e.IncomingMessage? && !AnyAnswer(s, e)
    ensures Step(s, e) == Outcome(s, [])
  {
    StatusOf(s, e);
  }

  // ---- Going on ----

  /**
   * An ongoing handshake answer starts the segment phase at the segment it names: bytes two to five
   * of an extended answer, and the first one for a plain answer.
   */
  lemma ResumesAsAnswered(s: Server, e: Event)
    requires Sane(s) && HandshakeAnswer(s, e, 1)
    ensures var p := e.payload;
            Step(s, e) == Outcome(s.(mode := Running(SegmentPhase, Interval),
                                     next := if p[0] % 16 == 6 then LittleEndian(p[2], p[3], p[4], p[5]) else 0,
                                     targetErrors := 0, timer := true), [])
  {
    WordRead(e.payload);
  }

  /** An ongoing segment answer for the segment last sent moves on to the next one, as long as there are segments. */
  lemma AcknowledgedMovesOn(s: Server, e: Event)
    requires Sane(s) && SegmentAnswer(s, e, 1)
    requires var p := e.payload; LittleEndian(p[2], p[3], p[4], p[5]) == s.sent
    requires s.next < TotalSegments(s.size)
    ensures Step(s, e) == Outcome(s.(mode := Running(SegmentPhase, Interval), next := s.next + 1,
                                     targetErrors := 0, timer := true), [])
  {
    WordRead(e.payload);
  }

  /**
   * Once the index is past the last segment, such an answer clears the counters and leaves nothing to
   * wait for; an answer with a status the server does not know changes nothing but the state.
   */
  lemma OtherSegmentAnswers(s: Server, e: Event, status: byte)
    requires Sane(s) && SegmentAnswer(s, e, status)
    ensures var p := e.payload;
            status == 1 && LittleEndian(p[2], p[3], p[4], p[5]) == s.sent && s.next >= TotalSegments(s.size) ==>
              Step(s, e) == Outcome(s.(mode := Running(SegmentPhase, Waiting), next := 0, stackErrors := 0,
                                       targetErrors := 0, timer := false), [])
    ensures status !in {0, 1, 3, 5} ==> Step(s, e) == Outcome(s.(mode := Running(SegmentPhase, Waiting)), [])
  {
    WordRead(e.payload);
  }

  /** Segments cover the image, and none is empty. */
  lemma SegmentsCover(size: u32)
    requires size > 0
    ensures 96 * (TotalSegments(size) - 1) < size <= 96 * TotalSegments(size)
  {
  }

  // ---- Ends ----

  predicate Reports(s: Server, e: Event, kind: Kind, status: Status)
    requires Sane(s)
  {
    Completed(kind, status) in Step(s, e).outputs
  }

  /** A bootload process reports what its target answered, and nothing else on an answer. */
  lemma BootloadOutcomes(s: Server, e: Event)
    requires Sane(s)
    ensures Reports(s, e, Bootload, Success) <==> BootloadAnswer(s, e, 0)
    ensures Reports(s, e, Bootload, Refused) <==> BootloadAnswer(s, e, 3)
    ensures Reports(s, e, Bootload, Failed) <==> exists status :: status !in {0, 3} && BootloadAnswer(s, e, status)
    ensures !Reports(s, e, Bootload, DataUnderflow)
  {
    if exists status :: BootloadAnswer(s, e, status) {
      AnswerEnds(s, e);
    } else {
      NoAnswerNoOutcome(s, e, Bootload);
    }
  }

  lemma AnswerEnds(s: Server, e: Event)
    requires Sane(s) && exists status :: BootloadAnswer(s, e, status)
    ensures var status := e.payload[0] / 16 % 8;
            BootloadAnswer(s, e, status) &&
            Step(s, e) == Outcome(s.(mode := Idle, timer := false),
                                  [Completed(Bootload, if status == 0 then Success
                                                       else if status == 3 then Refused else Failed)])
  {
  }

  /** The statuses a target decides about. */
  predicate TargetDecides(status: Status) {
    status in {Success, Refused, Failed}
  }

  lemma NoAnswerNoOutcome(s: Server, e: Event, kind: Kind)
    requires Sane(s)
    requires kind == Bootload ==> forall status :: !BootloadAnswer(s, e, status)
    requires kind == Distribution ==>
               forall status :: !HandshakeAnswer(s, e, status) && !SegmentAnswer(s, e, status)
    ensures forall status :: TargetDecides(status) ==> !Reports(s, e, kind, status)
    ensures kind == Bootload ==> !Reports(s, e, kind, DataUnderflow)
  {
    if e.IncomingMessage? {
      StatusOf(s, e);
    } else if e.TimerExpired? {
      TimerDecidesNothing(s, e.submit, e.now, e.image);
    }
  }

  lemma TimerDecidesNothing(s: Server, submit: bool, now: u32, image: Option<seq<byte>>)
    requires Sane(s)
    ensures forall kind, status :: TargetDecides(status) ==>
              Completed(kind, status) !in OnTimer(s, submit, now, image).outputs
    ensures Completed(Bootload, DataUnderflow) !in OnTimer(s, submit, now, image).outputs
  {
  }

  /** The image callback had no data for the segment to be sent. */
  predicate NoData(s: Server, e: Event) {
    e.TimerExpired? && s.timer && s.mode == Running(SegmentPhase, Interval) && e.image.None?
  }

  /** A segment answer that ends the distribution, by its status and index, and the end it brings. */
  predicate SegmentEnds(s: Server, e: Event, outcome: Status) {
    match outcome
    case Success => SegmentAnswer(s, e, 0)
    case Refused => SegmentAnswer(s, e, 3)
    case Failed =>
      SegmentAnswer(s, e, 5) ||
      (SegmentAnswer(s, e, 1) &&
       LittleEndian(e.payload[2], e.payload[3], e.payload[4], e.payload[5]) != s.sent)
    case _ => false
  }

  /**
   * A distribution reports success exactly for a completed segment answer, refusal for a refused answer
   * to handshake or segment, and failure for a handshake answer that is neither ongoing nor refused,
   * a segment out of sequence, or an acknowledgement of another segment than the one sent.
   */
  lemma DistributionOutcomes(s: Server, e: Event)
    requires Sane(s)
    ensures Reports(s, e, Distribution, Success) <==> SegmentEnds(s, e, Success)
    ensures Reports(s, e, Distribution, Refused) <==> SegmentEnds(s, e, Refused) || HandshakeAnswer(s, e, 3)
    ensures Reports(s, e, Distribution, Failed) <==>
            SegmentEnds(s, e, Failed) || exists status :: status !in {1, 3} && HandshakeAnswer(s, e, status)
    ensures Reports(s, e, Distribution, DataUnderflow) <==> NoData(s, e)
  {
    if e.IncomingMessage? && HandshakeAnswer(s, e, e.payload[0] / 16 % 8) {
      HandshakeAnswered(s, e);
    } else if e.IncomingMessage? && SegmentAnswer(s, e, e.payload[0] / 16 % 8) {
      SegmentAnswered(s, e);
    } else {
      NoAnswerNoOutcome(s, e, Distribution);
      UnderflowExactly(s, e);
    }
  }

  lemma HandshakeAnswered(s: Server, e: Event)
    requires Sane(s) && e.IncomingMessage? && HandshakeAnswer(s, e, e.payload[0] / 16 % 8)
    ensures var status := e.payload[0] / 16 % 8;
            Step(s, e).outputs
            == if status == 1 then [] else [Completed(Distribution, if status == 3 then Refused else Failed)]
  {
    if e.payload[0] / 16 % 8 == 1 {
      ResumesAsAnswered(s, e);
    }
  }

  lemma SegmentAnswered(s: Server, e: Event)
    requires Sane(s) && e.IncomingMessage? && SegmentAnswer(s, e, e.payload[0] / 16 % 8)
    ensures forall status ::
              Reports(s, e, Distribution, status) <==>
              (status == Success && SegmentEnds(s, e, Success)) || (status == Refused && SegmentEnds(s, e, Refused)) ||
              (status == Failed && SegmentEnds(s, e, Failed))
  {
    WordRead(e.payload);
  }

  lemma UnderflowExactly(s: Server, e: Event)
    requires Sane(s)
    ensures Reports(s, e, Distribution, DataUnderflow) <==> NoData(s, e)
  {
    if NoData(s, e) {
      assert Step(s, e).outputs[0] == Completed(Distribution, DataUnderflow);
    }
  }

  /** A process is aborted by the call alone, and in its own kind. */
  lemma AbortedExactly(s: Server, e: Event, kind: Kind)
    requires Sane(s)
    ensures Reports(s, e, kind, Aborted) <==>
            e.AbortCall? && s.mode.Running? &&
            s.mode.phase == if kind == Bootload then BootloadPhase else SegmentPhase
  {
    if e.AbortCall? && Abortable(s) {
      assert Step(s, e).outputs == [Completed(KindOf(s.mode.phase), Aborted)];
    }
  }

  // ---- Starts ----

  /**
   * What a call to start a distribution returns, and what it leaves: a process runs that did not run
   * before exactly on success.
   */
  lemma DistributionStarts(s: Server, target: u16, size: u32, tag: byte)
    requires Sane(s)
    ensures var reply := StartReply(s, AcceptsDistribution(s, target, size));
            var t := Step(s, StartDistribution(target, size, tag)).server;
            (reply == Busy <==> s.mode != Idle) &&
            (reply == Success <==> s.mode == Idle && target != 0xFFFF && 0 < size <= 0xFFFE * 96) &&
            (reply == Success <==> s.mode == Idle && t.mode.Running?) &&
            (reply == InvalidCall <==> reply != Busy && reply != Success) &&
            t == if reply == Success
                 then Server(Running(HandshakePhase, Interval), target, size, tag, 0, s.sent, 0, 0, true) else s
  {
  }

  lemma BootloadStarts(s: Server, delay: u32, tag: byte, target: u16, now: u32)
    requires Sane(s)
    ensures var reply := StartReply(s, AcceptsBootload(s, target));
            var t := Step(s, StartBootload(delay, tag, target, now)).server;
            (reply == Busy <==> s.mode != Idle) &&
            (reply == Success <==> s.mode == Idle && target != 0xFFFF) &&
            (reply == Success <==> s.mode == Idle && t.mode.Running?) &&
            (reply == InvalidCall <==> reply != Busy && reply != Success) &&
            t == if reply == Success
                 then Server(Running(BootloadPhase, Interval), target, (now + delay) % 0x1_0000_0000, tag, 0, s.sent,
                             0, 0, true)
                 else s
  {
  }

  // ---- On the air ----

  /** The bytes of the three requests: resume is always offered. */
  lemma RequestBytes(tag: byte, b0: byte, b1: byte, b2: byte, b3: byte, data: seq<byte>)
    ensures var word := LittleEndian(b0, b1, b2, b3);
            EncodeRequest(ImageSegment(tag, word, data)) == [0x10, tag, b0, b1, b2, b3] + data &&
            EncodeRequest(BootloadRequest(tag, word)) == [0x12, tag, b0, b1, b2, b3] &&
            EncodeRequest(Handshake(tag, word)) == [0x14, tag, b0, b1, b2, b3]
  {
    WordWritten(b0, b1, b2, b3);
  }

  lemma ResponseBytes(tag: byte, b0: byte, b1: byte, b2: byte, b3: byte, app: byte, status: byte)
    requires status < 8
    ensures var word := LittleEndian(b0, b1, b2, b3);
            EncodeResponse(SegmentResponse(tag, status, word, app))
            == [0x01 + 0x10 * status as int, tag, b0, b1, b2, b3, app] &&
            EncodeResponse(BootloadResponse(tag, status, app)) == [0x03 + 0x10 * status as int, tag, app] &&
            EncodeResponse(HandshakeResponse(tag, status, app)) == [0x05 + 0x10 * status as int, tag, app] &&
            EncodeResponse(ExtHandshakeResponse(tag, status, word))
            == [0x06 + 0x10 * status as int, tag, b0, b1, b2, b3]
  {
    WordWritten(b0, b1, b2, b3);
  }

  /** The first byte of a request and its word: the size, the segment's index, or the time left. */
  function FirstByte(phase: Phase): byte {
    match phase
    case HandshakePhase => 0x14
    case SegmentPhase => 0x10
    case BootloadPhase => 0x12
  }

  function WordOnAir(s: Server, now: u32): u32
    requires s.mode.Running?
  {
    match s.mode.phase
    case HandshakePhase => s.size
    case SegmentPhase => s.next
    case BootloadPhase => RemainingDelay(now, s.size)
  }

  /** The slice of the image a segment carries: up to 96 bytes from 96 times its index on, modulo 2^32. */
  function DataOnAir(s: Server, image: Option<seq<byte>>): seq<byte>
    requires s.mode.Running?
    requires s.mode.phase == SegmentPhase ==> image.Some? && s.next * 96 % 0x1_0000_0000 < s.size <= |image.value|
  {
    if s.mode.phase != SegmentPhase then []
    else
      var start := s.next * 96 % 0x1_0000_0000;
      image.value[start..if start + 96 < s.size then start + 96 else s.size]
  }

  /** An expiry that hands a frame to the stack, addressed to the target and told byte by byte. */
  lemma FrameOnAir(s: Server, e: Event, b0: byte, b1: byte, b2: byte, b3: byte)
    requires Sane(s) && Armed(s, e, Interval)
    requires s.mode.phase == SegmentPhase ==>
               e.image.Some? && s.next * 96 % 0x1_0000_0000 < s.size <= |e.image.value|
    requires WordOnAir(s, e.now) == LittleEndian(b0, b1, b2, b3)
    ensures var frame := [FirstByte(s.mode.phase), s.tag, b0, b1, b2, b3] + DataOnAir(s, e.image);
            Step(s, e).outputs != [] && Step(s, e).outputs[0] == Submitted(s.target, frame, e.submit)
    ensures e.submit ==>
              |Step(s, e).outputs| == 1 &&
              Step(s, e).server == s.(mode := Running(s.mode.phase, Pending), timer := false,
                                      sent := if s.mode.phase == SegmentPhase then s.next else s.sent)
  {
    var data := DataOnAir(s, e.image);
    if s.mode.phase == SegmentPhase {
      SegmentAt(s, e.image.value);
    }
    RequestBytes(s.tag, b0, b1, b2, b3, data);
    assert [FirstByte(s.mode.phase), s.tag, b0, b1, b2, b3] + []
        == [FirstByte(s.mode.phase), s.tag, b0, b1, b2, b3];
    Expired(s, e, data);
  }

  lemma SegmentAt(s: Server, image: seq<byte>)
    requires Sane(s) && s.mode == Running(SegmentPhase, Interval)
    requires s.next * 96 % 0x1_0000_0000 < s.size <= |image|
    ensures CopyFits(s.next, s.size, |image|) && SegmentData(image, s.next, s.size) == DataOnAir(s, Some(image))
  {
    WindowInsideImage(s.next, s.size);
  }

  lemma Expired(s: Server, e: Event, data: seq<byte>)
    requires Sane(s) && Armed(s, e, Interval)
    requires s.mode.phase == SegmentPhase ==>
               e.image.Some? && CopyFits(s.next, s.size, |e.image.value|) &&
               data == SegmentData(e.image.value, s.next, s.size)
    ensures var request := match s.mode.phase
                           case HandshakePhase => Handshake(s.tag, WordOnAir(s, e.now))
                           case SegmentPhase => ImageSegment(s.tag, WordOnAir(s, e.now), data)
                           case BootloadPhase => BootloadRequest(s.tag, WordOnAir(s, e.now));
            Step(s, e) == Transmit(s.(timer := false), request, e.submit)
  {
  }

  /**
   * The sent callback of a submitted frame, known by the command in its first byte, is the one the
   * server awaits; a delivered frame makes it wait for the response, with the timer armed.
   */
  lemma SentAwaited(s: Server, command: byte, status: SendStatus)
    requires Sane(s) && s.mode.Running? && s.mode.stage == Pending
    ensures var o := Step(s, MessageSent(13, command, status));
            (command != FirstByte(s.mode.phase) % 16 ==> o == Outcome(s, [])) &&
            (command == FirstByte(s.mode.phase) % 16 && status == Delivered ==>
               o == Outcome(s.(mode := Running(s.mode.phase, Waiting), stackErrors := 0, timer := true), [])) &&
            (command == FirstByte(s.mode.phase) % 16 && status == NoAck && s.targetErrors < 3 ==>
               o == Outcome(s.(mode := Running(s.mode.phase, Interval), stackErrors := 0,
                               targetErrors := s.targetErrors + 1, timer := true), [])) &&
            (command == FirstByte(s.mode.phase) % 16 && status == StackFailure && s.stackErrors < 7 ==>
               o == Outcome(s.(mode := Running(s.mode.phase, Interval), stackErrors := s.stackErrors + 1,
                               timer := true), []))
  {
  }
}

/**
 * The OTA unicast bootloader server as a transition function over values.
 *
 * The three phases share one retry rule here. The source spells that rule out separately for
 * each internal state; module OtaServer follows the source and is proved to refine this model.
 */
module OtaServerModel {
  import opened ByteUtilities
  import opened OtaProtocol

  const MAX_SEGMENT_PAYLOAD_LENGTH := 96
  const MAXIMUM_IMAGE_SIZE := 0xFFFE * MAX_SEGMENT_PAYLOAD_LENGTH
  const MAX_STACK_ERRORS := 8
  const MAX_UNICAST_ERRORS := 4
  const SERVER_ENDPOINT: byte := 13
  const NULL_NODE_ID: u16 := 0xFFFF
  const WRAP := 0x1_0000_0000
  const HALF_WRAP := 0x8000_0000

  datatype Phase = HandshakePhase | SegmentPhase | BootloadPhase
  datatype Stage = Interval | Pending | Waiting

  /** Faulted: a segment was copied from outside the image, where the source's behaviour is undefined. */
  datatype Mode = Idle | Running(phase: Phase, stage: Stage) | Faulted

  datatype Status = Success | InvalidCall | Busy | DataUnderflow | StackError | Failed | Aborted | Refused | Unreachable
  datatype Kind = Distribution | Bootload

  /** What the sent callback reports: acknowledged, sent without acknowledgement, or not sent. */
  datatype SendStatus = Delivered | NoAck | StackFailure

  datatype Output =
    | Submitted(to: u16, frame: seq<byte>, accepted: bool)
    | Completed(kind: Kind, status: Status)

  datatype Server = Server(
    mode: Mode, target: u16,
    /** Image size in bytes, or the tick at which to bootload. */
    size: u32,
    tag: byte,
    next: u32, sent: u32,
    stackErrors: byte, targetErrors: byte,
    timer: bool)

  datatype Outcome = Outcome(server: Server, outputs: seq<Output>)

  /** The receive buffer a message is delivered in is longer than any frame header. */
  type Buffer = p: seq<byte> | |p| >= 7 witness [0, 0, 0, 0, 0, 0, 0]

  datatype Event =
    | StartDistribution(target: u16, imageSize: u32, imageTag: byte)
    | StartBootload(delay: u32, imageTag: byte, target: u16, now: u32)
    | AbortCall
    | TimerExpired(submit: bool, now: u32, image: Option<seq<byte>>)
    | MessageSent(endpoint: byte, command: byte, status: SendStatus)
    | IncomingMessage(endpoint: byte, secured: bool, source: u16, payload: Buffer, length: u16)

  const PowerOn := Server(Idle, NULL_NODE_ID, 0, 0, 0, 0, 0, 0, false)

  function KindOf(phase: Phase): Kind {
    if phase == BootloadPhase then Bootload else Distribution
  }

  function RequestCommand(phase: Phase): byte {
    match phase
    case HandshakePhase => CMD_HANDSHAKE
    case SegmentPhase => CMD_IMAGE_SEGMENT
    case BootloadPhase => CMD_BOOTLOAD_REQUEST
  }

  // ---- Segmentation and time arithmetic, in 32 bits ----

  function TotalSegments(size: u32): u32 {
    size / MAX_SEGMENT_PAYLOAD_LENGTH + if size % MAX_SEGMENT_PAYLOAD_LENGTH > 0 then 1 else 0
  }

  function WindowStart(next: u32): u32 {
    next * MAX_SEGMENT_PAYLOAD_LENGTH % WRAP
  }

  /** Index of the last byte of the segment, cut at the last byte of the image. */
  function WindowEnd(next: u32, size: u32): u32
    requires size > 0
  {
    var end := (WindowStart(next) as int + MAX_SEGMENT_PAYLOAD_LENGTH - 1) % WRAP;
    if end >= size then size - 1 else end
  }

  /** A window that starts before it ends never exceeds one segment, even after 32-bit wrap-around. */
  lemma WindowAtMostOneSegment(next: u32, size: u32)
    requires size > 0 && WindowStart(next) <= WindowEnd(next, size)
    ensures WindowEnd(next, size) - WindowStart(next) < MAX_SEGMENT_PAYLOAD_LENGTH
  {
    var end := WindowStart(next) as int + MAX_SEGMENT_PAYLOAD_LENGTH - 1;
    assert end % WRAP == if end < WRAP then end else end - WRAP;
  }

  /** Copying the window reads inside an image of this length. A window that starts where the image ends is empty. */
  predicate CopyFits(next: u32, size: u32, length: nat)
    requires size > 0
  {
    WindowStart(next) == size || WindowStart(next) <= WindowEnd(next, size) < length
  }

  /** The bytes a segment carries. */
  function SegmentData(image: seq<byte>, next: u32, size: u32): seq<byte>
    requires size > 0 && CopyFits(next, size, |image|)
  {
    if WindowStart(next) == size then [] else image[WindowStart(next)..WindowEnd(next, size) + 1]
  }

  function Elapsed(oldTime: u32, newTime: u32): u32 {
    (newTime as int - oldTime) % WRAP
  }

  /** timeGTorEqualInt32u. */
  predicate Reached(now: u32, deadline: u32) {
    Elapsed(deadline, now) <= HALF_WRAP
  }

  /** The delay a bootload request carries when it is built at tick `now`. */
  function RemainingDelay(now: u32, deadline: u32): u32 {
    if Reached(now, deadline) then 0 else Elapsed(now, deadline)
  }

  // ---- Transitions ----

  function Finish(s: Server, status: Status): Outcome
    requires s.mode.Running?
  {
    Outcome(s.(mode := Idle, timer := false), [Completed(KindOf(s.mode.phase), status)])
  }

  /** One more attempt, unless an error budget is spent. */
  function Retry(s: Server): Outcome
    requires s.mode.Running?
  {
    if s.stackErrors >= MAX_STACK_ERRORS then Finish(s, StackError)
    else if s.targetErrors >= MAX_UNICAST_ERRORS then Finish(s, Unreachable)
    else Outcome(s.(mode := Running(s.mode.phase, Interval), timer := true), [])
  }

  function Bump(errors: byte): byte {
    if errors == 0xFF then 0 else errors + 1
  }

  function WithOutput(o: Output, rest: Outcome): Outcome {
    Outcome(rest.server, [o] + rest.outputs)
  }

  /** Hand a frame to the stack: wait for its sent callback, or count a stack error and retry. */
  function Transmit(s: Server, request: Request, submit: bool): Outcome
    requires s.mode.Running?
  {
    var frame := EncodeRequest(request);
    if submit then
      Outcome(s.(mode := Running(s.mode.phase, Pending),
                 sent := if s.mode.phase == SegmentPhase then s.next else s.sent),
              [Submitted(s.target, frame, true)])
    else
      WithOutput(Submitted(s.target, frame, false), Retry(s.(stackErrors := Bump(s.stackErrors))))
  }

  function TransmitSegment(s: Server, submit: bool, image: Option<seq<byte>>): Outcome
    requires s.mode.Running? && s.mode.phase == SegmentPhase && s.size > 0
  {
    match image
    case None => Finish(s, DataUnderflow)
    case Some(bytes) =>
      if !CopyFits(s.next, s.size, |bytes|) then Outcome(s.(mode := Faulted), [])
      else Transmit(s, ImageSegment(s.tag, s.next, SegmentData(bytes, s.next, s.size)), submit)
  }

  function OnTimer(s: Server, submit: bool, now: u32, image: Option<seq<byte>>): Outcome
    requires Sane(s)
  {
    var quiet := s.(timer := false);
    match s.mode
    case Running(HandshakePhase, Interval) => Transmit(quiet, Handshake(s.tag, s.size), submit)
    case Running(SegmentPhase, Interval) => TransmitSegment(quiet, submit, image)
    case Running(BootloadPhase, Interval) =>
      Transmit(quiet, BootloadRequest(s.tag, RemainingDelay(now, s.size)), submit)
    case Running(_, Waiting) => Retry(quiet.(targetErrors := Bump(s.targetErrors)))
    case _ => Outcome(quiet, [])
  }

  function OnSent(s: Server, command: byte, status: SendStatus): Outcome {
    if s.mode.Running? && s.mode.stage == Pending && command == RequestCommand(s.mode.phase) then
      match status
      case Delivered => Outcome(s.(mode := Running(s.mode.phase, Waiting), stackErrors := 0, timer := true), [])
      case NoAck => Retry(s.(targetErrors := Bump(s.targetErrors), stackErrors := 0))
      case StackFailure => Retry(s.(stackErrors := Bump(s.stackErrors)))
    else Outcome(s, [])
  }

  function OnHandshakeResponse(s: Server, status: byte, start: u32): Outcome
    requires s.mode.Running?
  {
    if status == RESP_REFUSED then Finish(s, Refused)
    else if status == RESP_ONGOING then
      Retry(s.(mode := Running(SegmentPhase, Interval), next := start, targetErrors := 0))
    else Finish(s, Failed)
  }

  function OnSegmentResponse(s: Server, status: byte, index: u32): Outcome
    requires s.mode.Running? && s.mode.phase == SegmentPhase
  {
    var w := s.(mode := Running(SegmentPhase, Waiting));
    if status == RESP_OUT_OF_SEQ then Finish(w, Failed)
    else if status == RESP_REFUSED then Finish(w, Refused)
    else if status == RESP_ONGOING then
      if index != s.sent then Finish(w, Failed)
      else if s.next < TotalSegments(s.size) then Retry(w.(targetErrors := 0, next := s.next + 1))
      else Outcome(w.(next := 0, stackErrors := 0, targetErrors := 0, timer := false), [])
    else if status == RESP_COMPLETED then Finish(w, Success)
    else Outcome(w, [])
  }

  function OnBootloadResponse(s: Server, status: byte): Outcome
    requires s.mode.Running?
  {
    Finish(s, if status == RESP_COMPLETED then Success else if status == RESP_REFUSED then Refused else Failed)
  }

  /** The response a message is taken for in the current mode, if it is not discarded. */
  predicate AcceptsMessage(s: Server, e: Event)
    requires e.IncomingMessage?
  {
    e.endpoint == SERVER_ENDPOINT && e.secured && e.source == s.target && s.mode.Running? &&
    var tagged := e.payload[TAG_OFFSET] == s.tag;
    var command := CommandId(e.payload);
    match s.mode.phase
    case HandshakePhase =>
      s.mode.stage == Waiting && tagged && (command == CMD_HANDSHAKE_RESPONSE || command == CMD_EXT_HANDSHAKE_RESPONSE)
    case SegmentPhase => s.mode.stage != Interval && tagged && command == CMD_IMAGE_SEGMENT_RESPONSE
    case BootloadPhase =>
      s.mode.stage == Waiting && command == CMD_BOOTLOAD_RESPONSE && e.length == BOOTLOAD_RESP_HEADER_LENGTH
  }

  /** Only the extended handshake response names a first segment; the short one means zero. */
  function StartSegment(payload: Buffer): u32 {
    if CommandId(payload) == CMD_EXT_HANDSHAKE_RESPONSE then WordField(payload) else 0
  }

  function OnIncoming(s: Server, e: Event): Outcome
    requires e.IncomingMessage?
  {
    if !AcceptsMessage(s, e) then Outcome(s, [])
    else
      var status := ResponseStatus(e.payload);
      match s.mode.phase
      case HandshakePhase => OnHandshakeResponse(s, status, StartSegment(e.payload))
      case SegmentPhase => OnSegmentResponse(s, status, WordField(e.payload))
      case BootloadPhase => OnBootloadResponse(s, status)
  }

  predicate AcceptsDistribution(s: Server, target: u16, size: u32) {
    s.mode == Idle && target != NULL_NODE_ID && 0 < size <= MAXIMUM_IMAGE_SIZE
  }

  predicate AcceptsBootload(s: Server, target: u16) {
    s.mode == Idle && target != NULL_NODE_ID
  }

  /** What the two initiate calls return. */
  function StartReply(s: Server, accepted: bool): Status {
    if s.mode != Idle then Busy else if accepted then Success else InvalidCall
  }

  function OnStartDistribution(s: Server, target: u16, size: u32, tag: byte): Server {
    if AcceptsDistribution(s, target, size) then
      Server(Running(HandshakePhase, Interval), target, size, tag, 0, s.sent, 0, 0, true)
    else s
  }

  function OnStartBootload(s: Server, delay: u32, tag: byte, target: u16, now: u32): Server {
    if AcceptsBootload(s, target) then
      Server(Running(BootloadPhase, Interval), target, (now as int + delay) % WRAP, tag, 0, s.sent, 0, 0, true)
    else s
  }

  /** Abort knows the segment and bootload phases only. */
  predicate Abortable(s: Server) {
    s.mode.Running? && s.mode.phase != HandshakePhase
  }

  function OnAbort(s: Server): Outcome {
    if Abortable(s) then Finish(s, Aborted) else Outcome(s, [])
  }

  /** What holds of the server whatever its environment does. */
  predicate Sane(s: Server) {
    s.mode.Running? ==>
      s.stackErrors < MAX_STACK_ERRORS && s.targetErrors < MAX_UNICAST_ERRORS &&
      (s.mode.phase != BootloadPhase ==> 0 < s.size <= MAXIMUM_IMAGE_SIZE)
  }

  /** One atomic step. The timer event is inert while the timer is not armed. */
  function Step(s: Server, e: Event): (o: Outcome)
    requires Sane(s)
    ensures Sane(o.server)
  {
    match e
    case StartDistribution(target, size, tag) => Outcome(OnStartDistribution(s, target, size, tag), [])
    case StartBootload(delay, tag, target, now) => Outcome(OnStartBootload(s, delay, tag, target, now), [])
    case AbortCall => OnAbort(s)
    case TimerExpired(submit, now, image) => if s.timer then OnTimer(s, submit, now, image) else Outcome(s, [])
    case MessageSent(endpoint, command, status) =>
      if endpoint == SERVER_ENDPOINT then OnSent(s, command, status) else Outcome(s, [])
    case IncomingMessage(_, _, _, _, _) => OnIncoming(s, e)
  }

  // ---- Runs ----

  /** The server and all its outputs after a sequence of events from `s`. */
  function Run(s: Server, events: seq<Event>): (o: Outcome)
    requires Sane(s)
    ensures Sane(o.server)
  {
    if events == [] then Outcome(s, [])
    else
      var before := Run(s, events[..|events| - 1]);
      var last := Step(before.server, events[|events| - 1]);
      Outcome(last.server, before.outputs + last.outputs)
  }

  lemma RunSnoc(s: Server, events: seq<Event>, e: Event)
    requires Sane(s)
    ensures Run(s, events + [e]) ==
            var before := Run(s, events);
            var last := Step(before.server, e);
            Outcome(last.server, before.outputs + last.outputs)
  {
    assert (events + [e])[..|events|] == events;
  }

  // ---- The inner loop: the handler runs again at once while it keeps the event armed ----

  /** Handler calls that can still follow without any callback in between. */
  function HandlerBudget(s: Server): nat {
    if !s.timer then 0
    else match s.mode
      case Running(_, Interval) => if s.stackErrors < MAX_STACK_ERRORS then MAX_STACK_ERRORS - s.stackErrors else 1
      case Running(_, Waiting) => if s.stackErrors < MAX_STACK_ERRORS then 1 + MAX_STACK_ERRORS - s.stackErrors else 1
      case _ => 1
  }

  /** Nothing left for the handler to do: finished, or waiting for a sent callback. */
  predicate Settled(s: Server) {
    s.mode == Idle || s.mode == Faulted || s.mode.stage == Pending
  }

  /** Every handler call that leaves the event armed has spent part of an error budget. */
  lemma HandlerCallSpendsBudget(s: Server, submit: bool, now: u32, image: Option<seq<byte>>)
    requires Sane(s) && s.timer
    ensures HandlerBudget(OnTimer(s, submit, now, image).server) < HandlerBudget(s) <= 9
    ensures var t := OnTimer(s, submit, now, image).server;
            (!t.timer ==> Settled(t)) && (t.mode == Faulted ==> !t.timer)
  {
  }
}

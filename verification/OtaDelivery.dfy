/**
 * One image distribution between the server and a target over a network that may drop, delay,
 * duplicate and reorder every message of the run: messages are kept in sets, and any message ever
 * sent may be delivered at any time, any number of times.
 */
module OtaDelivery {
  import opened ByteUtilities
  import opened OtaProtocol
  import opened OtaServerModel
  import opened OtaServerProperties

  /** What the run distributes, and to whom. */
  datatype Job = Job(target: u16, tag: byte, image: seq<byte>, size: u32)

  predicate ValidJob(job: Job) {
    job.target != NULL_NODE_ID && 0 < job.size <= MAXIMUM_IMAGE_SIZE && job.size <= |job.image|
  }

  datatype System = System(
    server: Server,
    toTarget: set<seq<byte>>,
    toServer: set<Response>,
    /** Segments the target has stored in this run. */
    flash: map<nat, seq<byte>>,
    /** The first segment negotiated in the handshake. */
    start: Option<nat>,
    /** Segments the server has taken as acknowledged, in order. */
    acknowledged: seq<nat>,
    /** Whether the server has reported success. */
    succeeded: bool)

  datatype Action =
    | ServerActs(e: Event)
    | ServerReceives(r: Response, junk: seq<byte>)
    | TargetStores(frame: seq<byte>)
    | TargetAnswers(r: Response)

  /** Segment `i` of the image. */
  function Piece(job: Job, i: nat): seq<byte>
    requires ValidJob(job) && i < TotalSegments(job.size)
  {
    job.image[i * MAX_SEGMENT_PAYLOAD_LENGTH..PieceEnd(job, i)]
  }

  function PieceEnd(job: Job, i: nat): nat
    requires ValidJob(job) && i < TotalSegments(job.size)
    ensures i * MAX_SEGMENT_PAYLOAD_LENGTH < PieceEnd(job, i) <= job.size
    ensures PieceEnd(job, i) <= (i + 1) * MAX_SEGMENT_PAYLOAD_LENGTH
  {
    if i + 1 < TotalSegments(job.size) then (i + 1) * MAX_SEGMENT_PAYLOAD_LENGTH else job.size
  }

  /**
   * What a well-behaved target promises when it answers: it resumes inside the image, it lets the
   * server go on past a segment only once it has stored it, never past the last, and it declares
   * the image complete only once it has stored the last segment. Answers under another tag are free.
   */
  predicate Promise(job: Job, flash: map<nat, seq<byte>>, r: Response) {
    ValidResponse(r) &&
    (r.tag == job.tag ==>
      (r.ExtHandshakeResponse? && r.status == RESP_ONGOING ==> r.start < TotalSegments(job.size)) &&
      (r.SegmentResponse? ==>
        r.status in {RESP_COMPLETED, RESP_ONGOING, RESP_REFUSED, RESP_OUT_OF_SEQ} &&
        (r.status == RESP_ONGOING ==> r.index in flash && r.index + 1 < TotalSegments(job.size)) &&
        (r.status == RESP_COMPLETED ==> TotalSegments(job.size) - 1 in flash)))
  }

  /** A response as the server's callback receives it: the frame, then whatever the buffer held. */
  function Received(job: Job, r: Response, junk: seq<byte>): Event
    requires ValidResponse(r) && |junk| >= 7
  {
    IncomingMessage(SERVER_ENDPOINT, true, job.target, EncodeResponse(r) + junk, |EncodeResponse(r)|)
  }

  predicate Enabled(job: Job, sys: System, a: Action) {
    match a
    case ServerActs(e) =>
      // The application offers the image or refuses; the target's messages come from ServerReceives only.
      !Starts(e) && (e.TimerExpired? ==> e.image in {None, Some(job.image)}) &&
      (e.IncomingMessage? ==> !(e.endpoint == SERVER_ENDPOINT && e.secured && e.source == job.target))
    case ServerReceives(r, junk) => r in sys.toServer && |junk| >= 7 && ValidResponse(r)
    case TargetStores(frame) =>
      frame in sys.toTarget && ParseRequest(frame).Some? && ParseRequest(frame).value.ImageSegment?
    case TargetAnswers(r) => Promise(job, sys.flash, r)
  }

  function Sent(outputs: seq<Output>): set<seq<byte>> {
    set o | o in outputs && o.Submitted? && o.accepted :: o.frame
  }

  predicate InSegmentPhase(s: Server) {
    s.mode.Running? && s.mode.phase == SegmentPhase
  }

  /** The first segment a response agrees to, given that the server waits for that. */
  function Agreement(s: Server, r: Response): Option<nat> {
    if s.mode != Running(HandshakePhase, Waiting) || r.tag != s.tag || r.status != RESP_ONGOING then None
    else
      match r
      case HandshakeResponse(_, _, _) => Some(0)
      case ExtHandshakeResponse(_, _, start) => Some(start)
      case _ => None
  }

  /** The server's step; `start` is the first segment negotiated by then. */
  function AfterServer(sys: System, e: Event, start: Option<nat>): System
    requires Sane(sys.server)
  {
    var s, o := sys.server, Step(sys.server, e);
    sys.(server := o.server,
         toTarget := sys.toTarget + Sent(o.outputs),
         start := start,
         acknowledged :=
           if InSegmentPhase(o.server) && InSegmentPhase(s) && o.server.next != s.next then sys.acknowledged + [s.next]
           else sys.acknowledged,
         succeeded := sys.succeeded || Completed(Distribution, Success) in o.outputs)
  }

  /** The first segment is the one the target has agreed to in the response received. */
  function StartAfter(sys: System, r: Response): Option<nat> {
    if Agreement(sys.server, r).Some? then Agreement(sys.server, r) else sys.start
  }

  function Apply(job: Job, sys: System, a: Action): System
    requires Sane(sys.server) && Enabled(job, sys, a)
  {
    match a
    case ServerActs(e) => AfterServer(sys, e, sys.start)
    case ServerReceives(r, junk) => AfterServer(sys, Received(job, r, junk), StartAfter(sys, r))
    case TargetStores(frame) =>
      var segment := ParseRequest(frame).value;
      sys.(flash := sys.flash[segment.index as nat := segment.data])
    case TargetAnswers(r) => sys.(toServer := sys.toServer + {r})
  }

  function Initial(job: Job): System
    requires ValidJob(job)
  {
    System(OnStartDistribution(PowerOn, job.target, job.size, job.tag), {}, {}, map[], None, [], false)
  }

  // ---- Invariant ----

  /** Segments [from, to) are on the target, each with its own bytes. */
  predicate Stored(job: Job, flash: map<nat, seq<byte>>, from: nat, to: nat)
    requires ValidJob(job) && to <= TotalSegments(job.size)
  {
    forall j: nat :: from <= j < to ==> j in flash && flash[j] == Piece(job, j)
  }

  /** A segment frame in flight carries its own piece and was sent only after all before it were stored. */
  predicate GoodFrame(job: Job, sys: System, frame: seq<byte>)
    requires ValidJob(job)
  {
    var request := ParseRequest(frame);
    request.Some? && request.value.ImageSegment? ==>
      var i := request.value.index;
      request.value.tag == job.tag && i < TotalSegments(job.size) && request.value.data == Piece(job, i) &&
      sys.start.Some? && sys.start.value <= i && Stored(job, sys.flash, sys.start.value, i)
  }

  predicate GoodFlash(job: Job, sys: System)
    requires ValidJob(job)
  {
    forall i: nat :: i in sys.flash ==>
      i < TotalSegments(job.size) && sys.start.Some? && sys.start.value <= i &&
      Stored(job, sys.flash, sys.start.value, i + 1)
  }

  predicate GoodServer(job: Job, sys: System)
    requires ValidJob(job)
  {
    var s := sys.server;
    Orderly(s) && s.target == job.target &&
    (s.mode.Running? ==> s.mode.phase != BootloadPhase && s.size == job.size && s.tag == job.tag) &&
    (s.mode.Running? && s.mode.phase == HandshakePhase ==> sys.start == None && sys.acknowledged == []) &&
    (InSegmentPhase(s) ==>
      sys.start.Some? && sys.start.value <= s.next && Stored(job, sys.flash, sys.start.value, s.next) &&
      |sys.acknowledged| == s.next - sys.start.value &&
      forall i :: 0 <= i < |sys.acknowledged| ==> sys.acknowledged[i] == sys.start.value + i)
  }

  predicate Inv(job: Job, sys: System) {
    ValidJob(job) && GoodServer(job, sys) && GoodFlash(job, sys) &&
    (sys.start.Some? ==> sys.start.value < TotalSegments(job.size)) &&
    (forall f :: f in sys.toTarget ==> GoodFrame(job, sys, f)) &&
    (forall r :: r in sys.toServer ==> Promise(job, sys.flash, r)) &&
    (sys.succeeded ==> sys.start.Some? && Stored(job, sys.flash, sys.start.value, TotalSegments(job.size)))
  }

  // ---- Preservation ----

  lemma InitialInv(job: Job)
    requires ValidJob(job)
    ensures Inv(job, Initial(job))
  {
  }

  /** What the server sends in the segment phase is its current piece, under its current index. */
  lemma SegmentSent(job: Job, s: Server, submit: bool, now: u32, f: seq<byte>)
    requires ValidJob(job) && Orderly(s) && InSegmentPhase(s) && s.size == job.size && s.tag == job.tag
    requires f in Sent(Step(s, TimerExpired(submit, now, Some(job.image))).outputs)
    ensures ParseRequest(f) == Some(ImageSegment(job.tag, s.next, Piece(job, s.next)))
  {
    WindowInRange(s.next, s.size);
    RequestRoundTrip(ImageSegment(job.tag, s.next, Piece(job, s.next)));
  }

  /** Only an expiry submits frames, and outside the segment phase they are not segments. */
  lemma OnlySegmentsPhaseSendsSegments(s: Server, e: Event, f: seq<byte>)
    requires Orderly(s) && !Starts(e) && f in Sent(Step(s, e).outputs)
    ensures e.TimerExpired? && s.mode.Running?
    ensures !InSegmentPhase(s) ==> ParseRequest(f).Some? && !ParseRequest(f).value.ImageSegment?
    ensures InSegmentPhase(s) ==> e.image.Some?
  {
    if s.mode.Running? && s.mode.phase == HandshakePhase {
      RequestRoundTrip(Handshake(s.tag, s.size));
    }
    if e.TimerExpired? && s.mode.Running? && s.mode.phase == BootloadPhase {
      RequestRoundTrip(BootloadRequest(s.tag, RemainingDelay(e.now, s.size)));
    }
  }

  /** How one event can move a server that distributes an image. */
  lemma ServerMoves(s: Server, e: Event)
    requires Orderly(s) && Fair(s, e) && !Starts(e) && s.mode.Running? && s.mode.phase != BootloadPhase
    ensures var t := Step(s, e).server;
            t.target == s.target &&
            (t.mode.Running? ==> t.mode.phase != BootloadPhase && t.size == s.size && t.tag == s.tag) &&
            (t.mode.Running? && t.mode.phase == HandshakePhase ==> s.mode.phase == HandshakePhase) &&
            (InSegmentPhase(t) && InSegmentPhase(s) && t.next != s.next ==>
              t.next == s.next + 1 && e.IncomingMessage? && AcceptsMessage(s, e) &&
              ResponseStatus(e.payload) == RESP_ONGOING && WordField(e.payload) == s.next)
  {
  }

  lemma SuccessMeansCompleted(s: Server, e: Event)
    requires Orderly(s) && !Starts(e) && Completed(Distribution, Success) in Step(s, e).outputs
    ensures InSegmentPhase(s) && e.IncomingMessage? && AcceptsMessage(s, e) &&
            ResponseStatus(e.payload) == RESP_COMPLETED
  {
  }

  /** A response the server accepts in the segment phase is a segment response, read field by field. */
  lemma AcceptedResponse(job: Job, s: Server, r: Response, junk: seq<byte>)
    requires ValidResponse(r) && |junk| >= 7 && s.mode.Running? && AcceptsMessage(s, Received(job, r, junk))
    ensures var payload := Received(job, r, junk).payload;
            ResponseStatus(payload) == r.status &&
            (s.mode.phase != BootloadPhase ==> r.tag == s.tag) &&
            (s.mode.phase == HandshakePhase ==>
              StartSegment(payload) == if r.ExtHandshakeResponse? then r.start else 0) &&
            (s.mode.phase == SegmentPhase ==> r.SegmentResponse? && WordField(payload) == r.index)
  {
    ResponseRoundTrip(r, EncodeResponse(r) + junk);
  }

  /** Whatever a well-behaved target has answered is fair to the server, whenever it arrives. */
  lemma ReceivedIsFair(job: Job, sys: System, r: Response, junk: seq<byte>)
    requires Inv(job, sys) && r in sys.toServer && |junk| >= 7 && ValidResponse(r)
    ensures Fair(sys.server, Received(job, r, junk))
  {
    var s := sys.server;
    if s.mode.Running? && AcceptsMessage(s, Received(job, r, junk)) {
      AcceptedResponse(job, s, r, junk);
    }
  }

  /** New frames carry the current piece, all pieces before it being stored. */
  lemma NewFramesGood(job: Job, sys: System, e: Event)
    requires Inv(job, sys) && !Starts(e) && (e.TimerExpired? ==> e.image in {None, Some(job.image)})
    ensures forall f :: f in Sent(Step(sys.server, e).outputs) ==> GoodFrame(job, sys, f)
  {
    var s := sys.server;
    forall f | f in Sent(Step(s, e).outputs)
      ensures GoodFrame(job, sys, f)
    {
      OnlySegmentsPhaseSendsSegments(s, e, f);
      if InSegmentPhase(s) {
        SegmentSent(job, s, e.submit, e.now, f);
      }
    }
  }

  /** The event gave the server no news about segments, or news the target's flash bears out. */
  predicate Honest(job: Job, sys: System, e: Event)
    requires ValidJob(job)
  {
    e.IncomingMessage? && InSegmentPhase(sys.server) && AcceptsMessage(sys.server, e) ==>
      (ResponseStatus(e.payload) == RESP_ONGOING ==> WordField(e.payload) as nat in sys.flash) &&
      (ResponseStatus(e.payload) == RESP_COMPLETED ==> TotalSegments(job.size) - 1 in sys.flash)
  }

  /** The server goes by what was negotiated: it enters the segment phase at `start`, or there is no news. */
  predicate GoesBy(sys: System, e: Event, start: Option<nat>)
    requires Sane(sys.server)
  {
    var s, t := sys.server, Step(sys.server, e).server;
    start == if InSegmentPhase(t) && !InSegmentPhase(s) then Some(t.next) else sys.start
  }

  /**
   * An agreement is accepted, in either form of the handshake response, and the server goes on at the
   * segment agreed to: the one an extended response names, or the first.
   */
  lemma ResumesWhereAgreed(job: Job, s: Server, r: Response, junk: seq<byte>)
    requires Sane(s) && s.mode == Running(HandshakePhase, Waiting) && s.target == job.target
    requires ValidResponse(r) && |junk| >= 7 && r.tag == s.tag && r.status == RESP_ONGOING
    requires r.HandshakeResponse? || r.ExtHandshakeResponse?
    ensures var t := Step(s, Received(job, r, junk)).server;
            AcceptsMessage(s, Received(job, r, junk)) && t.mode == Running(SegmentPhase, Interval) && t.timer &&
            t.next == if r.ExtHandshakeResponse? then r.start else 0
  {
    ResponseRoundTrip(r, EncodeResponse(r) + junk);
  }

  /** No other message makes it enter the segment phase. */
  lemma EntersOnlyOnAgreement(job: Job, s: Server, r: Response, junk: seq<byte>)
    requires Sane(s) && ValidResponse(r) && |junk| >= 7 && !InSegmentPhase(s)
    requires InSegmentPhase(Step(s, Received(job, r, junk)).server)
    ensures Agreement(s, r).Some?
  {
    ResponseRoundTrip(r, EncodeResponse(r) + junk);
  }

  lemma ReceivedAgrees(job: Job, sys: System, r: Response, junk: seq<byte>)
    requires Inv(job, sys) && ValidResponse(r) && |junk| >= 7
    ensures GoesBy(sys, Received(job, r, junk), StartAfter(sys, r))
  {
    var s := sys.server;
    if Agreement(s, r).Some? {
      ResumesWhereAgreed(job, s, r, junk);
    } else if !InSegmentPhase(s) && InSegmentPhase(Step(s, Received(job, r, junk)).server) {
      EntersOnlyOnAgreement(job, s, r, junk);
    }
  }

  lemma ActsAgrees(job: Job, sys: System, e: Event)
    requires Inv(job, sys) && Enabled(job, sys, ServerActs(e))
    ensures GoesBy(sys, e, sys.start)
  {
  }

  lemma ServerKeepsGood(job: Job, sys: System, e: Event, start: Option<nat>)
    requires Inv(job, sys) && Fair(sys.server, e) && !Starts(e) && Honest(job, sys, e) && GoesBy(sys, e, start)
    ensures GoodServer(job, AfterServer(sys, e, start))
  {
    var s, t := sys.server, Step(sys.server, e).server;
    OrderlyStep(s, e);
    if s.mode.Running? {
      ServerMoves(s, e);
      if InSegmentPhase(s) && InSegmentPhase(t) && t.next != s.next {
        assert Stored(job, sys.flash, sys.start.value, s.next + 1);
      }
    } else {
      assert t.mode == Idle && t.target == s.target;
    }
  }

  /** Once negotiated, the first segment never changes; and success is only reported when all is stored. */
  lemma ServerKeepsStart(job: Job, sys: System, e: Event, start: Option<nat>)
    requires Inv(job, sys) && Fair(sys.server, e) && !Starts(e) && Honest(job, sys, e) && GoesBy(sys, e, start)
    ensures var sys' := AfterServer(sys, e, start);
            (sys.start.Some? ==> sys'.start == sys.start) &&
            (sys'.start.Some? ==> sys'.start.value < TotalSegments(job.size)) &&
            (sys'.succeeded ==> sys'.start.Some? && Stored(job, sys'.flash, sys'.start.value, TotalSegments(job.size)))
  {
    var s := sys.server;
    OrderlyStep(s, e);
    if s.mode.Running? {
      ServerMoves(s, e);
    }
    if Completed(Distribution, Success) in Step(s, e).outputs {
      SuccessMeansCompleted(s, e);
    }
  }

  lemma ServerKeepsInv(job: Job, sys: System, e: Event, start: Option<nat>)
    requires Inv(job, sys) && Fair(sys.server, e) && !Starts(e) && Honest(job, sys, e) && GoesBy(sys, e, start)
    requires e.TimerExpired? ==> e.image in {None, Some(job.image)}
    ensures Inv(job, AfterServer(sys, e, start))
  {
    ServerKeepsGood(job, sys, e, start);
    ServerKeepsStart(job, sys, e, start);
    NewFramesGood(job, sys, e);
    var sys' := AfterServer(sys, e, start);
    forall f | f in sys'.toTarget
      ensures GoodFrame(job, sys', f)
    {
      assert GoodFrame(job, sys, f);
    }
  }

  /** Storing a frame in flight changes no segment that is on the target already. */
  lemma StoreKeepsSegments(job: Job, sys: System, frame: seq<byte>)
    requires Inv(job, sys) && Enabled(job, sys, TargetStores(frame))
    ensures GoodFrame(job, sys, frame)
    ensures var flash := Apply(job, sys, TargetStores(frame)).flash;
            forall a: nat, b: nat :: b <= TotalSegments(job.size) && Stored(job, sys.flash, a, b) ==>
              Stored(job, flash, a, b)
  {
    assert GoodFrame(job, sys, frame);
    var flash := Apply(job, sys, TargetStores(frame)).flash;
    assert forall j: nat :: j in sys.flash ==> j in flash && flash[j] == Piece(job, j) by {
      assert forall j: nat :: j in sys.flash ==> Stored(job, sys.flash, sys.start.value, j + 1);
    }
  }

  lemma StoreKeepsInv(job: Job, sys: System, frame: seq<byte>)
    requires Inv(job, sys) && Enabled(job, sys, TargetStores(frame))
    ensures Inv(job, Apply(job, sys, TargetStores(frame)))
  {
    var i: nat := ParseRequest(frame).value.index;
    var sys' := Apply(job, sys, TargetStores(frame));
    StoreKeepsSegments(job, sys, frame);
    forall j: nat | j in sys'.flash
      ensures j < TotalSegments(job.size) && sys'.start.value <= j && Stored(job, sys'.flash, sys'.start.value, j + 1)
    {
      if j != i {
        assert Stored(job, sys.flash, sys.start.value, j + 1);
      }
    }
    forall f | f in sys'.toTarget
      ensures GoodFrame(job, sys', f)
    {
      assert GoodFrame(job, sys, f);
    }
    forall r | r in sys'.toServer
      ensures Promise(job, sys'.flash, r)
    {
      assert Promise(job, sys.flash, r);
    }
  }

  lemma ApplyKeepsInv(job: Job, sys: System, a: Action)
    requires Inv(job, sys) && Enabled(job, sys, a)
    ensures Inv(job, Apply(job, sys, a))
  {
    match a
    case ServerActs(e) =>
      ActsAgrees(job, sys, e);
      ServerKeepsInv(job, sys, e, sys.start);
    case ServerReceives(r, junk) =>
      ReceivedIsFair(job, sys, r, junk);
      if InSegmentPhase(sys.server) && AcceptsMessage(sys.server, Received(job, r, junk)) {
        AcceptedResponse(job, sys.server, r, junk);
      }
      ReceivedAgrees(job, sys, r, junk);
      ServerKeepsInv(job, sys, Received(job, r, junk), StartAfter(sys, r));
    case TargetStores(frame) =>
      StoreKeepsInv(job, sys, frame);
    case TargetAnswers(r) =>
  }

  // ---- Every run ----

  /** The actions can be taken one after the other from the start of the distribution. */
  predicate Possible(job: Job, actions: seq<Action>)
    requires ValidJob(job)
    decreases |actions|, 0
  {
    actions == [] ||
    (Possible(job, actions[..|actions| - 1]) &&
     Enabled(job, After(job, actions[..|actions| - 1]), actions[|actions| - 1]))
  }

  function After(job: Job, actions: seq<Action>): (sys: System)
    requires ValidJob(job) && Possible(job, actions)
    ensures Inv(job, sys)
    decreases |actions|, 1
  {
    if actions == [] then
      InitialInv(job);
      Initial(job)
    else
      var before := After(job, actions[..|actions| - 1]);
      ApplyKeepsInv(job, before, actions[|actions| - 1]);
      Apply(job, before, actions[|actions| - 1])
  }

  /** The stored segments [from, to) put back together. */
  function Assembled(flash: map<nat, seq<byte>>, from: nat, to: nat): seq<byte>
    requires forall j: nat :: from <= j < to ==> j in flash
  {
    if from >= to then [] else Assembled(flash, from, to - 1) + flash[to - 1]
  }

  lemma {:induction false} AssembledIsImage(job: Job, flash: map<nat, seq<byte>>, from: nat, to: nat)
    requires ValidJob(job) && from < to <= TotalSegments(job.size) && Stored(job, flash, from, to)
    ensures Assembled(flash, from, to) == job.image[from * MAX_SEGMENT_PAYLOAD_LENGTH..PieceEnd(job, to - 1)]
  {
    var first, middle := from * MAX_SEGMENT_PAYLOAD_LENGTH, (to - 1) * MAX_SEGMENT_PAYLOAD_LENGTH;
    var last := PieceEnd(job, to - 1);
    assert flash[to - 1] == job.image[middle..last];
    if from < to - 1 {
      AssembledIsImage(job, flash, from, to - 1);
      Adjacent(job.image, first, middle, last);
    } else {
      assert Assembled(flash, from, to) == [] + flash[to - 1];
    }
  }

  lemma Adjacent<T>(s: seq<T>, a: nat, b: nat, c: nat)
    requires a <= b <= c <= |s|
    ensures s[a..b] + s[b..c] == s[a..c]
  {
  }

  /**
   * Stop-and-wait delivery: in every run, a server about to send segment `next` has every segment
   * from the negotiated one up to it stored at the target, and they make up that slice of the image.
   */
  lemma Delivery(job: Job, actions: seq<Action>)
    requires ValidJob(job) && Possible(job, actions) && InSegmentPhase(After(job, actions).server)
    ensures var sys := After(job, actions);
            sys.start.Some? && sys.start.value <= sys.server.next < TotalSegments(job.size) &&
            (forall j: nat :: sys.start.value <= j < sys.server.next ==> j in sys.flash) &&
            Assembled(sys.flash, sys.start.value, sys.server.next)
            == job.image[sys.start.value * MAX_SEGMENT_PAYLOAD_LENGTH..sys.server.next * MAX_SEGMENT_PAYLOAD_LENGTH]
  {
    var sys := After(job, actions);
    if sys.start.value < sys.server.next {
      AssembledIsImage(job, sys.flash, sys.start.value, sys.server.next);
    }
  }

  /** In every run, success is reported only when the target holds the whole rest of the image. */
  lemma SuccessMeansDelivered(job: Job, actions: seq<Action>)
    requires ValidJob(job) && Possible(job, actions) && After(job, actions).succeeded
    ensures var sys := After(job, actions);
            sys.start.Some? && sys.start.value < TotalSegments(job.size) &&
            (forall j: nat :: sys.start.value <= j < TotalSegments(job.size) ==> j in sys.flash) &&
            Assembled(sys.flash, sys.start.value, TotalSegments(job.size))
            == job.image[sys.start.value * MAX_SEGMENT_PAYLOAD_LENGTH..job.size]
  {
    var sys := After(job, actions);
    AssembledIsImage(job, sys.flash, sys.start.value, TotalSegments(job.size));
  }

  /** The acknowledged segments are consecutive from the negotiated one: none skipped, none taken twice. */
  lemma AcknowledgedInOrder(job: Job, actions: seq<Action>)
    requires ValidJob(job) && Possible(job, actions) && InSegmentPhase(After(job, actions).server)
    ensures var sys := After(job, actions);
            sys.start.Some? && sys.start.value <= sys.server.next &&
            sys.acknowledged == seq(sys.server.next - sys.start.value, i => sys.start.value + i)
  {
    var sys := After(job, actions);
    var expected := seq(sys.server.next - sys.start.value, i => sys.start.value + i);
    assert |sys.acknowledged| == |expected|;
    assert forall i :: 0 <= i < |expected| ==> sys.acknowledged[i] == expected[i];
  }

  /** Every segment frame ever sent has 1 to 96 image bytes, those of its own index, and at most 102 bytes in all. */
  lemma SegmentFrames(job: Job, actions: seq<Action>, f: seq<byte>)
    requires ValidJob(job) && Possible(job, actions) && f in After(job, actions).toTarget
    requires ParseRequest(f).Some? && ParseRequest(f).value.ImageSegment?
    ensures var segment := ParseRequest(f).value;
            segment.index < TotalSegments(job.size) && segment.data == Piece(job, segment.index) &&
            1 <= |segment.data| <= 96 && |f| == 6 + |segment.data| <= 102
  {
    assert GoodFrame(job, After(job, actions), f);
  }
}

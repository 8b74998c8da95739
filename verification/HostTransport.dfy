/**
 * The host side of the NCP link as interleaved atomic steps: application threads calling the API
 * under the command mutex, the poll thread, the callback thread, and the NCP at the other end of
 * two in-order message queues.
 */
module HostTransport {
  import opened ByteUtilities
  import opened EmberTypes
  import opened CallbackQueue

  const RESPONSE_BUFFER_SIZE := 4096
  /** First byte of every response, and of every indication. */
  const RESPONSE_ORIGIN: byte := 0x69
  const INDICATION_ORIGIN: byte := 0x63

  /** Serial numbers are labels for the proofs; only the bytes travel. */
  datatype Request = Request(serial: nat, bytes: seq<byte>)
  datatype Message = Response(serial: nat, bytes: seq<byte>) | Indication(bytes: seq<byte>)

  datatype Stage = Acquired | Prepared | Transmitted | Signalled | Copied
  datatype Call = Call(thread: nat, serial: nat, stage: Stage)

  /** What a finished call decodes from, beside the response the NCP gave to it. */
  datatype Result = Result(serial: nat, copied: seq<byte>, answer: Message, undisturbed: bool)

  datatype Host = Host(
    /** The holder of the command mutex and how far its command is. */
    call: Option<Call>,
    nextSerial: nat,
    apiCommandData: seq<byte>,
    length: nat,
    outbound: seq<Request>,
    atNcp: seq<Request>,
    inbound: seq<Message>,
    responseBuffer: seq<byte>,
    /** Read by the poll thread and not yet dispatched. */
    read: Option<Message>,
    tokens: nat,
    /** The response last read, and whether anything was read after it. */
    last: Option<Message>,
    disturbed: bool,
    pipe: seq<byte>,
    /** What the callback thread has read from the pipe and not yet dispatched. */
    chunk: seq<byte>,
    emitted: seq<seq<byte>>,
    dispatched: seq<seq<byte>>,
    results: seq<Result>,
    /** One of the fatal exits was taken. */
    dead: bool)

  datatype Action =
    | Acquire(thread: nat)
    | Prepare(bytes: seq<byte>)
    | Transmit
    | NcpTakes
    | NcpAnswers(bytes: seq<byte>)
    | NcpIndicates(bytes: seq<byte>)
    | PollReads
    | PollDispatches
    | ReadToken
    | CopyResponse
    | Release
    | StartDrain
    | DrainOne

  predicate InStage(h: Host, stage: Stage) {
    h.call.Some? && h.call.value.stage == stage
  }

  predicate ValidMessage(m: Message) {
    match m
    case Response(_, bytes) => 2 <= |bytes| <= RESPONSE_BUFFER_SIZE && bytes[0] == RESPONSE_ORIGIN
    case Indication(bytes) => 2 <= |bytes| && |bytes| + 2 <= PIPE_BUF && bytes[0] == INDICATION_ORIGIN
  }

  predicate Enabled(h: Host, a: Action) {
    match a
    case Acquire(_) => h.call == None
    case Prepare(bytes) => InStage(h, Acquired) && 2 <= |bytes| <= MAX_STACK_API_COMMAND_SIZE
    case Transmit => InStage(h, Prepared)
    case NcpTakes => h.outbound != []
    case NcpAnswers(bytes) => h.atNcp != [] && ValidMessage(Response(0, bytes))
    case NcpIndicates(bytes) => ValidMessage(Indication(bytes))
    case PollReads => h.read == None && h.inbound != []
    case PollDispatches =>
      h.read.Some? && (h.read.value.Indication? ==> |h.pipe| + 2 + |h.read.value.bytes| <= MAX_PIPE_QUEUE_SIZE)
    case ReadToken => InStage(h, Transmitted) && h.tokens > 0
    case CopyResponse => InStage(h, Signalled)
    case Release => InStage(h, Copied)
    case StartDrain => h.chunk == []
    case DrainOne => h.chunk != []
  }

  function At(h: Host, stage: Stage): Option<Call>
    requires h.call.Some?
  {
    Some(h.call.value.(stage := stage))
  }

  /** The poll thread's demultiplexer looks at the first byte only. */
  function Dispatch(h: Host): Host
    requires h.read.Some? && |h.read.value.bytes| <= |h.responseBuffer| && |h.responseBuffer| > 0
  {
    var length := |h.read.value.bytes|;
    var done := h.(read := None);
    if h.responseBuffer[0] == RESPONSE_ORIGIN then done.(tokens := h.tokens + 1)
    else if h.responseBuffer[0] == INDICATION_ORIGIN then
      done.(pipe := h.pipe + HighLow16(length % 0x1_0000) + h.responseBuffer[..length])
    else done.(dead := true)
  }

  function Apply(h: Host, a: Action): Host
    requires Buffered(h) && Enabled(h, a)
  {
    match a
    case Acquire(thread) => h.(call := Some(Call(thread, h.nextSerial, Acquired)), nextSerial := h.nextSerial + 1)
    case Prepare(bytes) =>
      h.(apiCommandData := Spliced(h.apiCommandData, 0, bytes), length := |bytes|, call := At(h, Prepared))
    case Transmit =>
      h.(outbound := h.outbound + [Request(h.call.value.serial, h.apiCommandData[..h.length])],
         call := At(h, Transmitted))
    case NcpTakes => h.(outbound := h.outbound[1..], atNcp := h.atNcp + [h.outbound[0]])
    case NcpAnswers(bytes) => h.(atNcp := h.atNcp[1..], inbound := h.inbound + [Response(h.atNcp[0].serial, bytes)])
    case NcpIndicates(bytes) => h.(inbound := h.inbound + [Indication(bytes)], emitted := h.emitted + [bytes])
    case PollReads =>
      var m := h.inbound[0];
      assert m in h.inbound;
      h.(inbound := h.inbound[1..], read := Some(m), responseBuffer := Spliced(h.responseBuffer, 0, m.bytes),
         last := if m.Response? then Some(m) else h.last, disturbed := !m.Response?)
    case PollDispatches => Dispatch(h)
    case ReadToken => h.(tokens := h.tokens - 1, call := At(h, Signalled))
    case CopyResponse =>
      var copied := h.responseBuffer[..MAX_STACK_API_COMMAND_SIZE];
      h.(apiCommandData := copied, call := At(h, Copied),
         results :=
           if h.last.None? then h.results
           else h.results + [Result(h.call.value.serial, copied, h.last.value, !h.disturbed)])
    case Release => h.(call := None)
    case StartDrain =>
      var size := if |h.pipe| < MAX_PIPE_QUEUE_SIZE then |h.pipe| else MAX_PIPE_QUEUE_SIZE;
      h.(chunk := h.pipe[..size], pipe := h.pipe[size..])
    case DrainOne =>
      var k := FirstFrame(h.chunk);
      if k == 0 then h.(dead := true) else h.(dispatched := h.dispatched + [h.chunk[2..k]], chunk := h.chunk[k..])
  }

  /** Sizes of the two buffers, and of the messages on their way into them. */
  predicate Buffered(h: Host) {
    |h.responseBuffer| == RESPONSE_BUFFER_SIZE && |h.apiCommandData| == MAX_STACK_API_COMMAND_SIZE &&
    h.length <= MAX_STACK_API_COMMAND_SIZE &&
    (forall m :: m in h.inbound ==> ValidMessage(m)) &&
    (h.read.Some? ==> ValidMessage(h.read.value) && h.read.value.bytes <= h.responseBuffer)
  }

  // ---- Conservation of the one outstanding request ----

  function Responses(ms: seq<Message>): nat {
    if ms == [] then 0 else Responses(ms[..|ms| - 1]) + if ms[|ms| - 1].Response? then 1 else 0
  }

  lemma {:induction false} ResponsesHead(ms: seq<Message>)
    requires ms != []
    ensures Responses(ms) == (if ms[0].Response? then 1 else 0) + Responses(ms[1..])
  {
    if |ms| > 1 {
      ResponsesHead(ms[..|ms| - 1]);
      assert ms[..|ms| - 1][1..] == ms[1..][..|ms[1..]| - 1];
    }
  }

  /** No response among the messages when none is counted. */
  lemma {:induction false} NoResponses(ms: seq<Message>, m: Message)
    requires Responses(ms) == 0 && m in ms
    ensures m.Indication?
  {
    if m != ms[|ms| - 1] {
      assert m in ms[..|ms| - 1];
      NoResponses(ms[..|ms| - 1], m);
    }
  }

  /** Requests under way, responses under way, a response read but not signalled, and pipe tokens. */
  function Outstanding(h: Host): nat {
    |h.outbound| + |h.atNcp| + Responses(h.inbound) +
    (if h.read.Some? && h.read.value.Response? then 1 else 0) + h.tokens
  }

  predicate Conserved(h: Host) {
    Outstanding(h) == if InStage(h, Transmitted) then 1 else 0
  }

  /** Everything under way belongs to the call that holds the mutex. */
  predicate OwnSerials(h: Host) {
    (forall r :: r in h.outbound ==> h.call.Some? && r.serial == h.call.value.serial) &&
    (forall r :: r in h.atNcp ==> h.call.Some? && r.serial == h.call.value.serial) &&
    (forall m :: m in h.inbound && m.Response? ==> h.call.Some? && m.serial == h.call.value.serial) &&
    (h.read.Some? && h.read.value.Response? ==>
      h.last == h.read && !h.disturbed && h.call.Some? && h.read.value.serial == h.call.value.serial)
  }

  /** What the response buffer holds once the holder's response has been read. */
  predicate AnswerReady(h: Host) {
    h.call.Some? && h.last.Some? && ValidMessage(h.last.value) &&
    h.last.value.Response? && h.last.value.serial == h.call.value.serial &&
    (!h.disturbed ==> h.last.value.bytes <= h.responseBuffer) &&
    (h.disturbed ==> |h.responseBuffer| > 0 && h.responseBuffer[0] == INDICATION_ORIGIN)
  }

  /** As far as the copy goes, it is the answer. */
  predicate BeginsWith(copied: seq<byte>, answer: seq<byte>) {
    copied[..Min(|answer|, |copied|)] == answer[..Min(|answer|, |copied|)]
  }

  /**
   * A finished call was given the answer to its own request, and the bytes it decodes begin with
   * that answer exactly when no message was read in between.
   */
  predicate GoodResult(r: Result) {
    r.answer.Response? && r.answer.serial == r.serial && |r.copied| == MAX_STACK_API_COMMAND_SIZE &&
    (r.undisturbed <==> BeginsWith(r.copied, r.answer.bytes))
  }

  predicate CommandInv(h: Host) {
    Buffered(h) && Conserved(h) && OwnSerials(h) &&
    (h.tokens > 0 || InStage(h, Signalled) ==> AnswerReady(h)) &&
    (forall r :: r in h.results ==> GoodResult(r))
  }

  // ---- The callback queue ----

  function Indications(ms: seq<Message>): seq<seq<byte>> {
    if ms == [] then [] else (if ms[0].Indication? then [ms[0].bytes] else []) + Indications(ms[1..])
  }

  lemma {:induction false} IndicationsSnoc(ms: seq<Message>, m: Message)
    ensures Indications(ms + [m]) == Indications(ms) + if m.Indication? then [m.bytes] else []
  {
    if ms == [] {
      assert (ms + [m])[1..] == [];
    } else {
      IndicationsSnoc(ms[1..], m);
      assert (ms + [m])[1..] == ms[1..] + [m];
    }
  }

  /** Indications past the demultiplexer: dispatched, being drained, or in the pipe. */
  function Queued(h: Host): seq<seq<byte>>
    requires Parse(h.chunk).Some? && Parse(h.pipe).Some?
  {
    h.dispatched + Parse(h.chunk).value + Parse(h.pipe).value
  }

  function InHand(h: Host): seq<seq<byte>> {
    if h.read.Some? && h.read.value.Indication? then [h.read.value.bytes] else []
  }

  /** Every indication the NCP ever emitted is, in order and once, somewhere on its way to the dispatcher. */
  predicate QueueInv(h: Host) {
    Buffered(h) && !h.dead && Parse(h.chunk).Some? && Parse(h.pipe).Some? && |h.pipe| <= MAX_PIPE_QUEUE_SIZE &&
    h.emitted == Queued(h) + InHand(h) + Indications(h.inbound)
  }

  // ---- Preservation ----

  lemma BufferedStep(h: Host, a: Action)
    requires Buffered(h) && Enabled(h, a)
    ensures Buffered(Apply(h, a))
  {
  }

  /** What each action adds to the indications emitted and to the commands dispatched. */
  lemma CommandsMove(h: Host, a: Action)
    requires Buffered(h) && Enabled(h, a)
    ensures Apply(h, a).emitted == if a.NcpIndicates? then h.emitted + [a.bytes] else h.emitted
    ensures Apply(h, a).dispatched ==
            if a.DrainOne? && FirstFrame(h.chunk) > 0 then h.dispatched + [h.chunk[2..FirstFrame(h.chunk)]]
            else h.dispatched
  {
  }

  /** Only the poll thread touches the response buffer; its read is what can disturb an answer. */
  lemma PollKeepsCommandInv(h: Host)
    requires CommandInv(h) && Enabled(h, PollReads)
    ensures CommandInv(Apply(h, PollReads))
  {
    ResponsesHead(h.inbound);
    var h' := Apply(h, PollReads);
    var m := h.inbound[0];
    assert m in h.inbound;
    assert h'.responseBuffer[0] == m.bytes[0];
    assert forall x :: x in h'.inbound ==> x in h.inbound;
  }

  lemma DispatchKeepsCommandInv(h: Host)
    requires CommandInv(h) && Enabled(h, PollDispatches)
    ensures CommandInv(Apply(h, PollDispatches))
  {
    assert h.responseBuffer[0] == h.read.value.bytes[0];
  }

  lemma NcpTakesKeepsCommandInv(h: Host)
    requires CommandInv(h) && Enabled(h, NcpTakes)
    ensures CommandInv(Apply(h, NcpTakes))
  {
    var h' := Apply(h, NcpTakes);
    assert h.outbound[0] in h.outbound;
    assert forall r :: r in h'.outbound ==> r in h.outbound;
  }

  lemma NcpAnswersKeepsCommandInv(h: Host, bytes: seq<byte>)
    requires CommandInv(h) && Enabled(h, NcpAnswers(bytes))
    ensures CommandInv(Apply(h, NcpAnswers(bytes)))
  {
    var h' := Apply(h, NcpAnswers(bytes));
    assert h.atNcp[0] in h.atNcp;
    assert h'.inbound[..|h'.inbound| - 1] == h.inbound;
    assert forall r :: r in h'.atNcp ==> r in h.atNcp;
  }

  lemma NcpIndicatesKeepsCommandInv(h: Host, bytes: seq<byte>)
    requires CommandInv(h) && Enabled(h, NcpIndicates(bytes))
    ensures CommandInv(Apply(h, NcpIndicates(bytes)))
  {
    var h' := Apply(h, NcpIndicates(bytes));
    assert h'.inbound[..|h'.inbound| - 1] == h.inbound;
  }

  lemma CopyKeepsCommandInv(h: Host)
    requires CommandInv(h) && Enabled(h, CopyResponse)
    ensures CommandInv(Apply(h, CopyResponse))
  {
    var h' := Apply(h, CopyResponse);
    var r := h'.results[|h.results|];
    var n := Min(|r.answer.bytes|, MAX_STACK_API_COMMAND_SIZE);
    assert r.copied[0] == h.responseBuffer[0];
    if r.undisturbed {
      assert r.copied[..n] == r.answer.bytes[..n];
    } else {
      assert r.copied[..n][0] != r.answer.bytes[..n][0];
    }
  }

  /** While no request is out, nothing of a call is under way anywhere. */
  lemma NothingUnderWay(h: Host)
    requires CommandInv(h) && !InStage(h, Transmitted)
    ensures h.outbound == [] && h.atNcp == [] && h.tokens == 0
    ensures forall m :: m in h.inbound ==> m.Indication?
    ensures h.read.Some? ==> h.read.value.Indication?
  {
    forall m | m in h.inbound
      ensures m.Indication?
    {
      NoResponses(h.inbound, m);
    }
  }

  lemma CallKeepsCommandInv(h: Host, a: Action)
    requires CommandInv(h) && Enabled(h, a) && (a.Acquire? || a.Prepare? || a.Transmit? || a.Release?)
    ensures CommandInv(Apply(h, a))
  {
    NothingUnderWay(h);
    var h' := Apply(h, a);
    if a.Transmit? {
      assert h'.outbound == [Request(h.call.value.serial, h.apiCommandData[..h.length])];
    }
  }

  lemma TokenKeepsCommandInv(h: Host)
    requires CommandInv(h) && Enabled(h, ReadToken)
    ensures CommandInv(Apply(h, ReadToken))
  {
    var h' := Apply(h, ReadToken);
    assert Outstanding(h') == Outstanding(h) - 1 == 0;
  }

  /** Draining touches no part of a call. */
  lemma DrainKeepsCommandInv(h: Host, a: Action)
    requires CommandInv(h) && Enabled(h, a) && (a.StartDrain? || a.DrainOne?)
    ensures CommandInv(Apply(h, a))
  {
    var h' := Apply(h, a);
    assert h' == h.(chunk := h'.chunk, pipe := h'.pipe, dispatched := h'.dispatched, dead := h'.dead);
    assert Outstanding(h') == Outstanding(h) && OwnSerials(h') && Buffered(h');
  }

  lemma CommandStep(h: Host, a: Action)
    requires CommandInv(h) && Enabled(h, a)
    ensures CommandInv(Apply(h, a))
  {
    match a
    case PollReads => PollKeepsCommandInv(h);
    case PollDispatches => DispatchKeepsCommandInv(h);
    case CopyResponse => CopyKeepsCommandInv(h);
    case NcpTakes => NcpTakesKeepsCommandInv(h);
    case NcpAnswers(bytes) => NcpAnswersKeepsCommandInv(h, bytes);
    case NcpIndicates(bytes) => NcpIndicatesKeepsCommandInv(h, bytes);
    case ReadToken => TokenKeepsCommandInv(h);
    case StartDrain | DrainOne => DrainKeepsCommandInv(h, a);
    case _ => CallKeepsCommandInv(h, a);
  }

  /** Framing a command at the end of the pipe puts it behind all others. */
  lemma AppendOne(before: seq<seq<byte>>, pipe: seq<byte>, command: Command)
    requires Parse(pipe).Some?
    ensures Parse(pipe + Frame(command)).Some?
    ensures before + Parse(pipe + Frame(command)).value == before + Parse(pipe).value + [command]
  {
    ParseFrame(command);
    ParseConcat(pipe, Frame(command));
    Regroup(before, Parse(pipe).value, [command]);
  }

  lemma QueueDispatchStep(h: Host)
    requires QueueInv(h) && Enabled(h, PollDispatches)
    ensures QueueInv(Apply(h, PollDispatches))
  {
    var bytes := h.read.value.bytes;
    assert h.responseBuffer[0] == bytes[0];
    if h.read.value.Indication? {
      DispatchAppends(h, bytes);
      AppendKeeps(h, bytes);
    }
  }

  /** Dispatching an indication takes it from the response buffer to the end of the pipe. */
  lemma DispatchAppends(h: Host, bytes: Command)
    requires Buffered(h) && Enabled(h, PollDispatches) && h.read == Some(Indication(bytes))
    ensures Apply(h, PollDispatches) == h.(read := None, pipe := h.pipe + Frame(bytes))
  {
    assert h.responseBuffer[0] == bytes[0] && h.responseBuffer[..|bytes|] == bytes;
    Regroup(h.pipe, HighLow16(|bytes|), bytes);
  }

  lemma AppendKeeps(h: Host, bytes: Command)
    requires QueueInv(h) && h.read == Some(Indication(bytes)) && |h.pipe| + 2 + |bytes| <= MAX_PIPE_QUEUE_SIZE
    ensures QueueInv(h.(read := None, pipe := h.pipe + Frame(bytes)))
  {
    AppendOne(h.dispatched + Parse(h.chunk).value, h.pipe, bytes);
    assert Queued(h.(read := None, pipe := h.pipe + Frame(bytes))) == Queued(h) + [bytes];
  }

  lemma QueueStartDrainStep(h: Host)
    requires QueueInv(h) && Enabled(h, StartDrain)
    ensures QueueInv(Apply(h, StartDrain))
  {
    var h' := Apply(h, StartDrain);
    assert h'.chunk == h.pipe && h'.pipe == [];
    assert Queued(h') == Queued(h);
  }

  /** Taking the first command off what was read moves it from there to the dispatched ones. */
  lemma TakeOne(dispatched: seq<seq<byte>>, chunk: seq<byte>, behind: seq<seq<byte>>)
    requires chunk != [] && Parse(chunk).Some?
    ensures var k := FirstFrame(chunk);
            k > 0 && Parse(chunk[k..]).Some? &&
            (dispatched + [chunk[2..k]]) + Parse(chunk[k..]).value + behind == dispatched + Parse(chunk).value + behind
  {
    var k := FirstFrame(chunk);
    ParseStep(chunk, chunk[2..k], chunk[k..]);
    Regroup(dispatched, [chunk[2..k]], Parse(chunk[k..]).value);
  }

  lemma QueueDrainOneStep(h: Host)
    requires QueueInv(h) && Enabled(h, DrainOne)
    ensures QueueInv(Apply(h, DrainOne))
  {
    TakeOne(h.dispatched, h.chunk, Parse(h.pipe).value);
    assert Queued(Apply(h, DrainOne)) == Queued(h);
  }

  lemma QueueReadStep(h: Host)
    requires QueueInv(h) && Enabled(h, PollReads)
    ensures QueueInv(Apply(h, PollReads))
  {
    BufferedStep(h, PollReads);
    assert Queued(Apply(h, PollReads)) == Queued(h);
  }

  lemma QueueNcpStep(h: Host, a: Action)
    requires QueueInv(h) && Enabled(h, a) && (a.NcpAnswers? || a.NcpIndicates?)
    ensures QueueInv(Apply(h, a))
  {
    BufferedStep(h, a);
    IndicationsSnoc(h.inbound, if a.NcpAnswers? then Response(h.atNcp[0].serial, a.bytes) else Indication(a.bytes));
    assert Queued(Apply(h, a)) == Queued(h);
  }

  /** The steps of a call leave the queue alone. */
  lemma QueueCallStep(h: Host, a: Action)
    requires QueueInv(h) && Enabled(h, a)
    requires a.Acquire? || a.Prepare? || a.Transmit? || a.NcpTakes? || a.ReadToken? || a.CopyResponse? || a.Release?
    ensures QueueInv(Apply(h, a))
  {
    BufferedStep(h, a);
    assert Queued(Apply(h, a)) == Queued(h);
  }

  lemma QueueStep(h: Host, a: Action)
    requires QueueInv(h) && Enabled(h, a)
    ensures QueueInv(Apply(h, a))
  {
    match a
    case PollReads => QueueReadStep(h);
    case PollDispatches => QueueDispatchStep(h);
    case NcpAnswers(_) | NcpIndicates(_) => QueueNcpStep(h, a);
    case StartDrain => QueueStartDrainStep(h);
    case DrainOne => QueueDrainOneStep(h);
    case _ => QueueCallStep(h, a);
  }

  // ---- Every interleaving ----

  /** Both buffers are zeroed at start-up and nothing is under way. */
  function Start(): Host {
    Host(None, 0, Zeros(MAX_STACK_API_COMMAND_SIZE), 0, [], [], [], Zeros(RESPONSE_BUFFER_SIZE), None, 0, None, false,
         [], [], [], [], [], false)
  }

  predicate Possible(actions: seq<Action>)
    decreases |actions|, 0
  {
    actions == [] || (Possible(actions[..|actions| - 1]) &&
                      Enabled(After(actions[..|actions| - 1]), actions[|actions| - 1]))
  }

  function After(actions: seq<Action>): (h: Host)
    requires Possible(actions)
    ensures Buffered(h)
    decreases |actions|, 1
  {
    if actions == [] then Start()
    else
      var before := After(actions[..|actions| - 1]);
      BufferedStep(before, actions[|actions| - 1]);
      Apply(before, actions[|actions| - 1])
  }

  lemma {:induction false} Invariants(actions: seq<Action>)
    requires Possible(actions)
    ensures CommandInv(After(actions)) && QueueInv(After(actions))
  {
    if actions != [] {
      var prefix, a := actions[..|actions| - 1], actions[|actions| - 1];
      Invariants(prefix);
      CommandStep(After(prefix), a);
      QueueStep(After(prefix), a);
    }
  }

  /**
   * Conservation, over all interleavings: between its transmit and its token read the mutex holder
   * has exactly one request or response under way, and at any other time nobody has any.
   */
  lemma OneOutstandingRequest(actions: seq<Action>)
    requires Possible(actions)
    ensures var h := After(actions);
            Outstanding(h) == (if InStage(h, Transmitted) then 1 else 0) &&
            (h.tokens > 0 ==> h.outbound == [] && h.atNcp == [] && h.tokens == 1)
  {
    Invariants(actions);
  }

  // ---- What a call decodes ----

  lemma {:induction false} PrefixPossible(actions: seq<Action>, n: nat)
    requires Possible(actions) && n <= |actions|
    ensures Possible(actions[..n])
    decreases |actions|
  {
    if n < |actions| {
      PrefixPossible(actions[..|actions| - 1], n);
      assert actions[..|actions| - 1][..n] == actions[..n];
    } else {
      assert actions[..n] == actions;
    }
  }

  /** The poll thread has put a token into the pipe and read no message since. */
  predicate QuietSinceAnswer(actions: seq<Action>)
    requires Possible(actions)
    decreases |actions|
  {
    actions != [] &&
    var prefix, a := actions[..|actions| - 1], actions[|actions| - 1];
    if a.PollReads? then false
    else if a.PollDispatches? && After(prefix).read.value.Response? then true
    else QuietSinceAnswer(prefix)
  }

  /** The disturbance bit tells apart what was read last. */
  predicate ReadMarks(h: Host) {
    h.read.Some? ==>
      (h.disturbed <==> h.read.value.Indication?) && (h.read.value.Response? ==> h.last == h.read)
  }

  /** The response read last is dispatched, and nothing has been read over it. */
  predicate Undisturbed(h: Host) {
    h.last.Some? && h.read == None && !h.disturbed
  }

  lemma MarksStep(h: Host, a: Action)
    requires Buffered(h) && Enabled(h, a) && ReadMarks(h)
    ensures ReadMarks(Apply(h, a))
    ensures Undisturbed(Apply(h, a)) <==>
            !a.PollReads? && ((a.PollDispatches? && h.read.value.Response?) || Undisturbed(h))
  {
  }

  lemma {:induction false} QuietMeansUndisturbed(actions: seq<Action>)
    requires Possible(actions)
    ensures ReadMarks(After(actions))
    ensures QuietSinceAnswer(actions) <==> Undisturbed(After(actions))
  {
    if actions != [] {
      QuietMeansUndisturbed(actions[..|actions| - 1]);
      MarksStep(After(actions[..|actions| - 1]), actions[|actions| - 1]);
    }
  }

  /**
   * Over all interleavings every call is given the answer to its own request, and the bytes it copies
   * and decodes begin with that answer if and only if the poll thread has read no message since it
   * put the token for that answer into the pipe.
   */
  lemma CallsDecodeTheirOwnAnswers(actions: seq<Action>, c: nat)
    requires Possible(actions) && c < |actions| && actions[c].CopyResponse?
    ensures Possible(actions[..c]) && Possible(actions[..c + 1])
    ensures var before, after := After(actions[..c]), After(actions[..c + 1]);
            |after.results| == |before.results| + 1 && before.call.Some? &&
            var r := after.results[|before.results|];
            r.serial == before.call.value.serial && r.answer.Response? && r.answer.serial == r.serial &&
            r.copied == after.apiCommandData &&
            (BeginsWith(r.copied, r.answer.bytes) <==> QuietSinceAnswer(actions[..c]))
  {
    PrefixPossible(actions, c);
    PrefixPossible(actions, c + 1);
    assert actions[..c + 1][..c] == actions[..c];
    Invariants(actions[..c]);
    QuietMeansUndisturbed(actions[..c]);
    CopiedAnswer(After(actions[..c]));
  }

  /** What the copy puts into the shared buffer, and when it is the answer. */
  lemma CopiedAnswer(h: Host)
    requires CommandInv(h) && ReadMarks(h) && Enabled(h, CopyResponse)
    ensures var h' := Apply(h, CopyResponse);
            |h'.results| == |h.results| + 1 &&
            var r := h'.results[|h.results|];
            r.serial == h.call.value.serial && r.answer == h.last.value && r.answer.Response? &&
            r.answer.serial == r.serial &&
            r.copied == h'.apiCommandData && (BeginsWith(r.copied, r.answer.bytes) <==> Undisturbed(h))
  {
    CopyKeepsCommandInv(h);
    var h' := Apply(h, CopyResponse);
    assert h'.results[|h.results|] in h'.results;
    NothingUnderWay(h);
  }

  // ---- A whole drain ----

  /** The drain loop, run to its end without another thread in between. */
  function AfterDrain(h: Host): Host
    requires Buffered(h)
    decreases |h.chunk|, !h.dead
  {
    if h.chunk == [] || h.dead then h
    else
      BufferedStep(h, DrainOne);
      AfterDrain(Apply(h, DrainOne))
  }

  lemma {:induction false} DrainsAll(h: Host)
    requires Buffered(h) && Parse(h.chunk).Some? && !h.dead
    ensures AfterDrain(h) == h.(chunk := [], dispatched := h.dispatched + Parse(h.chunk).value)
    decreases |h.chunk|
  {
    if h.chunk == [] {
      assert h.dispatched + [] == h.dispatched;
    } else {
      var k := FirstFrame(h.chunk);
      ParseStep(h.chunk, h.chunk[2..k], h.chunk[k..]);
      BufferedStep(h, DrainOne);
      DrainsAll(Apply(h, DrainOne));
      Regroup(h.dispatched, [h.chunk[2..k]], Parse(h.chunk[k..]).value);
    }
  }

  lemma DispatchedInOrder(h: Host)
    requires QueueInv(h)
    ensures h.dispatched <= h.emitted
    ensures h.read == None && h.inbound == [] && h.pipe == [] && h.chunk == [] ==> h.dispatched == h.emitted
  {
    var later := Parse(h.chunk).value + Parse(h.pipe).value + InHand(h) + Indications(h.inbound);
    assert h.emitted == h.dispatched + later;
  }

  /** Exactly-once, in-order delivery of indications, and neither fatal exit is ever taken. */
  lemma IndicationsExactlyOnce(actions: seq<Action>)
    requires Possible(actions)
    ensures var h := After(actions);
            !h.dead && h.dispatched <= h.emitted &&
            (h.read == None && h.inbound == [] && h.pipe == [] && h.chunk == [] ==> h.dispatched == h.emitted)
  {
    Invariants(actions);
    DispatchedInOrder(After(actions));
  }

  // ---- The interleaving to avoid ----

  lemma Extend(actions: seq<Action>, a: Action)
    requires Possible(actions) && Enabled(After(actions), a)
    ensures Possible(actions + [a]) && After(actions + [a]) == Apply(After(actions), a)
  {
    assert (actions + [a])[..|actions|] == actions;
  }

  /** A call's request is with the NCP. */
  lemma RequestTaken() returns (actions: seq<Action>)
    ensures Possible(actions)
    ensures var h := After(actions);
            InStage(h, Transmitted) && h.tokens == 0 && h.read == None && h.results == [] && h.inbound == [] &&
            h.outbound == [] &&
            |h.atNcp| == 1 && h.atNcp[0].serial == 0
  {
    actions := [];
    Extend(actions, Acquire(0));
    actions := actions + [Acquire(0)];
    Extend(actions, Prepare([RESPONSE_ORIGIN, 2]));
    actions := actions + [Prepare([RESPONSE_ORIGIN, 2])];
    Extend(actions, Transmit);
    actions := actions + [Transmit];
    Extend(actions, NcpTakes);
    actions := actions + [NcpTakes];
  }

  /** The call is answered, with an indication right behind the answer. */
  lemma AnswerWithIndicationBehind() returns (actions: seq<Action>)
    ensures Possible(actions)
    ensures var h := After(actions);
            InStage(h, Transmitted) && h.tokens == 0 && h.read == None && h.results == [] &&
            h.inbound == [Response(0, [RESPONSE_ORIGIN, 2]), Indication([INDICATION_ORIGIN, 2])]
  {
    actions := RequestTaken();
    Extend(actions, NcpAnswers([RESPONSE_ORIGIN, 2]));
    actions := actions + [NcpAnswers([RESPONSE_ORIGIN, 2])];
    Extend(actions, NcpIndicates([INDICATION_ORIGIN, 2]));
    actions := actions + [NcpIndicates([INDICATION_ORIGIN, 2])];
  }

  /** The token for the answer is in the pipe, and the indication is still on its way. */
  lemma TokenWithIndicationBehind() returns (actions: seq<Action>)
    ensures Possible(actions)
    ensures var h := After(actions);
            InStage(h, Transmitted) && h.tokens == 1 && h.read == None &&
            h.inbound == [Indication([INDICATION_ORIGIN, 2])] &&
            h.results == []
  {
    actions := AnswerWithIndicationBehind();
    Extend(actions, PollReads);
    actions := actions + [PollReads];
    Extend(actions, PollDispatches);
    actions := actions + [PollDispatches];
  }

  /** If the poll thread reads an indication before the copy, a call decodes something else than its answer. */
  lemma DisturbedAnswerIsPossible()
    ensures exists actions :: Possible(actions) && |After(actions).results| == 1 &&
              !After(actions).results[0].undisturbed
  {
    var actions := TokenWithIndicationBehind();
    Extend(actions, PollReads);
    actions := actions + [PollReads];
    Extend(actions, ReadToken);
    actions := actions + [ReadToken];
    Invariants(actions);
    Extend(actions, CopyResponse);
    actions := actions + [CopyResponse];
    assert Possible(actions) && |After(actions).results| == 1 && !After(actions).results[0].undisturbed;
  }
}

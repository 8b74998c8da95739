/** Two runs of the link in which a mode switch goes wrong, built step by step. */
module ModeWitnesses {
  import opened ByteUtilities
  import opened EmberTypes
  import opened CallbackQueue
  import opened LengthModes
  import T = HostTransport
  import F = CspFormat
  import C = NcpCommands
  import I = Indications
  import M = ModeCrossing

  lemma Take(events: seq<Event>, e: Event) returns (more: seq<Event>)
    requires Possible(events) && Enabled(After(events), e)
    ensures Possible(more) && more == events + [e] && After(more) == Next(After(events), e)
    ensures Calm(events) && e != Neutral(T.CopyResponse) ==> Calm(more)
  {
    Extend(events, e);
    more := events + [e];
    assert more[..|events|] == events;
  }

  // ---- Single steps ----

  lemma Acquire(events: seq<Event>) returns (more: seq<Event>)
    requires Possible(events) && After(events).host.call == None
    ensures Possible(more) && (Calm(events) ==> Calm(more))
    ensures var s, h := After(events), After(events).host;
            After(more) == s.(host := h.(call := Some(T.Call(0, h.nextSerial, T.Acquired)),
                                         nextSerial := h.nextSerial + 1))
  {
    more := Take(events, Neutral(T.Acquire(0)));
  }

  lemma AskFor(events: seq<Event>, call: C.ApiCall) returns (more: seq<Event>)
    requires Possible(events) && T.InStage(After(events).host, T.Acquired) && C.ValidCall(call)
    requires |C.Request(call, After(events).hostLong)| <= MAX_STACK_API_COMMAND_SIZE
    ensures Possible(more) && (Calm(events) ==> Calm(more))
    ensures var s, t := After(events), After(more);
            var request := C.Request(call, s.hostLong);
            t == s.(host := t.host, call := Some(call)) && t.host.length == |request| <= |t.host.apiCommandData| &&
            t.host == s.host.(apiCommandData := t.host.apiCommandData, length := |request|,
                              call := T.At(s.host, T.Prepared)) &&
            t.host.apiCommandData[..|request|] == request
  {
    more := Take(events, Ask(call));
  }

  lemma Transmit(events: seq<Event>, request: seq<byte>) returns (more: seq<Event>)
    requires Possible(events) && T.InStage(After(events).host, T.Prepared) && After(events).host.outbound == []
    requires var h := After(events).host; h.length <= |h.apiCommandData| && h.apiCommandData[..h.length] == request
    ensures Possible(more) && (Calm(events) ==> Calm(more))
    ensures var s, h := After(events), After(events).host;
            After(more) == s.(host := h.(outbound := [T.Request(h.call.value.serial, request)],
                                         call := T.At(h, T.Transmitted)))
  {
    more := Take(events, Neutral(T.Transmit));
  }

  lemma NcpTake(events: seq<Event>) returns (more: seq<Event>)
    requires Possible(events) && |After(events).host.outbound| == 1 && After(events).host.atNcp == []
    ensures Possible(more) && (Calm(events) ==> Calm(more))
    ensures var s, h := After(events), After(events).host;
            After(more) == s.(host := h.(outbound := [], atNcp := h.outbound))
  {
    more := Take(events, Neutral(T.NcpTakes));
    assert After(events).host.outbound[1..] == [];
  }

  lemma PollRead(events: seq<Event>, m: T.Message) returns (more: seq<Event>)
    requires Possible(events) && After(events).host.read == None && T.ValidMessage(m)
    requires After(events).host.inbound != [] && After(events).host.inbound[0] == m
    ensures Possible(more) && (Calm(events) ==> Calm(more))
    ensures var s, h := After(events), After(events).host;
            |m.bytes| <= |h.responseBuffer| &&
            After(more) == s.(host := h.(inbound := h.inbound[1..], read := Some(m),
                                         responseBuffer := Spliced(h.responseBuffer, 0, m.bytes),
                                         last := if m.Response? then Some(m) else h.last, disturbed := !m.Response?))
    ensures m.bytes <= After(more).host.responseBuffer
  {
    more := Take(events, Neutral(T.PollReads));
  }

  lemma SignalToken(events: seq<Event>, m: T.Message) returns (more: seq<Event>)
    requires Possible(events) && After(events).host.read == Some(m) && m.Response? && T.ValidMessage(m)
    requires m.bytes <= After(events).host.responseBuffer
    ensures Possible(more) && (Calm(events) ==> Calm(more))
    ensures var s, h := After(events), After(events).host;
            After(more) == s.(host := h.(read := None, tokens := h.tokens + 1))
  {
    assert After(events).host.responseBuffer[0] == m.bytes[0];
    more := Take(events, Neutral(T.PollDispatches));
  }

  lemma QueueIndication(events: seq<Event>, c: Command) returns (more: seq<Event>)
    requires Possible(events) && After(events).host.read == Some(T.Indication(c)) && T.ValidMessage(T.Indication(c))
    requires |After(events).host.pipe| + 2 + |c| <= MAX_PIPE_QUEUE_SIZE
    ensures Possible(more) && (Calm(events) ==> Calm(more))
    ensures var s, h := After(events), After(events).host;
            After(more) == s.(host := h.(read := None, pipe := h.pipe + Frame(c)))
  {
    T.DispatchAppends(After(events).host, c);
    more := Take(events, Neutral(T.PollDispatches));
  }

  lemma TakeToken(events: seq<Event>) returns (more: seq<Event>)
    requires Possible(events) && T.InStage(After(events).host, T.Transmitted) && After(events).host.tokens > 0
    ensures Possible(more) && (Calm(events) ==> Calm(more))
    ensures var s, h := After(events), After(events).host;
            After(more) == s.(host := h.(tokens := h.tokens - 1, call := T.At(h, T.Signalled)))
  {
    more := Take(events, Neutral(T.ReadToken));
  }

  lemma Copy(events: seq<Event>) returns (more: seq<Event>)
    requires Possible(events) && T.InStage(After(events).host, T.Signalled)
    ensures Possible(more) && more == events + [Neutral(T.CopyResponse)]
    ensures var s, t, h := After(events), After(more), After(events).host;
            |h.responseBuffer| >= MAX_STACK_API_COMMAND_SIZE &&
            t == s.(host := h.(apiCommandData := h.responseBuffer[..MAX_STACK_API_COMMAND_SIZE],
                               call := T.At(h, T.Copied),
                               results := t.host.results))
  {
    more := Take(events, Neutral(T.CopyResponse));
  }

  lemma Finish(events: seq<Event>) returns (more: seq<Event>)
    requires Possible(events) && T.InStage(After(events).host, T.Copied)
    ensures Possible(more) && (Calm(events) ==> Calm(more))
    ensures var s := After(events);
            |s.host.apiCommandData| >= 3 &&
            After(more) == s.(host := s.host.(call := None), call := None, answered := None,
                              hostLong := HostMode(s.hostLong, s.call, C.StatusOf(s.host.apiCommandData)))
  {
    ReturnIs(After(events));
    more := Take(events, Return);
  }

  lemma ReturnIs(s: Session)
    requires T.Buffered(s.host) && T.InStage(s.host, T.Copied)
    ensures Enabled(s, Return)
    ensures Next(s, Return) ==
            s.(host := s.host.(call := None), call := None, answered := None,
               hostLong := HostMode(s.hostLong, s.call, C.StatusOf(s.host.apiCommandData)))
  {
    assert T.Apply(s.host, T.Release) == s.host.(call := None);
  }

  // ---- The switch ----

  /** No call, no answer and no indication under way, apart from what is in the callback queue. */
  predicate Resting(s: Session) {
    s.call == None && s.answered == None && s.host.call == None &&
    s.host.outbound == [] && s.host.atNcp == [] && s.host.inbound == [] && s.host.read == None && s.host.tokens == 0
  }

  predicate SameQueue(h: T.Host, h': T.Host) {
    h'.pipe == h.pipe && h'.chunk == h.chunk && h'.dispatched == h.dispatched && h'.emitted == h.emitted
  }

  const Switch := C.SetLongMessages(true)

  /** The request is with the NCP, and nothing else is on the link. */
  predicate Asked(s: Session) {
    s.call == Some(Switch) && s.answered == None && T.InStage(s.host, T.Transmitted) && s.host.outbound == [] &&
    |s.host.atNcp| == 1 && s.host.inbound == [] && s.host.read == None && s.host.tokens == 0
  }

  lemma AskSwitch(events: seq<Event>) returns (more: seq<Event>)
    requires Possible(events) && Resting(After(events))
    ensures Possible(more) && Asked(After(more)) && (Calm(events) ==> Calm(more))
    ensures var s, t := After(events), After(more);
            t == s.(host := t.host, call := Some(Switch)) && SameQueue(s.host, t.host)
  {
    C.OneByteRequest(true, After(events).hostLong);
    more := Acquire(events);
    more := AskFor(more, Switch);
    more := Send(more, C.Request(Switch, After(events).hostLong));
  }

  lemma Send(events: seq<Event>, request: seq<byte>) returns (more: seq<Event>)
    requires Possible(events) && T.InStage(After(events).host, T.Prepared)
    requires After(events).host.outbound == [] && After(events).host.atNcp == []
    requires var h := After(events).host; h.length <= |h.apiCommandData| && h.apiCommandData[..h.length] == request
    ensures Possible(more) && (Calm(events) ==> Calm(more))
    ensures var s, h := After(events), After(events).host;
            After(more) == s.(host := h.(atNcp := [T.Request(h.call.value.serial, request)],
                                         call := T.At(h, T.Transmitted)))
  {
    more := Transmit(events, request);
    more := NcpTake(more);
  }

  /** The NCP answers the switch, and acts on its answer. */
  lemma AnswerSwitch(events: seq<Event>, status: byte) returns (more: seq<Event>)
    requires Possible(events) && Agree(After(events)) && Asked(After(events))
    ensures Possible(more) && (Calm(events) ==> Calm(more))
    ensures var s, t := After(events), After(more);
            t == s.(host := t.host, ncpLong := HostMode(s.hostLong, Some(Switch), status), answered := Some(status),
                    served := t.served) &&
            |t.host.inbound| == 1 && t.host.inbound[0].Response? && T.ValidMessage(t.host.inbound[0]) &&
            t.host == s.host.(atNcp := [], inbound := t.host.inbound)
  {
    AlwaysLinked(events);
    LinkInvariants(events);
    NcpCanReply(events, status);
    CallFacts(After(events), Reply(status));
    NcpSwitchesAsAsked(Switch, After(events).hostLong, status);
    more := NcpAnswersSwitch(events, status);
  }

  lemma NcpAnswersSwitch(events: seq<Event>, status: byte) returns (more: seq<Event>)
    requires Possible(events) && Asked(After(events)) && Enabled(After(events), Reply(status))
    ensures Possible(more) && (Calm(events) ==> Calm(more))
    ensures var s, t := After(events), After(more);
            t == s.(host := t.host, answered := Some(status), served := t.served,
                    ncpLong := NcpMode(s.ncpLong, C.NcpReads(s.host.atNcp[0].bytes, s.ncpLong), status)) &&
            |t.host.inbound| == 1 && t.host.inbound[0].Response? && T.ValidMessage(t.host.inbound[0]) &&
            t.host == s.host.(atNcp := [], inbound := t.host.inbound)
  {
    more := Take(events, Reply(status));
    assert After(events).host.atNcp[1..] == [];
  }

  /** The answer is read and its token put into the pipe. */
  lemma ReadAnswer(events: seq<Event>) returns (more: seq<Event>)
    requires Possible(events)
    requires var h := After(events).host;
             h.inbound != [] && h.inbound[0].Response? && T.ValidMessage(h.inbound[0]) && h.read == None &&
             h.tokens == 0
    ensures Possible(more) && (Calm(events) ==> Calm(more))
    ensures var s, t := After(events), After(more);
            t == s.(host := t.host) &&
            t.host == s.host.(inbound := s.host.inbound[1..], tokens := 1, responseBuffer := t.host.responseBuffer,
                              last := t.host.last, disturbed := false)
    ensures T.Undisturbed(After(more).host)
  {
    var m := After(events).host.inbound[0];
    more := PollRead(events, m);
    more := SignalToken(more, m);
  }

  // ---- An answer written over ----

  /** An indication whose third byte, its status field, is the one given. */
  function Overwriting(status: byte): I.Upcall {
    I.MessageSent(status, I.OutgoingMessage(0, 0, 0, 0, 0, [], 0, 0))
  }

  lemma ThirdByte(status: byte, long: bool)
    ensures I.Deliverable(Overwriting(status), long)
    ensures var c := I.CommandOf(Overwriting(status), long); |c| >= 3 && c[2] == status
  {
    var u := Overwriting(status);
    I.ArgsMatchFormat(u);
    assert I.ArgsOf(u)[0] == F.Num(status);
    assert I.Params(u, long)[0] == status;
  }

  lemma EmitBehind(events: seq<Event>, u: I.Upcall, c: seq<byte>) returns (more: seq<Event>)
    requires Possible(events) && I.Deliverable(u, After(events).ncpLong) && c == I.CommandOf(u, After(events).ncpLong)
    ensures Possible(more) && (Calm(events) ==> Calm(more))
    ensures var s, h := After(events), After(events).host;
            After(more) == s.(emitted := s.emitted + [Emission(u, s.ncpLong)],
                              host := h.(inbound := h.inbound + [T.Indication(c)], emitted := h.emitted + [c]))
    ensures T.ValidMessage(T.Indication(c))
  {
    NcpCanEmit(After(events), u);
    more := Take(events, Emit(u));
  }

  /** The poll thread reads an indication between the token and the copy, and the caller decodes its third byte. */
  lemma CopyOverwritten(events: seq<Event>, c: seq<byte>) returns (more: seq<Event>)
    requires Possible(events) && |c| >= 3 && T.ValidMessage(T.Indication(c))
    requires var h := After(events).host;
             h.inbound == [T.Indication(c)] && h.read == None && h.tokens == 1 && T.InStage(h, T.Transmitted)
    ensures Possible(more)
    ensures var s, t := After(events), After(more);
            t == s.(host := t.host) && T.InStage(t.host, T.Copied) && C.StatusOf(t.host.apiCommandData) == c[2]
  {
    more := PollRead(events, T.Indication(c));
    var buffer := After(more).host.responseBuffer;
    assert buffer[2] == c[2];
    more := TakeToken(more);
    more := Copy(more);
    assert After(more).host.apiCommandData[2] == buffer[2];
  }

  /**
   * For any status the NCP answers a switch with, and any status byte of the indication that arrives
   * behind the answer, there is a run after which no call is under way and each side is in the mode
   * its own status says.
   */
  lemma SwitchWrittenOver(status: byte, other: byte)
    ensures exists events :: Possible(events) && After(events).call == None && After(events).answered == None &&
              After(events).host.call == None &&
              After(events).ncpLong == (status == EMBER_SUCCESS) && After(events).hostLong == (other == EMBER_SUCCESS)
  {
    var events := AskSwitch([]);
    events := AnswerSwitch(events, status);
    ThirdByte(other, After(events).ncpLong);
    var c := I.CommandOf(Overwriting(other), After(events).ncpLong);
    events := EmitBehind(events, Overwriting(other), c);
    events := ReadAnswer(events);
    events := CopyOverwritten(events, c);
    events := Finish(events);
  }

  /** Both ways: a refused switch is made by the host alone, and an accepted one by the NCP alone. */
  lemma ModesCanDisagreeForGood()
    ensures exists events :: Possible(events) && After(events).call == None && After(events).hostLong &&
              !After(events).ncpLong
    ensures exists events :: Possible(events) && After(events).call == None && !After(events).hostLong &&
              After(events).ncpLong
  {
    SwitchWrittenOver(1, 0);
    SwitchWrittenOver(0, 1);
  }

  /** Even when nothing goes wrong the modes differ between the NCP's switch and the host's own. */
  lemma ModesDifferDuringSwitch()
    ensures exists events :: Possible(events) && After(events).answered.Some? && After(events).ncpLong &&
              !After(events).hostLong
  {
    var events := AskSwitch([]);
    events := AnswerSwitch(events, EMBER_SUCCESS);
    assert After(events).answered.Some? && After(events).ncpLong && !After(events).hostLong;
  }

  // ---- An indication overtaken by a switch ----

  const OneByteMessage := I.MessageReceived(I.IncomingMessage(0, 0, 0, 0, 1, [1], 0, 0))

  /** An indication gets as far as the callback queue. */
  lemma QueueOne(events: seq<Event>, u: I.Upcall) returns (more: seq<Event>)
    requires Possible(events) && I.Deliverable(u, After(events).ncpLong)
    requires After(events).host.inbound == [] && After(events).host.read == None && After(events).host.pipe == []
    ensures Possible(more) && (Calm(events) ==> Calm(more))
    ensures var s, t := After(events), After(more);
            t == s.(emitted := s.emitted + [Emission(u, s.ncpLong)], host := t.host) && t.host.pipe != [] &&
            t.host == s.host.(responseBuffer := t.host.responseBuffer, disturbed := true, pipe := t.host.pipe,
                              emitted := t.host.emitted)
  {
    var c := I.CommandOf(u, After(events).ncpLong);
    I.CommandFitsQueue(u, After(events).ncpLong);
    more := EmitBehind(events, u, c);
    assert After(more).host.inbound[1..] == [];
    more := PollRead(more, T.Indication(c));
    more := QueueIndication(more, c);
    assert |Frame(c)| > 0;
  }

  /** A switch is made, with nothing written over. */
  lemma SwitchOver(events: seq<Event>) returns (more: seq<Event>)
    requires Possible(events) && Calm(events) && Resting(After(events)) &&
             After(events).hostLong == After(events).ncpLong
    ensures Possible(more) && Calm(more)
    ensures var s, t := After(events), After(more);
            t.call == None && t.answered == None && t.hostLong && t.ncpLong &&
            t.emitted == s.emitted && t.handled == s.handled && SameQueue(s.host, t.host)
  {
    more := AskSwitch(events);
    more := AnswerSwitch(more, EMBER_SUCCESS);
    more := ReadAnswer(more);
    more := FinishSwitch(more);
  }

  lemma FinishSwitch(events: seq<Event>) returns (more: seq<Event>)
    requires Possible(events) && Calm(events) && T.Undisturbed(After(events).host)
    requires var s := After(events);
             s.call == Some(Switch) && s.answered == Some(EMBER_SUCCESS) && s.ncpLong &&
             T.InStage(s.host, T.Transmitted) && s.host.tokens == 1
    ensures Possible(more) && Calm(more)
    ensures var s, t := After(events), After(more);
            t.call == None && t.answered == None && t.hostLong && t.ncpLong &&
            t.emitted == s.emitted && t.handled == s.handled && SameQueue(s.host, t.host)
  {
    more := TakeToken(events);
    more := CopyQuietly(more);
    ModesAgree(more);
    more := Finish(more);
  }

  lemma CopyQuietly(events: seq<Event>) returns (more: seq<Event>)
    requires Possible(events) && Calm(events) && T.Undisturbed(After(events).host) &&
             T.InStage(After(events).host, T.Signalled)
    ensures Possible(more) && Calm(more)
    ensures var s, t := After(events), After(more);
            t == s.(host := t.host) && T.InStage(t.host, T.Copied) && SameQueue(s.host, t.host)
  {
    ActionsPossible(events);
    T.QuietMeansUndisturbed(Actions(events));
    more := Copy(events);
    assert more[..|events|] == events;
  }

  lemma BeginDrain(events: seq<Event>) returns (more: seq<Event>)
    requires Possible(events) && After(events).host.chunk == [] && |After(events).host.pipe| <= MAX_PIPE_QUEUE_SIZE
    ensures Possible(more) && (Calm(events) ==> Calm(more))
    ensures var s, h := After(events), After(events).host; After(more) == s.(host := h.(chunk := h.pipe, pipe := []))
  {
    more := Take(events, Neutral(T.StartDrain));
  }

  lemma DrainIs(s: Session, h: T.Host)
    requires |s.host.apiCommandData| == MAX_STACK_API_COMMAND_SIZE && FirstFrame(s.host.chunk) > 0
    ensures var t := Updated(s, Drain([]), h);
            t == s.(host := h, handled := t.handled) && |t.handled| == |s.handled| + 1 &&
            t.handled[|s.handled|].mode == s.hostLong
  {
  }

  lemma DrainFirst(events: seq<Event>) returns (more: seq<Event>)
    requires Possible(events) && FirstFrame(After(events).host.chunk) > 0
    ensures Possible(more) && (Calm(events) ==> Calm(more))
    ensures var s, t := After(events), After(more);
            t == s.(host := t.host, handled := t.handled) && |t.handled| == |s.handled| + 1 &&
            t.handled[|s.handled|].mode == s.hostLong
  {
    var s := After(events);
    DrainIs(s, T.Apply(s.host, T.DrainOne));
    more := Take(events, Drain([]));
  }

  lemma DrainQueued(events: seq<Event>) returns (more: seq<Event>)
    requires Possible(events) && Calm(events) && After(events).host.chunk == [] && After(events).host.pipe != []
    ensures Possible(more) && Calm(more)
    ensures var s, t := After(events), After(more);
            t == s.(host := t.host, handled := t.handled) && |t.handled| == |s.handled| + 1 &&
            t.handled[|s.handled|].mode == s.hostLong
  {
    LinkInvariants(events);
    more := BeginDrain(events);
    more := DrainFirst(more);
  }

  /**
   * A short-mode indication can still be queued when a switch completes: it is then read in long mode
   * and reaches the application as something else, though the modes agree and nothing was written over.
   */
  lemma SwitchOvertakesIndication()
    ensures exists events :: Possible(events) && Calm(events) &&
              After(events).hostLong == After(events).ncpLong && |After(events).handled| == 1 &&
              |After(events).emitted| == 1 &&
              After(events).handled[0].result != Some(After(events).emitted[0].u)
  {
    var events := QueueOne([], OneByteMessage);
    events := SwitchOver(events);
    events := DrainQueued(events);
    IndicationsAcrossSwitches(events, 0);
    M.NoCoincidence(OneByteMessage, After(events).handled[0].behind, true);
    assert After(events).handled[0].result != Some(After(events).emitted[0].u);
  }
}

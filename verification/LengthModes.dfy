/**
 * The length mode of host and NCP over the shared link: API calls, indications and mode switches on
 * top of every interleaving of the host's threads. What a call decodes is what the response buffer
 * holds when it is copied, and an indication is read in the mode the host is in when it is drained.
 */
module LengthModes {
  import opened ByteUtilities
  import opened EmberTypes
  import opened CallbackQueue
  import T = HostTransport
  import C = NcpCommands
  import I = Indications
  import L = LinkContents
  import M = ModeCrossing

  /** A request served: the call made, the host's mode when it was written, and what the NCP read. */
  datatype Served = Served(call: C.ApiCall, mode: bool, read: Option<C.ApiCall>)
  /** An indication with the NCP's mode when it was written. */
  datatype Emission = Emission(u: I.Upcall, mode: bool)
  /** A callback with the host's mode when its command was read, and the bytes behind the command. */
  datatype Handling = Handling(result: Option<I.Upcall>, mode: bool, behind: seq<byte>)

  datatype Session = Session(
    host: T.Host,
    hostLong: bool,
    ncpLong: bool,
    /** The call of the mutex holder once it is formatted, and the status the NCP has answered it with. */
    call: Option<C.ApiCall>,
    answered: Option<byte>,
    served: seq<Served>,
    emitted: seq<Emission>,
    handled: seq<Handling>)

  datatype Event =
    | Neutral(a: T.Action)
    | Ask(call: C.ApiCall)
    | Reply(status: byte)
    | Emit(u: I.Upcall)
    | Drain(stale: seq<byte>)
    | Return

  /** The steps of the link that no mode plays a part in. */
  predicate IsNeutral(a: T.Action) {
    a.Acquire? || a.Transmit? || a.NcpTakes? || a.PollReads? || a.PollDispatches? || a.ReadToken? || a.CopyResponse? ||
    a.StartDrain?
  }

  /** A response: the identifier of the request and one status byte. */
  function ReplyBytes(request: seq<byte>, status: byte): seq<byte>
    requires |request| >= 2
  {
    request[..2] + [status]
  }

  predicate WellPosed(s: Session, e: Event) {
    match e
    case Neutral(a) => IsNeutral(a)
    case Ask(call) => C.ValidCall(call)
    case Reply(_) => s.host.atNcp != [] && |s.host.atNcp[0].bytes| >= 2
    case Emit(u) => I.Deliverable(u, s.ncpLong)
    case Drain(_) => true
    case Return => true
  }

  /** The step of the link an event is. */
  function ActionOf(s: Session, e: Event): T.Action
    requires WellPosed(s, e)
  {
    match e
    case Neutral(a) => a
    case Ask(call) => T.Prepare(C.Request(call, s.hostLong))
    case Reply(status) => T.NcpAnswers(ReplyBytes(s.host.atNcp[0].bytes, status))
    case Emit(u) => T.NcpIndicates(I.CommandOf(u, s.ncpLong))
    case Drain(_) => T.DrainOne
    case Return => T.Release
  }

  predicate Enabled(s: Session, e: Event) {
    WellPosed(s, e) && T.Enabled(s.host, ActionOf(s, e))
  }

  /** The NCP acts on what it reads and switches mode exactly when it answers success to that. */
  function NcpMode(long: bool, read: Option<C.ApiCall>, status: byte): bool {
    if status == EMBER_SUCCESS && read.Some? && read.value.SetLongMessages? then read.value.useLong else long
  }

  /** The host switches exactly when the status it decodes is success. */
  function HostMode(long: bool, call: Option<C.ApiCall>, decoded: byte): bool {
    if decoded == EMBER_SUCCESS && call.Some? && call.value.SetLongMessages? then call.value.useLong else long
  }

  /** An event's effect beside that on the link, which it takes to state `h`. */
  function Updated(s: Session, e: Event, h: T.Host): Session
    requires WellPosed(s, e) && |s.host.apiCommandData| == MAX_STACK_API_COMMAND_SIZE
  {
    var s' := s.(host := h);
    match e
    case Neutral(_) => s'
    case Ask(call) => s'.(call := Some(call))
    case Reply(status) =>
      var read := C.NcpReads(s.host.atNcp[0].bytes, s.ncpLong);
      s'.(ncpLong := NcpMode(s.ncpLong, read, status), answered := Some(status),
          served := if s.call.Some? then s.served + [Served(s.call.value, s.hostLong, read)] else s.served)
    case Emit(u) => s'.(emitted := s.emitted + [Emission(u, s.ncpLong)])
    case Drain(stale) =>
      var k := FirstFrame(s.host.chunk);
      if k == 0 then s'
      else
        var behind := s.host.chunk[k..] + stale;
        s'.(handled := s.handled + [Handling(I.Handled(s.host.chunk[2..k], behind, s.hostLong), s.hostLong, behind)])
    case Return =>
      s'.(hostLong := HostMode(s.hostLong, s.call, C.StatusOf(s.host.apiCommandData)), call := None, answered := None)
  }

  function Next(s: Session, e: Event): Session
    requires T.Buffered(s.host) && Enabled(s, e)
  {
    Updated(s, e, T.Apply(s.host, ActionOf(s, e)))
  }

  // ---- Runs ----

  /** Both ends start in short mode. */
  function Fresh(): Session {
    Session(T.Start(), false, false, None, None, [], [], [])
  }

  predicate Possible(events: seq<Event>)
    decreases |events|, 0
  {
    events == [] || (Possible(events[..|events| - 1]) && Enabled(After(events[..|events| - 1]), events[|events| - 1]))
  }

  function After(events: seq<Event>): (s: Session)
    requires Possible(events)
    ensures T.Buffered(s.host)
    decreases |events|, 1
  {
    if events == [] then Fresh()
    else
      var before := After(events[..|events| - 1]);
      T.BufferedStep(before.host, ActionOf(before, events[|events| - 1]));
      Next(before, events[|events| - 1])
  }

  lemma Extend(events: seq<Event>, e: Event)
    requires Possible(events) && Enabled(After(events), e)
    ensures Possible(events + [e]) && After(events + [e]) == Next(After(events), e)
  {
    assert (events + [e])[..|events|] == events;
  }

  /** The same run as the link sees it. */
  function Actions(events: seq<Event>): seq<T.Action>
    requires Possible(events)
    decreases |events|
  {
    if events == [] then []
    else
      Actions(events[..|events| - 1]) + [ActionOf(After(events[..|events| - 1]), events[|events| - 1])]
  }

  lemma {:induction false} ActionsPossible(events: seq<Event>)
    requires Possible(events)
    ensures T.Possible(Actions(events)) && T.After(Actions(events)) == After(events).host
    decreases |events|
  {
    if events != [] {
      var prefix := events[..|events| - 1];
      ActionsPossible(prefix);
      T.Extend(Actions(prefix), ActionOf(After(prefix), events[|events| - 1]));
    }
  }

  /** In every run the link keeps its own invariants. */
  lemma LinkInvariants(events: seq<Event>)
    requires Possible(events)
    ensures var h := After(events).host; T.CommandInv(h) && T.QueueInv(h) && T.ReadMarks(h)
  {
    ActionsPossible(events);
    T.Invariants(Actions(events));
    T.QuietMeansUndisturbed(Actions(events));
  }

  // ---- Indications ----

  predicate Written(emitted: seq<Emission>, commands: seq<seq<byte>>) {
    |emitted| == |commands| &&
    forall i :: 0 <= i < |emitted| ==>
      I.Deliverable(emitted[i].u, emitted[i].mode) && commands[i] == I.CommandOf(emitted[i].u, emitted[i].mode)
  }

  predicate Read(handled: seq<Handling>, commands: seq<seq<byte>>) {
    |handled| == |commands| &&
    forall i :: 0 <= i < |handled| ==>
      |commands[i]| >= 2 && handled[i].result == I.Handled(commands[i], handled[i].behind, handled[i].mode)
  }

  lemma OneMoreWritten(emitted: seq<Emission>, commands: seq<seq<byte>>, u: I.Upcall, mode: bool)
    requires Written(emitted, commands) && I.Deliverable(u, mode)
    ensures Written(emitted + [Emission(u, mode)], commands + [I.CommandOf(u, mode)])
  {
  }

  lemma OneMoreRead(handled: seq<Handling>, commands: seq<seq<byte>>, command: seq<byte>, behind: seq<byte>, mode: bool)
    requires Read(handled, commands) && |command| >= 2
    ensures Read(handled + [Handling(I.Handled(command, behind, mode), mode, behind)], commands + [command])
  {
  }

  lemma IndicationStep(s: Session, e: Event)
    requires T.Buffered(s.host) && Enabled(s, e)
    requires Written(s.emitted, s.host.emitted) && Read(s.handled, s.host.dispatched)
    ensures Written(Next(s, e).emitted, Next(s, e).host.emitted)
    ensures Read(Next(s, e).handled, Next(s, e).host.dispatched)
  {
    T.CommandsMove(s.host, ActionOf(s, e));
    match e
    case Emit(u) => OneMoreWritten(s.emitted, s.host.emitted, u, s.ncpLong);
    case Drain(stale) =>
      var k := FirstFrame(s.host.chunk);
      if k > 0 {
        OneMoreRead(s.handled, s.host.dispatched, s.host.chunk[2..k], s.host.chunk[k..] + stale, s.hostLong);
      }
    case _ =>
  }

  lemma {:induction false} IndicationsKept(events: seq<Event>)
    requires Possible(events)
    ensures var s := After(events); Written(s.emitted, s.host.emitted) && Read(s.handled, s.host.dispatched)
  {
    if events != [] {
      IndicationsKept(events[..|events| - 1]);
      IndicationStep(After(events[..|events| - 1]), events[|events| - 1]);
    }
  }

  lemma HandledIs(u: I.Upcall, behind: seq<byte>, written: bool, read: bool)
    requires I.Deliverable(u, written)
    ensures I.Handled(I.CommandOf(u, written), behind, read)
            == I.Dispatched(I.IdOf(u), I.Params(u, written) + behind, read)
  {
    var c := I.CommandOf(u, written);
    assert c[..2] == HighLow16(I.IdOf(u)) && c[2..] == I.Params(u, written);
    StoreFetch16(I.IdOf(u), c[..2]);
    assert FetchHighLow16(c) == FetchHighLow16(c[..2]);
  }

  /**
   * Over every run, mode switches included: the callbacks made are those of the indications emitted,
   * in order, and each is unchanged if and only if the host's mode when it was drained is the NCP's
   * when it was written, or the bytes around it happen to coincide.
   */
  lemma IndicationsAcrossSwitches(events: seq<Event>, i: nat)
    requires Possible(events) && i < |After(events).handled|
    ensures var s := After(events);
            i < |s.emitted| && I.Deliverable(s.emitted[i].u, s.emitted[i].mode) &&
            (s.handled[i].result == Some(s.emitted[i].u) <==>
             s.handled[i].mode == s.emitted[i].mode ||
             M.Coincides(s.emitted[i].u, s.handled[i].behind, s.handled[i].mode))
  {
    LinkInvariants(events);
    IndicationsKept(events);
    var s := After(events);
    T.DispatchedInOrder(s.host);
    assert s.host.dispatched[i] == s.host.emitted[i];
    var w, r := s.emitted[i], s.handled[i];
    HandledIs(w.u, r.behind, w.mode, r.mode);
    M.UnchangedAcrossModes(w.u, r.behind, w.mode, r.mode);
  }

  // ---- The call on the link ----

  function RequestOf(s: Session): Option<seq<byte>>
    requires s.call.Some? ==> C.ValidCall(s.call.value)
  {
    if s.call.Some? then Some(C.Request(s.call.value, s.hostLong)) else None
  }

  function AnswerOf(s: Session): Option<seq<byte>>
    requires s.call.Some? ==> C.ValidCall(s.call.value)
  {
    if s.call.Some? && s.answered.Some? then Some(ReplyBytes(RequestOf(s).value, s.answered.value)) else None
  }

  /** The link carries the request of the call as the host wrote it, and the NCP's answer to it. */
  predicate Linked(s: Session) {
    (s.call.Some? ==> C.ValidCall(s.call.value)) && (s.answered.Some? ==> s.call.Some?) &&
    L.Carries(s.host, RequestOf(s), AnswerOf(s))
  }

  /** What is known of the call when it is formatted, answered and finished. */
  lemma CallFacts(s: Session, e: Event)
    requires T.CommandInv(s.host) && Linked(s) && Enabled(s, e)
    ensures e.Ask? ==> s.call == None && s.answered == None
    ensures e.Reply? ==> s.call.Some? && s.answered == None && s.host.atNcp[0].bytes == RequestOf(s).value
    ensures e.Return? ==> s.call.Some? && s.answered.Some?
  {
    if e.Reply? {
      assert s.host.atNcp[0] in s.host.atNcp;
    }
  }

  lemma LinkedUpdate(s: Session, e: Event, h: T.Host)
    requires Linked(s) && WellPosed(s, e) && |s.host.apiCommandData| == MAX_STACK_API_COMMAND_SIZE
    requires e.Neutral? ==> IsNeutral(e.a)
    requires e.Ask? ==> s.call == None && s.answered == None
    requires e.Reply? ==> s.call.Some? && s.host.atNcp[0].bytes == RequestOf(s).value
    requires L.Carries(h, L.RequestAfter(ActionOf(s, e), RequestOf(s)), L.AnswerAfter(ActionOf(s, e), AnswerOf(s)))
    ensures Linked(Updated(s, e, h))
  {
    var t := Updated(s, e, h);
    assert RequestOf(t) == L.RequestAfter(ActionOf(s, e), RequestOf(s));
    assert AnswerOf(t) == L.AnswerAfter(ActionOf(s, e), AnswerOf(s));
  }

  lemma LinkedStep(s: Session, e: Event)
    requires T.CommandInv(s.host) && Linked(s) && Enabled(s, e)
    ensures Linked(Next(s, e))
  {
    L.CarriesStep(s.host, ActionOf(s, e), RequestOf(s), AnswerOf(s));
    CallFacts(s, e);
    LinkedUpdate(s, e, T.Apply(s.host, ActionOf(s, e)));
  }

  lemma {:induction false} AlwaysLinked(events: seq<Event>)
    requires Possible(events)
    ensures Linked(After(events))
  {
    if events != [] {
      AlwaysLinked(events[..|events| - 1]);
      LinkInvariants(events[..|events| - 1]);
      LinkedStep(After(events[..|events| - 1]), events[|events| - 1]);
    }
  }

  /** The NCP can always answer the request it has. */
  lemma NcpCanReply(events: seq<Event>, status: byte)
    requires Possible(events) && After(events).host.atNcp != []
    ensures Enabled(After(events), Reply(status))
  {
    AlwaysLinked(events);
    var s := After(events);
    assert s.host.atNcp[0] in s.host.atNcp;
    RequestBegins(s.call.value, s.hostLong);
    ReplyIsMessage(s.host.atNcp[0].bytes, status);
  }

  lemma ReplyIsMessage(request: seq<byte>, status: byte)
    requires |request| >= 2 && request[0] == T.RESPONSE_ORIGIN
    ensures T.ValidMessage(T.Response(0, ReplyBytes(request, status)))
  {
  }

  lemma RequestBegins(call: C.ApiCall, long: bool)
    requires C.ValidCall(call)
    ensures C.Request(call, long)[0] == T.RESPONSE_ORIGIN
  {
  }

  /** It can always emit an indication it can write. */
  lemma NcpCanEmit(s: Session, u: I.Upcall)
    requires I.Deliverable(u, s.ncpLong)
    ensures Enabled(s, Emit(u))
  {
    I.CommandFitsQueue(u, s.ncpLong);
    var c := I.CommandOf(u, s.ncpLong);
    assert c[0] == T.INDICATION_ORIGIN;
    assert T.ValidMessage(T.Indication(c));
  }

  // ---- Agreement ----

  /** The modes are equal, or the NCP has already taken the step its answer tells the host to take. */
  predicate Agree(s: Session) {
    s.ncpLong == if s.answered.Some? then HostMode(s.hostLong, s.call, s.answered.value) else s.hostLong
  }

  /** The NCP reads the request as the host meant it, so its switch is the one the host would make. */
  lemma NcpSwitchesAsAsked(call: C.ApiCall, long: bool, status: byte)
    requires C.ValidCall(call)
    ensures NcpMode(long, C.NcpReads(C.Request(call, long), long), status) == HostMode(long, Some(call), status)
  {
    C.RequestReadBack(call, long);
  }

  lemma AgreeUpdate(s: Session, e: Event, h: T.Host)
    requires WellPosed(s, e) && |s.host.apiCommandData| == MAX_STACK_API_COMMAND_SIZE
    requires Agree(s) && !e.Return? && (s.call.Some? ==> C.ValidCall(s.call.value))
    requires e.Ask? ==> s.answered == None
    requires e.Reply? ==> s.call.Some? && s.answered == None && s.host.atNcp[0].bytes == RequestOf(s).value
    ensures Agree(Updated(s, e, h))
  {
    if e.Reply? {
      NcpSwitchesAsAsked(s.call.value, s.hostLong, e.status);
    }
  }

  lemma AgreeStep(s: Session, e: Event)
    requires T.CommandInv(s.host) && Linked(s) && Agree(s) && Enabled(s, e) && !e.Return?
    ensures Agree(Next(s, e))
  {
    CallFacts(s, e);
    AgreeUpdate(s, e, T.Apply(s.host, ActionOf(s, e)));
  }

  /**
   * The end of one call, exactly: modes that agreed before it agree after it if and only if it was not
   * a switch, asked for the mode that was set already, or the status the host decoded says success
   * just when the NCP's own did.
   */
  lemma ReturnAgrees(events: seq<Event>)
    requires Possible(events) && Enabled(After(events), Return) && Agree(After(events))
    ensures var s := After(events);
            s.call.Some? && s.answered.Some? &&
            var decoded, t := C.StatusOf(s.host.apiCommandData), Next(s, Return);
            (t.hostLong == t.ncpLong <==>
             !s.call.value.SetLongMessages? || s.call.value.useLong == s.hostLong ||
             (decoded == EMBER_SUCCESS <==> s.answered.value == EMBER_SUCCESS))
  {
    AlwaysLinked(events);
    LinkInvariants(events);
    CallFacts(After(events), Return);
  }

  predicate Switching(s: Session) {
    s.call.Some? && s.call.value.SetLongMessages?
  }

  /** No answer to a switch is written over: nothing is read between its token and its copy. */
  predicate Calm(events: seq<Event>)
    requires Possible(events)
    decreases |events|
  {
    events == [] ||
    var prefix, e := events[..|events| - 1], events[|events| - 1];
    Calm(prefix) &&
    (e == Neutral(T.CopyResponse) && Switching(After(prefix)) ==>
      T.Possible(Actions(prefix)) && T.QuietSinceAnswer(Actions(prefix)))
  }

  /** What a switch is about to decode is the NCP's status. */
  predicate Trusted(s: Session) {
    T.InStage(s.host, T.Copied) && Switching(s) ==>
      |s.host.apiCommandData| >= 3 && s.answered == Some(C.StatusOf(s.host.apiCommandData))
  }

  lemma CopyIsTrusted(s: Session)
    requires T.CommandInv(s.host) && T.ReadMarks(s.host) && Linked(s) && Enabled(s, Neutral(T.CopyResponse))
    requires T.Undisturbed(s.host)
    ensures Trusted(Next(s, Neutral(T.CopyResponse)))
  {
    T.CopiedAnswer(s.host);
    LinkedStep(s, Neutral(T.CopyResponse));
    var t := Next(s, Neutral(T.CopyResponse));
    var copied, answer := t.host.apiCommandData, AnswerOf(t).value;
    assert T.BeginsWith(copied, answer) && |answer| == 3;
    assert copied[2] == copied[..3][2] && answer[2] == answer[..3][2];
  }

  lemma TrustStep(s: Session, e: Event)
    requires T.CommandInv(s.host) && Linked(s) && Enabled(s, e) && Trusted(s) && e != Neutral(T.CopyResponse) &&
             !e.Return?
    ensures Trusted(Next(s, e))
  {
    L.CopiedKept(s.host, ActionOf(s, e));
    CallFacts(s, e);
    TrustUpdate(s, e, T.Apply(s.host, ActionOf(s, e)));
  }

  lemma TrustUpdate(s: Session, e: Event, h: T.Host)
    requires WellPosed(s, e) && |s.host.apiCommandData| == MAX_STACK_API_COMMAND_SIZE && Trusted(s) && !e.Return?
    requires T.InStage(h, T.Copied) ==> T.InStage(s.host, T.Copied) && h.apiCommandData == s.host.apiCommandData
    requires e.Ask? || e.Reply? ==> !T.InStage(h, T.Copied)
    ensures Trusted(Updated(s, e, h))
  {
  }

  predicate AllReadBack(served: seq<Served>) {
    forall x :: x in served ==> (x.read == Some(x.call) <==> C.Expressible(x.call, x.mode))
  }

  lemma ReadBackStep(s: Session, e: Event)
    requires T.CommandInv(s.host) && Linked(s) && Agree(s) && Enabled(s, e) && AllReadBack(s.served)
    ensures AllReadBack(Next(s, e).served)
  {
    CallFacts(s, e);
    ReadBackUpdate(s, e, T.Apply(s.host, ActionOf(s, e)));
  }

  lemma ReadBackUpdate(s: Session, e: Event, h: T.Host)
    requires WellPosed(s, e) && |s.host.apiCommandData| == MAX_STACK_API_COMMAND_SIZE
    requires Agree(s) && (s.call.Some? ==> C.ValidCall(s.call.value)) && AllReadBack(s.served)
    requires e.Reply? ==> s.call.Some? && s.answered == None && s.host.atNcp[0].bytes == RequestOf(s).value
    ensures AllReadBack(Updated(s, e, h).served)
  {
    if e.Reply? {
      C.RequestReadBack(s.call.value, s.hostLong);
    }
  }

  /**
   * Over every run of calls, indications and threads in which no answer to a switch is written over:
   * the modes of host and NCP agree whenever no answer is outstanding, and each request was read as
   * the call made exactly when its mode could express it.
   */
  lemma {:induction false} ModesAgree(events: seq<Event>)
    requires Possible(events) && Calm(events)
    ensures Agree(After(events)) && Trusted(After(events)) && AllReadBack(After(events).served)
    ensures After(events).answered == None ==> After(events).hostLong == After(events).ncpLong
  {
    if events != [] {
      var prefix, e := events[..|events| - 1], events[|events| - 1];
      ModesAgree(prefix);
      AlwaysLinked(prefix);
      LinkInvariants(prefix);
      ReadBackStep(After(prefix), e);
      if e.Return? {
        TrustedReturn(prefix);
      } else {
        AgreeStep(After(prefix), e);
        CalmTrust(prefix, e);
      }
    }
  }

  lemma TrustedReturn(events: seq<Event>)
    requires Possible(events) && Enabled(After(events), Return) && Agree(After(events)) && Trusted(After(events))
    ensures Agree(Next(After(events), Return)) && Trusted(Next(After(events), Return))
  {
    AlwaysLinked(events);
    LinkInvariants(events);
    CallFacts(After(events), Return);
  }

  lemma CalmTrust(prefix: seq<Event>, e: Event)
    requires Possible(prefix) && Enabled(After(prefix), e) && !e.Return? && Trusted(After(prefix))
    requires e == Neutral(T.CopyResponse) && Switching(After(prefix)) ==>
               T.Possible(Actions(prefix)) && T.QuietSinceAnswer(Actions(prefix))
    ensures Trusted(Next(After(prefix), e))
  {
    AlwaysLinked(prefix);
    LinkInvariants(prefix);
    if e != Neutral(T.CopyResponse) {
      TrustStep(After(prefix), e);
    } else if Switching(After(prefix)) {
      ActionsPossible(prefix);
      T.QuietMeansUndisturbed(Actions(prefix));
      CopyIsTrusted(After(prefix));
    }
  }
}

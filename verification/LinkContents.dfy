/** What the link carries for the call that holds the mutex: its request on the way out, its answer on the way back. */
module LinkContents {
  import opened ByteUtilities
  import opened EmberTypes
  import opened HostTransport

  predicate Formatted(h: Host) {
    h.call.Some? && h.call.value.stage != Acquired
  }

  /**
   * While a call is formatted, every request on the link is its request; once the NCP has answered,
   * every response on the link is that answer, and so is the one the copy is credited to.
   */
  predicate Carries(h: Host, request: Option<seq<byte>>, answer: Option<seq<byte>>) {
    (request.Some? <==> Formatted(h)) && (answer.Some? ==> request.Some?) &&
    (InStage(h, Prepared) ==>
      h.length <= |h.apiCommandData| && request == Some(h.apiCommandData[..h.length]) && answer == None) &&
    (InStage(h, Transmitted) ==> (answer.None? <==> h.outbound != [] || h.atNcp != [])) &&
    (forall r :: r in h.outbound ==> request == Some(r.bytes)) &&
    (forall r :: r in h.atNcp ==> request == Some(r.bytes)) &&
    ReturnCarries(h, answer)
  }

  predicate ReturnCarries(h: Host, answer: Option<seq<byte>>) {
    (InStage(h, Signalled) || InStage(h, Copied) ==> answer.Some?) &&
    (forall m :: m in h.inbound && m.Response? ==> answer == Some(m.bytes)) &&
    (h.read.Some? && h.read.value.Response? ==> answer == Some(h.read.value.bytes)) &&
    (h.tokens > 0 || InStage(h, Signalled) ==> h.last.Some? && answer == Some(h.last.value.bytes)) &&
    (InStage(h, Copied) ==>
      h.results != [] &&
      var r := h.results[|h.results| - 1]; r.copied == h.apiCommandData && answer == Some(r.answer.bytes))
  }

  function RequestAfter(a: Action, request: Option<seq<byte>>): Option<seq<byte>> {
    if a.Prepare? then Some(a.bytes) else if a.Release? then None else request
  }

  function AnswerAfter(a: Action, answer: Option<seq<byte>>): Option<seq<byte>> {
    if a.NcpAnswers? then Some(a.bytes) else if a.Release? then None else answer
  }

  lemma CallStep(h: Host, a: Action, request: Option<seq<byte>>, answer: Option<seq<byte>>)
    requires CommandInv(h) && Enabled(h, a) && Carries(h, request, answer)
    requires a.Acquire? || a.Prepare? || a.Transmit? || a.Release?
    ensures Carries(Apply(h, a), RequestAfter(a, request), AnswerAfter(a, answer))
  {
    NothingUnderWay(h);
    if a.Prepare? {
      assert Apply(h, a).apiCommandData[..|a.bytes|] == a.bytes;
    }
  }

  lemma CopyStep(h: Host, request: Option<seq<byte>>, answer: Option<seq<byte>>)
    requires CommandInv(h) && Enabled(h, CopyResponse) && Carries(h, request, answer)
    ensures Carries(Apply(h, CopyResponse), request, answer)
  {
  }

  lemma TokenStep(h: Host, request: Option<seq<byte>>, answer: Option<seq<byte>>)
    requires CommandInv(h) && Enabled(h, ReadToken) && Carries(h, request, answer)
    ensures Carries(Apply(h, ReadToken), request, answer)
  {
  }

  lemma NcpTakesStep(h: Host, request: Option<seq<byte>>, answer: Option<seq<byte>>)
    requires CommandInv(h) && Enabled(h, NcpTakes) && Carries(h, request, answer)
    ensures Carries(Apply(h, NcpTakes), request, answer)
  {
    assert h.outbound[0] in h.outbound;
    assert forall r :: r in Apply(h, NcpTakes).outbound ==> r in h.outbound;
  }

  lemma NcpAnswersStep(h: Host, bytes: seq<byte>, request: Option<seq<byte>>, answer: Option<seq<byte>>)
    requires CommandInv(h) && Enabled(h, NcpAnswers(bytes)) && Carries(h, request, answer)
    ensures Carries(Apply(h, NcpAnswers(bytes)), request, Some(bytes))
  {
    assert h.atNcp[0] in h.atNcp;
    assert |h.outbound| + |h.atNcp| == 1 && Responses(h.inbound) == 0;
    forall m | m in h.inbound ensures m.Indication? {
      NoResponses(h.inbound, m);
    }
    var h' := Apply(h, NcpAnswers(bytes));
    assert h'.outbound == [] && h'.atNcp == [];
  }

  lemma NcpIndicatesStep(h: Host, bytes: seq<byte>, request: Option<seq<byte>>, answer: Option<seq<byte>>)
    requires CommandInv(h) && Enabled(h, NcpIndicates(bytes)) && Carries(h, request, answer)
    ensures Carries(Apply(h, NcpIndicates(bytes)), request, answer)
  {
  }

  lemma PollStep(h: Host, a: Action, request: Option<seq<byte>>, answer: Option<seq<byte>>)
    requires CommandInv(h) && Enabled(h, a) && Carries(h, request, answer) && (a.PollReads? || a.PollDispatches?)
    ensures Carries(Apply(h, a), request, answer)
  {
    if a.PollReads? {
      assert h.inbound[0] in h.inbound;
      assert forall m :: m in Apply(h, a).inbound ==> m in h.inbound;
      ResponsesHead(h.inbound);
    } else {
      assert h.responseBuffer[0] == h.read.value.bytes[0];
    }
  }

  lemma DrainStep(h: Host, a: Action, request: Option<seq<byte>>, answer: Option<seq<byte>>)
    requires CommandInv(h) && Enabled(h, a) && Carries(h, request, answer) && (a.StartDrain? || a.DrainOne?)
    ensures Carries(Apply(h, a), request, answer)
  {
    var h' := Apply(h, a);
    assert h' == h.(chunk := h'.chunk, pipe := h'.pipe, dispatched := h'.dispatched, dead := h'.dead);
  }

  /** Every step of every thread keeps the contents of the link those of the one call. */
  lemma CarriesStep(h: Host, a: Action, request: Option<seq<byte>>, answer: Option<seq<byte>>)
    requires CommandInv(h) && Enabled(h, a) && Carries(h, request, answer)
    ensures Carries(Apply(h, a), RequestAfter(a, request), AnswerAfter(a, answer))
  {
    match a
    case NcpTakes => NcpTakesStep(h, request, answer);
    case NcpAnswers(bytes) => NcpAnswersStep(h, bytes, request, answer);
    case NcpIndicates(bytes) => NcpIndicatesStep(h, bytes, request, answer);
    case PollReads | PollDispatches => PollStep(h, a, request, answer);
    case ReadToken => TokenStep(h, request, answer);
    case CopyResponse => CopyStep(h, request, answer);
    case StartDrain | DrainOne => DrainStep(h, a, request, answer);
    case _ => CallStep(h, a, request, answer);
  }

  /** A copied response stays in the shared buffer until the mutex is released. */
  lemma CopiedKept(h: Host, a: Action)
    requires Buffered(h) && Enabled(h, a) && !a.CopyResponse? && !a.Release?
    ensures InStage(Apply(h, a), Copied) ==>
              InStage(h, Copied) && Apply(h, a).apiCommandData == h.apiCommandData && !a.Prepare?
  {
  }
}

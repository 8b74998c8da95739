/**
 * Indications from the NCP to the application's callbacks: the handlers of csp-command-callbacks.c
 * with their formats and destinations, and the dispatcher over command identifiers.
 */
module Indications {
  import opened ByteUtilities
  import opened CspFormat
  import opened CspSerializer
  import opened HandlerFields
  import opened MacAddresses
  import Beacons
  import MacMessages
  import CallbackQueue

  const MESSAGE_SENT_ID: u16 := 0x6302
  const INCOMING_MESSAGE_ID: u16 := 0x6303
  const STACK_STATUS_ID: u16 := 0x6300
  const CHILD_JOIN_ID: u16 := 0x6301
  const ACTIVE_SCAN_COMPLETE_ID: u16 := 0x6305
  const ENERGY_SCAN_COMPLETE_ID: u16 := 0x6306
  const FREQUENCY_HOPPING_START_CLIENT_COMPLETE_ID: u16 := 0x630A
  const INCOMING_MAC_MESSAGE_ID: u16 := 0x630B
  const MAC_MESSAGE_SENT_ID: u16 := 0x630C
  const RADIO_NEEDS_CALIBRATING_ID: u16 := 0x6330
  const INCOMING_BEACON_ID: u16 := 0x6339

  const MESSAGE_SENT_FORMAT := "uuvuulbuw"
  const INCOMING_MESSAGE_FORMAT := "uvuulbwu"

  datatype OutgoingMessage = OutgoingMessage(
    options: byte, destination: u16, endpoint: byte, tag: byte, length: u16, payload: seq<byte>,
    ackRssi: byte, timestamp: u32)

  datatype IncomingMessage = IncomingMessage(
    options: byte, source: u16, endpoint: byte, rssi: byte, length: u16, payload: seq<byte>, timestamp: u32, lqi: byte)

  /** The application callback an indication ends in; the plainer handlers pass on the values they have read. */
  datatype Upcall =
    | MessageSent(status: byte, sent: OutgoingMessage)
    | MessageReceived(received: IncomingMessage)
    | MacMessage(report: MacMessages.Report<Union>)
    | BeaconReceived(beacon: Beacons.Upcall)
    | Other(id: u16, fields: seq<Out>)

  /** The indications of the two message handlers. */
  predicate IsMessage(u: Upcall) {
    u.MessageSent? || u.MessageReceived?
  }

  // ---- What the NCP writes ----

  function MessageSentArgs(status: byte, m: OutgoingMessage): seq<Arg> {
    [Num(status), Num(m.options), Num(m.destination), Num(m.endpoint), Num(m.tag), Num(m.length), BlobArg(m.payload),
     Num(m.ackRssi), Num(m.timestamp)]
  }

  function MessageReceivedArgs(m: IncomingMessage): seq<Arg> {
    [Num(m.options), Num(m.source), Num(m.endpoint), Num(m.rssi), Num(m.length), BlobArg(m.payload), Num(m.timestamp),
     Num(m.lqi)]
  }

  function PayloadOf(u: Upcall): seq<byte>
    requires IsMessage(u)
  {
    if u.MessageSent? then u.sent.payload else u.received.payload
  }

  function LengthOf(u: Upcall): u16
    requires IsMessage(u)
  {
    if u.MessageSent? then u.sent.length else u.received.length
  }

  function FormatOf(u: Upcall): string
    requires IsMessage(u)
  {
    if u.MessageSent? then MESSAGE_SENT_FORMAT else INCOMING_MESSAGE_FORMAT
  }

  function ArgsOf(u: Upcall): (args: seq<Arg>)
    requires IsMessage(u)
    ensures |args| == |FormatOf(u)|
  {
    if u.MessageSent? then MessageSentArgs(u.status, u.sent) else MessageReceivedArgs(u.received)
  }

  function IdOf(u: Upcall): u16
    requires IsMessage(u)
  {
    if u.MessageSent? then MESSAGE_SENT_ID else INCOMING_MESSAGE_ID
  }

  // ---- What the handlers read into ----

  const MessageSentDests: seq<Dest> :=
    [Value, Value, Value, Value, Value, Value, PayloadDest, Value, Value]

  const IncomingMessageDests: seq<Dest> :=
    [Value, Value, Value, Value, Value, PayloadDest, Value, Value]

  function DestsOf(u: Upcall): (dests: seq<Dest>)
    requires IsMessage(u)
    ensures |dests| == |FormatOf(u)|
  {
    if u.MessageSent? then MessageSentDests else IncomingMessageDests
  }

  function SentFrom(o: seq<Out>): Upcall
    requires |o| == 9
  {
    MessageSent(ByteOf(o[0]),
                OutgoingMessage(ByteOf(o[1]), HalfOf(o[2]), ByteOf(o[3]), ByteOf(o[4]), FinalLength(o[5], o[6]),
                                CopiedOf(o[6]), ByteOf(o[7]), WordOf(o[8])))
  }

  function ReceivedFrom(o: seq<Out>): Upcall
    requires |o| == 8
  {
    MessageReceived(IncomingMessage(ByteOf(o[0]), HalfOf(o[1]), ByteOf(o[2]), ByteOf(o[3]), FinalLength(o[4], o[5]),
                                    CopiedOf(o[5]), WordOf(o[6]), ByteOf(o[7])))
  }

  lemma FormatsMatch()
    ensures ValidFormat(MESSAGE_SENT_FORMAT) && ValidFormat(INCOMING_MESSAGE_FORMAT)
    ensures DestsMatch(MESSAGE_SENT_FORMAT, MessageSentDests) &&
            DestsMatch(INCOMING_MESSAGE_FORMAT, IncomingMessageDests)
  {
  }

  // ---- The handlers that only fetch values ----

  /** The format of a handler that fetches a few values, and no blob, and passes them on. */
  function PlainFormat(id: u16): Option<string> {
    if id == STACK_STATUS_ID || id == FREQUENCY_HOPPING_START_CLIENT_COMPLETE_ID then Some("u")
    else if id == CHILD_JOIN_ID then Some("uv")
    else if id == RADIO_NEEDS_CALIBRATING_ID || id == ACTIVE_SCAN_COMPLETE_ID then Some("")
    else if id == ENERGY_SCAN_COMPLETE_ID then Some("uuuv")
    else None
  }

  function Values(format: string): seq<Dest> {
    seq(|format|, _ => Value)
  }

  lemma PlainMatches(id: u16)
    requires PlainFormat(id).Some?
    ensures var f := PlainFormat(id).value; ValidFormat(f) && DestsMatch(f, Values(f))
  {
  }

  /** The callback command with this identifier and these parameters; None is a fatal exit. */
  function Dispatched(id: u16, params: seq<byte>, long: bool): Option<Upcall> {
    FormatsMatch();
    if id == MESSAGE_SENT_ID then
      match Decode(MESSAGE_SENT_FORMAT, MessageSentDests, params, long)
      case None => None
      case Some(o) => Some(SentFrom(o))
    else if id == INCOMING_MESSAGE_ID then
      match Decode(INCOMING_MESSAGE_FORMAT, IncomingMessageDests, params, long)
      case None => None
      case Some(o) => Some(ReceivedFrom(o))
    else if id == INCOMING_MAC_MESSAGE_ID || id == MAC_MESSAGE_SENT_ID then
      match MacMessages.ReadReport(id == MAC_MESSAGE_SENT_ID, params, long)
      case None => None
      case Some(report) => Some(MacMessage(report))
    else if id == INCOMING_BEACON_ID then
      match Beacons.Read(params, long)
      case None => None
      case Some(o) => Some(BeaconReceived(Beacons.UpcallFrom(o)))
    else if PlainFormat(id).Some? then
      PlainMatches(id);
      match Decode(PlainFormat(id).value, Values(PlainFormat(id).value), params, long)
      case None => None
      case Some(o) => Some(Other(id, o))
    else None
  }

  /**
   * The six plain handlers pass on exactly the values the NCP wrote, whatever follows them, if and
   * only if each fits its field.
   */
  lemma PlainHandlersRead(id: u16, args: seq<Arg>, rest: seq<byte>, long: bool)
    requires PlainFormat(id).Some? && ArgsMatch(PlainFormat(id).value, args)
    ensures var f := PlainFormat(id).value;
            ValidFormat(f) &&
            var u := Dispatched(id, Encode(f, args, long) + rest, long);
            (u.Some? && u.value.Other? && u.value.id == id && AllSame(f, f, args, u.value.fields))
            <==> AllFit(f, args, long)
  {
    PlainMatches(id);
    var f := PlainFormat(id).value;
    PlainDispatched(id, Encode(f, args, long) + rest, long);
    PlainRoundTrip(f, args, rest, long);
  }

  lemma PlainDispatched(id: u16, params: seq<byte>, long: bool)
    requires PlainFormat(id).Some?
    ensures var f := PlainFormat(id).value;
            DestsMatch(f, Values(f)) &&
            var o := Decode(f, Values(f), params, long);
            Dispatched(id, params, long) == if o.None? then None else Some(Other(id, o.value))
  {
    PlainMatches(id);
  }

  lemma PlainRoundTrip(f: string, args: seq<Arg>, rest: seq<byte>, long: bool)
    requires ValidFormat(f) && ArgsMatch(f, args) && DestsMatch(f, Values(f))
    ensures var o := Decode(f, Values(f), Encode(f, args, long) + rest, long);
            (o.Some? && AllSame(f, f, args, o.value)) <==> AllFit(f, args, long)
  {
    RoundTrip(f, f, args, Values(f), rest, long);
  }

  /** The dispatcher and its handlers, reading through the serializer's current mode. */
  class Dispatcher {
    const serializer: Serializer
    const beacons: Beacons.BeaconHandler

    ghost predicate Valid() {
      beacons.Valid() && beacons.serializer == serializer
    }

    constructor (serializer: Serializer)
      ensures Valid() && this.serializer == serializer
      ensures fresh(beacons) && fresh(beacons.beaconFields) && fresh(beacons.beaconPayload)
    {
      this.serializer := serializer;
      beacons := new Beacons.BeaconHandler(serializer);
    }

    method MessageSentCommandHandler(callbackParams: seq<byte>) returns (r: Option<Upcall>)
      ensures r == Dispatched(MESSAGE_SENT_ID, callbackParams, serializer.useLongMessageLength)
    {
      FormatsMatch();
      var outs := serializer.FetchParams(callbackParams, MESSAGE_SENT_FORMAT, MessageSentDests);
      r := if outs.None? then None else Some(SentFrom(outs.value));
    }

    method IncomingMessageCommandHandler(callbackParams: seq<byte>) returns (r: Option<Upcall>)
      ensures r == Dispatched(INCOMING_MESSAGE_ID, callbackParams, serializer.useLongMessageLength)
    {
      FormatsMatch();
      var outs := serializer.FetchParams(callbackParams, INCOMING_MESSAGE_FORMAT, IncomingMessageDests);
      r := if outs.None? then None else Some(ReceivedFrom(outs.value));
    }

    method IncomingMacMessageCommandHandler(callbackParams: seq<byte>) returns (r: Option<Upcall>)
      ensures r == Dispatched(INCOMING_MAC_MESSAGE_ID, callbackParams, serializer.useLongMessageLength)
    {
      MacMessages.IncomingMatches();
      var outs := serializer.FetchParams(callbackParams, MacMessages.INCOMING_MAC_FORMAT, MacMessages.IncomingDests);
      if outs.None? {
        return None;
      }
      var o := outs.value;
      MacMessages.DecodedInside(MacMessages.INCOMING_MAC_FORMAT, MacMessages.IncomingDests, callbackParams,
                                serializer.useLongMessageLength, 1);
      var frame := MacMessages.StoreFrame(o, 1);
      r := Some(MacMessage(MacMessages.Received(
        MacMessages.IncomingMac(ByteOf(o[0]), frame, ByteOf(o[11]), ByteOf(o[12]), WordOf(o[13]),
                                FinalLength(o[14], o[15]), CopiedOf(o[15]), WordOf(o[16])))));
    }

    method MacMessageSentCommandHandler(callbackParams: seq<byte>) returns (r: Option<Upcall>)
      ensures r == Dispatched(MAC_MESSAGE_SENT_ID, callbackParams, serializer.useLongMessageLength)
    {
      MacMessages.SentMatches();
      var outs := serializer.FetchParams(callbackParams, MacMessages.MAC_SENT_FORMAT, MacMessages.SentDests);
      if outs.None? {
        return None;
      }
      var o := outs.value;
      MacMessages.DecodedInside(MacMessages.MAC_SENT_FORMAT, MacMessages.SentDests, callbackParams,
                                serializer.useLongMessageLength, 2);
      var frame := MacMessages.StoreFrame(o, 2);
      r := Some(MacMessage(MacMessages.Sent(
        ByteOf(o[0]),
        MacMessages.OutgoingMac(ByteOf(o[1]), frame, ByteOf(o[12]), WordOf(o[13]),
                                FinalLength(o[14], o[15]), CopiedOf(o[15]), ByteOf(o[16]), WordOf(o[17])))));
    }

    /** The handlers that only fetch their values and pass them on. */
    method PlainCommandHandler(id: u16, callbackParams: seq<byte>) returns (r: Option<Upcall>)
      requires PlainFormat(id).Some?
      ensures r == Dispatched(id, callbackParams, serializer.useLongMessageLength)
    {
      PlainMatches(id);
      var format := PlainFormat(id).value;
      var outs := serializer.FetchParams(callbackParams, format, Values(format));
      r := if outs.None? then None else Some(Other(id, outs.value));
    }

    /** Only a beacon touches the kept buffers. */
    method HandleIndication(commandId: u16, callbackParams: seq<byte>) returns (r: Option<Upcall>)
      requires Valid()
      modifies beacons.beaconFields, beacons.beaconPayload
      ensures r == Dispatched(commandId, callbackParams, serializer.useLongMessageLength)
      ensures commandId == INCOMING_BEACON_ID && r.Some? ==>
                var o := Beacons.Read(callbackParams, serializer.useLongMessageLength).value;
                beacons.beaconFields[..] == Beacons.Overlaid(old(beacons.beaconFields[..]), CopiedOf(o[7])) &&
                beacons.beaconPayload[..] == Beacons.Overlaid(old(beacons.beaconPayload[..]), CopiedOf(o[9]))
      ensures commandId != INCOMING_BEACON_ID || r.None? ==>
                beacons.beaconFields[..] == old(beacons.beaconFields[..]) &&
                beacons.beaconPayload[..] == old(beacons.beaconPayload[..])
    {
      if commandId == MESSAGE_SENT_ID {
        r := MessageSentCommandHandler(callbackParams);
      } else if commandId == INCOMING_MESSAGE_ID {
        r := IncomingMessageCommandHandler(callbackParams);
      } else if commandId == INCOMING_MAC_MESSAGE_ID {
        r := IncomingMacMessageCommandHandler(callbackParams);
      } else if commandId == MAC_MESSAGE_SENT_ID {
        r := MacMessageSentCommandHandler(callbackParams);
      } else if commandId == INCOMING_BEACON_ID {
        var u := beacons.IncomingBeaconCommandHandler(callbackParams);
        r := if u.None? then None else Some(BeaconReceived(u.value));
      } else if PlainFormat(commandId).Some? {
        r := PlainCommandHandler(commandId, callbackParams);
      } else {
        r := None;
      }
    }
  }

  // ---- The pipeline is the identity ----

  predicate WellFormed(u: Upcall) {
    IsMessage(u) && LengthOf(u) == |PayloadOf(u)|
  }

  lemma ArgsMatchFormat(u: Upcall)
    requires WellFormed(u)
    ensures ValidFormat(FormatOf(u)) && ArgsMatch(FormatOf(u), ArgsOf(u)) && DestsMatch(FormatOf(u), DestsOf(u))
  {
    FormatsMatch();
  }

  /** The parameters of an indication as the NCP writes them. */
  function Params(u: Upcall, long: bool): seq<byte>
    requires WellFormed(u)
  {
    ArgsMatchFormat(u);
    Encode(FormatOf(u), ArgsOf(u), long)
  }

  lemma FieldsFit(u: Upcall, long: bool)
    requires WellFormed(u) && |PayloadOf(u)| <= PayloadLimit(long)
    ensures ValidFormat(FormatOf(u)) && ArgsMatch(FormatOf(u), ArgsOf(u)) && DestsMatch(FormatOf(u), DestsOf(u))
    ensures AllFit(FormatOf(u), ArgsOf(u), long) && AllRoomy(ArgsOf(u), DestsOf(u))
  {
    ArgsMatchFormat(u);
    if u.MessageSent? {
      SentFieldsFit(u, long);
    } else {
      ReceivedFieldsFit(u, long);
    }
    AllFitAt(FormatOf(u), ArgsOf(u), long);
  }

  lemma SentFieldsFit(u: Upcall, long: bool)
    requires WellFormed(u) && u.MessageSent? && |PayloadOf(u)| <= PayloadLimit(long)
    requires ArgsMatch(MESSAGE_SENT_FORMAT, ArgsOf(u))
    ensures forall i :: 0 <= i < 9 ==> Fits(MESSAGE_SENT_FORMAT[i], ArgsOf(u)[i], long)
    ensures AllRoomy(ArgsOf(u), MessageSentDests)
  {
  }

  lemma ReceivedFieldsFit(u: Upcall, long: bool)
    requires WellFormed(u) && u.MessageReceived? && |PayloadOf(u)| <= PayloadLimit(long)
    requires ArgsMatch(INCOMING_MESSAGE_FORMAT, ArgsOf(u))
    ensures forall i :: 0 <= i < 8 ==> Fits(INCOMING_MESSAGE_FORMAT[i], ArgsOf(u)[i], long)
    ensures AllRoomy(ArgsOf(u), IncomingMessageDests)
  {
  }

  lemma SentIsSame(u: Upcall, outs: seq<Out>)
    requires WellFormed(u) && u.MessageSent? && |outs| == 9
    requires forall i :: 0 <= i < 9 ==>
               (ArgsOf(u)[i].Blob? ==> ArgMatches('b', ArgsOf(u)[i])) && Same(FormatOf(u)[i], ArgsOf(u)[i], outs[i])
    ensures SentFrom(outs) == u
  {
    var args := ArgsOf(u);
    assert Same('u', args[0], outs[0]) && Same('u', args[1], outs[1]) && Same('v', args[2], outs[2]);
    assert Same('u', args[3], outs[3]) && Same('u', args[4], outs[4]) && Same('l', args[5], outs[5]);
    assert Same('b', args[6], outs[6]) && Same('u', args[7], outs[7]) && Same('w', args[8], outs[8]);
    assert Content(args[6]) == u.sent.payload;
  }

  lemma ReceivedIsSame(u: Upcall, outs: seq<Out>)
    requires WellFormed(u) && u.MessageReceived? && |outs| == 8
    requires forall i :: 0 <= i < 8 ==>
               (ArgsOf(u)[i].Blob? ==> ArgMatches('b', ArgsOf(u)[i])) && Same(FormatOf(u)[i], ArgsOf(u)[i], outs[i])
    ensures ReceivedFrom(outs) == u
  {
    var args := ArgsOf(u);
    assert Same('u', args[0], outs[0]) && Same('v', args[1], outs[1]) && Same('u', args[2], outs[2]);
    assert Same('u', args[3], outs[3]) && Same('l', args[4], outs[4]) && Same('b', args[5], outs[5]);
    assert Same('w', args[6], outs[6]) && Same('u', args[7], outs[7]);
    assert Content(args[5]) == u.received.payload;
  }

  lemma HandlerReads(u: Upcall, rest: seq<byte>, long: bool)
    requires WellFormed(u) && |PayloadOf(u)| <= PayloadLimit(long)
    ensures Dispatched(IdOf(u), Params(u, long) + rest, long) == Some(u)
  {
    FieldsFit(u, long);
    RoundTrip(FormatOf(u), FormatOf(u), ArgsOf(u), DestsOf(u), rest, long);
    var outs := Decode(FormatOf(u), DestsOf(u), Params(u, long) + rest, long).value;
    forall i | 0 <= i < |outs|
      ensures (ArgsOf(u)[i].Blob? ==> ArgMatches('b', ArgsOf(u)[i])) && Same(FormatOf(u)[i], ArgsOf(u)[i], outs[i])
    {
      SameAt(FormatOf(u), FormatOf(u), ArgsOf(u), outs, i);
    }
    if u.MessageSent? {
      SentIsSame(u, outs);
    } else {
      ReceivedIsSame(u, outs);
    }
  }

  lemma HandlerTruncates(u: Upcall, params: seq<byte>, long: bool)
    requires WellFormed(u) && |PayloadOf(u)| > PayloadLimit(long)
    ensures Dispatched(IdOf(u), params, long) != Some(u)
  {
    FormatsMatch();
    if Decode(FormatOf(u), DestsOf(u), params, long).Some? {
      BlobBounded(FormatOf(u), DestsOf(u), params, long, if u.MessageSent? then 6 else 5);
    }
  }

  /**
   * Written by the NCP and read by its handler in the same mode, whatever follows in the buffer, a
   * message indication arrives unchanged exactly when its payload is within the mode's limit.
   */
  lemma HandlerIsIdentity(u: Upcall, rest: seq<byte>, long: bool)
    requires WellFormed(u)
    ensures Dispatched(IdOf(u), Params(u, long) + rest, long) == Some(u) <==>
            |PayloadOf(u)| <= if long then 2048 else 255
  {
    if |PayloadOf(u)| <= PayloadLimit(long) {
      HandlerReads(u, rest, long);
    } else {
      HandlerTruncates(u, Params(u, long) + rest, long);
    }
  }

  // ---- Through the queue ----

  /** The whole command of an indication: identifier, then parameters. */
  function CommandOf(u: Upcall, long: bool): (c: seq<byte>)
    requires WellFormed(u)
    ensures |c| >= 2
  {
    HighLow16(IdOf(u)) + Params(u, long)
  }

  predicate Deliverable(u: Upcall, long: bool) {
    WellFormed(u) && |PayloadOf(u)| <= PayloadLimit(long)
  }

  lemma {:induction false} EncodeLength(format: string, args: seq<Arg>, long: bool)
    requires ValidFormat(format) && ArgsMatch(format, args)
    ensures |Encode(format, args, long)| <= FieldBytes(args)
  {
    if format != "" {
      EncodeLength(format[1..], args[1..], long);
    }
  }

  /** An upper bound: four bytes a number, two more than its size a blob. */
  function FieldBytes(args: seq<Arg>): nat {
    if args == [] then 0
    else (match args[0] case Num(_) => 4 case Blob(_, size) => size + 2) + FieldBytes(args[1..])
  }

  lemma CommandFitsQueue(u: Upcall, long: bool)
    requires Deliverable(u, long)
    ensures |CommandOf(u, long)| + 2 <= CallbackQueue.PIPE_BUF && |CommandOf(u, long)| <= 2096
  {
    ArgsMatchFormat(u);
    EncodeLength(FormatOf(u), ArgsOf(u), long);
    var args := ArgsOf(u);
    FieldBytesCount(args, if u.MessageSent? then 6 else 5);
  }

  lemma {:induction false} FieldBytesCount(args: seq<Arg>, blob: nat)
    requires blob < |args| && args[blob].Blob? && forall i :: 0 <= i < |args| && i != blob ==> args[i].Num?
    ensures FieldBytes(args) == 4 * (|args| - 1) + args[blob].size + 2
  {
    if blob == 0 {
      AllNumbers(args[1..]);
    } else {
      FieldBytesCount(args[1..], blob - 1);
    }
  }

  lemma {:induction false} AllNumbers(args: seq<Arg>)
    requires forall i :: 0 <= i < |args| ==> args[i].Num?
    ensures FieldBytes(args) == 4 * |args|
  {
    if args != [] {
      AllNumbers(args[1..]);
    }
  }

  function QueuedCommand(u: Upcall, long: bool): CallbackQueue.Command
    requires Deliverable(u, long)
  {
    CommandFitsQueue(u, long);
    CommandOf(u, long)
  }

  function CommandsOf(us: seq<Upcall>, long: bool): (cs: seq<CallbackQueue.Command>)
    requires forall i :: 0 <= i < |us| ==> Deliverable(us[i], long)
    ensures |cs| == |us| && forall i :: 0 <= i < |us| ==> Deliverable(us[i], long) && cs[i] == CommandOf(us[i], long)
  {
    if us == [] then [] else [QueuedCommand(us[0], long)] + CommandsOf(us[1..], long)
  }

  /** The dispatcher applied to a drained command, with the rest of the read buffer still behind it. */
  function Handled(command: seq<byte>, behind: seq<byte>, long: bool): Option<Upcall>
    requires |command| >= 2
  {
    Dispatched(FetchHighLow16(command), command[2..] + behind, long)
  }

  /**
   * The pipeline is the identity: any list of message indications, each within the mode's payload
   * limit, that is encoded, framed, queued and drained reaches the application unchanged and in
   * order, whatever bytes lie behind each command in the buffer.
   */
  lemma PipelineIsIdentity(us: seq<Upcall>, long: bool, i: nat, behind: seq<byte>)
    requires (forall k :: 0 <= k < |us| ==> Deliverable(us[k], long)) && i < |us|
    ensures var drained := CallbackQueue.Parse(CallbackQueue.Frames(CommandsOf(us, long)));
            drained.Some? && |drained.value| == |us| && |drained.value[i]| >= 2 &&
            Handled(drained.value[i], behind, long) == Some(us[i])
  {
    var cs := CommandsOf(us, long);
    CallbackQueue.ParseFrames(cs);
    var c := CommandOf(us[i], long);
    assert c[..2] == HighLow16(IdOf(us[i])) && c[2..] == Params(us[i], long);
    StoreFetch16(IdOf(us[i]), c[..2]);
    assert FetchHighLow16(c) == FetchHighLow16(c[..2]);
    HandlerReads(us[i], behind, long);
  }
}

/** API commands as clients of the serializer and the transport, and how the NCP reads them. */
module NcpCommands {
  import opened ByteUtilities
  import opened CspFormat
  import opened CspSerializer
  import opened EmberTypes

  const MESSAGE_SEND_ID: u16 := 0x6916
  const SET_LONG_MESSAGES_ID: u16 := 0x6956
  const MESSAGE_SEND_FORMAT := "vuulbu"
  const SET_LONG_MESSAGES_FORMAT := "u"

  datatype ApiCall =
    | SetLongMessages(useLong: bool)
    | MessageSend(destination: u16, endpoint: byte, tag: byte, message: seq<byte>, options: byte)

  predicate ValidCall(c: ApiCall) {
    c.MessageSend? ==> |c.message| < 0x1_0000
  }

  function IdOf(c: ApiCall): u16 {
    if c.SetLongMessages? then SET_LONG_MESSAGES_ID else MESSAGE_SEND_ID
  }

  function FormatOf(c: ApiCall): string {
    if c.SetLongMessages? then SET_LONG_MESSAGES_FORMAT else MESSAGE_SEND_FORMAT
  }

  function ArgsOf(c: ApiCall): (args: seq<Arg>)
    requires ValidCall(c)
    ensures ArgsMatch(FormatOf(c), args) && ValidFormat(FormatOf(c))
  {
    match c
    case SetLongMessages(useLong) => [Num(if useLong then 1 else 0)]
    case MessageSend(destination, endpoint, tag, message, options) =>
      [Num(destination), Num(endpoint), Num(tag), Num(|message|), Blob(Some(message), |message|), Num(options)]
  }

  /** A request as it goes to the NCP. */
  function Request(c: ApiCall, long: bool): (r: seq<byte>)
    requires ValidCall(c)
    ensures |r| >= 2
  {
    HighLow16(IdOf(c)) + Encode(FormatOf(c), ArgsOf(c), long)
  }

  // ---- The two calls ----

  /** The status a response carries behind its identifier. */
  function StatusOf(response: seq<byte>): byte
    requires |response| >= 3
  {
    response[2]
  }

  /**
   * How a call ends: with the request that was transmitted and the status decoded, at the overflow
   * assertion, or in the undefined behaviour of a command written past its buffer unnoticed.
   */
  datatype Outcome = Returned(request: seq<byte>, status: byte) | Stopped | Overran

  /** A command that leaves its buffer and passes the check for that, which looks at 16 bits. */
  predicate Escapes(c: ApiCall, long: bool)
    requires ValidCall(c)
  {
    |Request(c, long)| > MAX_STACK_API_COMMAND_SIZE && |Request(c, long)| % 0x1_0000 <= MAX_STACK_API_COMMAND_SIZE
  }

  class NcpClient {
    const serializer: Serializer
    const apiCommandData: array<byte>

    ghost predicate Valid() {
      apiCommandData.Length == MAX_STACK_API_COMMAND_SIZE
    }

    constructor (serializer: Serializer)
      ensures Valid() && this.serializer == serializer && fresh(apiCommandData)
    {
      this.serializer := serializer;
      apiCommandData := new byte[MAX_STACK_API_COMMAND_SIZE](_ => 0);
    }

    /**
     * What every API call does between taking and releasing the mutex: format into the shared buffer,
     * send, wait, copy the response buffer, decode the status. `responseBuffer` is what that buffer
     * holds when it is copied: the answer, unless the poll thread has written over it by then.
     */
    method Blocking(call: ApiCall, responseBuffer: seq<byte>) returns (r: Outcome)
      requires Valid() && ValidCall(call) && |responseBuffer| >= MAX_STACK_API_COMMAND_SIZE
      modifies apiCommandData
      ensures r.Returned? <==> |Request(call, serializer.useLongMessageLength)| <= MAX_STACK_API_COMMAND_SIZE
      ensures r.Overran? <==> Escapes(call, serializer.useLongMessageLength)
      ensures r.Returned? ==>
                r.request == Request(call, serializer.useLongMessageLength) && r.status == StatusOf(responseBuffer) &&
                apiCommandData[..] == responseBuffer[..MAX_STACK_API_COMMAND_SIZE]
    {
      var formatted := Format(call);
      if formatted.Overflow? {
        return Stopped;
      }
      if formatted.Overrun? {
        return Overran;
      }
      var request := apiCommandData[..formatted.n];
      CopyInto(apiCommandData, 0, responseBuffer[..MAX_STACK_API_COMMAND_SIZE]);
      var status := FetchStatus();
      return Returned(request, status);
    }

    method Format(call: ApiCall) returns (r: Formatted)
      requires Valid() && ValidCall(call)
      modifies apiCommandData
      ensures !r.InvalidFormat?
      ensures var total := |Request(call, serializer.useLongMessageLength)|;
              (r.Length? <==> total <= MAX_STACK_API_COMMAND_SIZE) &&
              (r.Overrun? <==> Escapes(call, serializer.useLongMessageLength)) &&
              (r.Length? ==> r.n == total)
      ensures r.Length? ==> apiCommandData[..r.n] == Request(call, serializer.useLongMessageLength)
    {
      r := serializer.FormatResponseCommand(
        apiCommandData, MAX_STACK_API_COMMAND_SIZE, IdOf(call), FormatOf(call), ArgsOf(call));
    }

    /** Decodes the one-byte status behind the identifier of the response in the shared buffer. */
    method FetchStatus() returns (status: byte)
      requires Valid()
      ensures status == StatusOf(apiCommandData[..])
    {
      var params, dests := apiCommandData[2..], [Cell(false)];
      assert params[0] == apiCommandData[..][2];
      var outs := serializer.FetchParams(params, "u", dests);
      StatusDecodes(params, dests, serializer.useLongMessageLength);
      return outs.value[0].n;
    }

    /** Eleven bytes around the message in long mode, nine in short mode, and a 16-bit check. */
    method EmberMessageSend(destination: u16, endpoint: byte, messageTag: byte, message: seq<byte>, options: byte,
                            responseBuffer: seq<byte>) returns (r: Outcome)
      requires Valid() && |message| < 0x1_0000 && |responseBuffer| >= MAX_STACK_API_COMMAND_SIZE
      modifies apiCommandData
      ensures r.Returned? <==> |message| <= if serializer.useLongMessageLength then 2085 else 2087
      ensures r.Overran? <==> |message| >= if serializer.useLongMessageLength then 65525 else 65527
      ensures r.Returned? ==>
                r.request
                == Request(MessageSend(destination, endpoint, messageTag, message, options),
                           serializer.useLongMessageLength) &&
                r.status == StatusOf(responseBuffer)
    {
      MessageSendSize(MessageSend(destination, endpoint, messageTag, message, options),
                      serializer.useLongMessageLength);
      r := Blocking(MessageSend(destination, endpoint, messageTag, message, options), responseBuffer);
    }

    /** The mode changes exactly when the status decoded is success, whoever wrote it. */
    method EmberNcpSetLongMessagesUse(useLongMessages: bool, responseBuffer: seq<byte>) returns (status: byte)
      requires Valid() && |responseBuffer| >= MAX_STACK_API_COMMAND_SIZE
      modifies apiCommandData, serializer
      ensures status == StatusOf(responseBuffer)
      ensures serializer.useLongMessageLength ==
              if status == 0 then useLongMessages else old(serializer.useLongMessageLength)
    {
      OneByteRequest(useLongMessages, serializer.useLongMessageLength);
      var r := Blocking(SetLongMessages(useLongMessages), responseBuffer);
      status := r.status;
      if status == EMBER_SUCCESS {
        serializer.SetLongMessageUse(useLongMessages);
      }
    }
  }

  lemma MessageSendSize(c: ApiCall, long: bool)
    requires ValidCall(c) && c.MessageSend?
    ensures |Request(c, long)| == |c.message| + if long then 11 else 9
  {
    var args := ArgsOf(c);
    assert |c.message| % 0x1_0000 == |c.message|;
    FieldByField("vuulbu", args, long);
    FieldByField("uulbu", args[1..], long);
    FieldByField("ulbu", args[2..], long);
    FieldByField("lbu", args[3..], long);
    FieldByField("bu", args[4..], long);
    FieldByField("u", args[5..], long);
  }

  lemma FieldByField(format: string, args: seq<Arg>, long: bool)
    requires ValidFormat(format) && ArgsMatch(format, args) && format != ""
    ensures |Encode(format, args, long)| == |Field(format[0], args[0], long)| + |Encode(format[1..], args[1..], long)|
  {
  }

  /** The longest messages pass the overflow check: their command's length wraps around to a small one. */
  lemma EscapesExactly(c: ApiCall, long: bool)
    requires ValidCall(c)
    ensures Escapes(c, long) <==> c.MessageSend? && |c.message| >= if long then 65525 else 65527
  {
    if c.MessageSend? {
      MessageSendSize(c, long);
    } else {
      OneByteRequest(c.useLong, long);
    }
  }

  /** 65535 bytes in long mode make a command of 65546 bytes, taken for one of 10. */
  lemma LongestMessageEscapes()
    ensures var c := MessageSend(0, 0, 0, Zeros(0xFFFF), 0);
            Escapes(c, true) && |Request(c, true)| == 65546 && |Request(c, true)| % 0x1_0000 == 10
  {
    MessageSendSize(MessageSend(0, 0, 0, Zeros(0xFFFF), 0), true);
  }

  lemma OneByteRequest(useLong: bool, long: bool)
    ensures |Request(SetLongMessages(useLong), long)| == 3
  {
    var args := ArgsOf(SetLongMessages(useLong));
    assert "u"[1..] == "" && args[1..] == [];
    assert Encode("u", args, long) == Field('u', args[0], long) + Encode("u"[1..], args[1..], long);
  }

  lemma StatusDecodes(bytes: seq<byte>, dests: seq<Dest>, long: bool)
    requires dests == [Cell(false)] && |bytes| >= 1
    ensures Decode("u", dests, bytes, long) == Some([Number(bytes[0])])
  {
    DecodeStep("u", dests, bytes, long, Some((Number(bytes[0]), 1)));
    assert "u"[1..] == "" && dests[1..] == [];
    assert [Number(bytes[0])] + [] == [Number(bytes[0])];
  }

  // ---- How the NCP reads a request ----

  function NcpDests(c: ApiCall): (dests: seq<Dest>)
    ensures DestsMatch(FormatOf(c), dests)
  {
    if c.SetLongMessages? then [Cell(false)]
    else [Cell(false), Cell(false), Cell(false), Cell(false), Bytes(false, false, 0xFFFF), Cell(false)]
  }

  /** The request `bytes`, known by its identifier to be of the kind of `c`, read in a mode. */
  function ReadAs(c: ApiCall, params: seq<byte>, long: bool): Option<ApiCall> {
    match Decode(FormatOf(c), NcpDests(c), params, long)
    case None => None
    case Some(o) =>
      if c.SetLongMessages? then Some(SetLongMessages(o[0].Number? && o[0].n != 0))
      else if o[0].Number? && o[0].n < 0x1_0000 && o[1].Number? && o[1].n < 0x100 && o[2].Number? && o[2].n < 0x100 &&
              o[4].Data? && o[4].length == |o[4].copied| && o[5].Number? && o[5].n < 0x100 then
        Some(MessageSend(o[0].n, o[1].n, o[2].n, o[4].copied, o[5].n))
      else None
  }

  function NcpReads(bytes: seq<byte>, long: bool): Option<ApiCall>
    requires |bytes| >= 2
  {
    var id := FetchHighLow16(bytes);
    if id == SET_LONG_MESSAGES_ID then ReadAs(SetLongMessages(false), bytes[2..], long)
    else if id == MESSAGE_SEND_ID then ReadAs(MessageSend(0, 0, 0, [], 0), bytes[2..], long)
    else None
  }

  /** The longest message a mode can express. */
  predicate Expressible(c: ApiCall, long: bool) {
    c.MessageSend? ==> |c.message| < if long then 0x1_0000 else 0x100
  }

  /** Every field of an expressible call decodes to itself. */
  lemma FieldsComeBack(c: ApiCall, long: bool, outs: Option<seq<Out>>)
    requires ValidCall(c) && Expressible(c, long)
    requires outs == Decode(FormatOf(c), NcpDests(c), Encode(FormatOf(c), ArgsOf(c), long), long)
    ensures outs.Some? && |outs.value| == |ArgsOf(c)| && AllSame(FormatOf(c), FormatOf(c), ArgsOf(c), outs.value)
  {
    var args := ArgsOf(c);
    AllFitAt(FormatOf(c), args, long);
    RoundTrip(FormatOf(c), FormatOf(c), args, NcpDests(c), [], long);
    assert Encode(FormatOf(c), args, long) + [] == Encode(FormatOf(c), args, long);
  }

  lemma SameMode(c: ApiCall, long: bool)
    requires ValidCall(c) && Expressible(c, long)
    ensures ReadAs(c, Encode(FormatOf(c), ArgsOf(c), long), long) == Some(c)
  {
    var args, outs := ArgsOf(c), Decode(FormatOf(c), NcpDests(c), Encode(FormatOf(c), ArgsOf(c), long), long);
    FieldsComeBack(c, long, outs);
    SameAt(FormatOf(c), FormatOf(c), args, outs.value, 0);
    if c.MessageSend? {
      SameAt(FormatOf(c), FormatOf(c), args, outs.value, 1);
      SameAt(FormatOf(c), FormatOf(c), args, outs.value, 2);
      SameAt(FormatOf(c), FormatOf(c), args, outs.value, 4);
      SameAt(FormatOf(c), FormatOf(c), args, outs.value, 5);
      assert Content(args[4]) == c.message;
    }
  }

  lemma TooLong(c: ApiCall, params: seq<byte>)
    requires ValidCall(c) && !Expressible(c, false)
    ensures ReadAs(c, params, false) != Some(c)
  {
    if Decode(FormatOf(c), NcpDests(c), params, false).Some? {
      BlobBounded(FormatOf(c), NcpDests(c), params, false, 4);
    }
  }

  /** In equal modes the NCP reads exactly the call that was made, if and only if the mode can express it. */
  lemma RequestReadBack(c: ApiCall, long: bool)
    requires ValidCall(c)
    ensures NcpReads(Request(c, long), long) == Some(c) <==> Expressible(c, long)
    ensures c.MessageSend? && NcpReads(Request(c, long), long).Some? ==>
            NcpReads(Request(c, long), long).value.MessageSend?
  {
    var bytes := Request(c, long);
    assert bytes[..2] == HighLow16(IdOf(c)) && bytes[2..] == Encode(FormatOf(c), ArgsOf(c), long);
    StoreFetch16(IdOf(c), bytes[..2]);
    assert FetchHighLow16(bytes) == FetchHighLow16(bytes[..2]);
    if Expressible(c, long) {
      SameMode(c, long);
    } else {
      TooLong(c, bytes[2..]);
    }
  }

  /** A blob written in long mode and read in short mode survives only if it is empty. */
  lemma BlobAcrossModes(a: Arg, d: Dest)
    requires ArgMatches('b', a) && DestMatches('b', d) && Roomy(a, d) && a.size < 0x1_0000
    ensures var r := DecodeField('b', d, Field('b', a, true), false);
            (r.Some? && Same('b', a, r.value.0)) <==> a.size == 0
  {
    assert a.size % 0x1_0000 == a.size;
    assert Field('b', a, true)[0] == a.size / 0x100;
  }
}

/** What each indication of the NCP becomes, from the bytes of its parameters to the callback's arguments. */
module IndicationBytes {
  import opened ByteUtilities
  import opened CspFormat
  import opened HandlerFields
  import opened MacAddresses
  import opened WireBytes
  import opened Indications
  import B = Beacons
  import M = MacMessages

  // ---- The plain handlers ----

  lemma ByteOff(format: string, dests: seq<Dest>, b: byte, rest: seq<byte>, long: bool)
    requires DestsMatch(format, dests) && format != "" && format[0] == 'u' && dests[0] == Value
    ensures Decode(format, dests, [b] + rest, long)
            == After([Number(b)], Decode(format[1..], dests[1..], rest, long))
  {
    assert ([b] + rest)[1..] == rest;
    DecodeStep(format, dests, [b] + rest, long, Some((Number(b), 1)));
  }

  lemma HalfOff(format: string, dests: seq<Dest>, hi: byte, lo: byte, rest: seq<byte>, long: bool)
    requires DestsMatch(format, dests) && format != "" && format[0] == 'v' && dests[0] == Value
    ensures Decode(format, dests, [hi, lo] + rest, long)
            == After([Number(hi as int * 0x100 + lo)], Decode(format[1..], dests[1..], rest, long))
  {
    assert ([hi, lo] + rest)[2..] == rest;
    DecodeStep(format, dests, [hi, lo] + rest, long, Some((Number(hi as int * 0x100 + lo), 2)));
  }

  /** Stack status and the end of a frequency-hopping start: the first byte. */
  lemma StatusHandlers(status: byte, rest: seq<byte>, long: bool)
    ensures Dispatched(0x6300, [status] + rest, long) == Some(Other(0x6300, [Number(status)]))
    ensures Dispatched(0x630A, [status] + rest, long) == Some(Other(0x630A, [Number(status)]))
  {
    PlainDispatched(0x6300, [status] + rest, long);
    PlainDispatched(0x630A, [status] + rest, long);
    ByteOff("u", Values("u"), status, rest, long);
    assert [Number(status)] + [] == [Number(status)];
  }

  /** A child has joined: its type in the first byte, its identifier in the next two. */
  lemma ChildJoinHandler(nodeType: byte, hi: byte, lo: byte, rest: seq<byte>, long: bool)
    ensures Dispatched(0x6301, [nodeType, hi, lo] + rest, long)
            == Some(Other(0x6301, [Number(nodeType), Number(hi as int * 0x100 + lo)]))
  {
    var params := [nodeType, hi, lo] + rest;
    PlainDispatched(0x6301, params, long);
    assert params == [nodeType] + ([hi, lo] + rest);
    ByteOff("uv", Values("uv"), nodeType, [hi, lo] + rest, long);
    HalfOff("uv"[1..], Values("uv")[1..], hi, lo, rest, long);
    assert "uv"[1..][1..] == "";
    var n := Number(hi as int * 0x100 + lo);
    assert [n] + [] == [n] && [Number(nodeType)] + [n] == [Number(nodeType), n];
  }

  /** The end of an energy scan: mean, minimum, maximum, and the variance in two bytes. */
  lemma EnergyScanHandler(mean: byte, min: byte, max: byte, hi: byte, lo: byte, rest: seq<byte>, long: bool)
    ensures Dispatched(0x6306, [mean, min, max, hi, lo] + rest, long)
            == Some(Other(0x6306, [Number(mean), Number(min), Number(max), Number(hi as int * 0x100 + lo)]))
  {
    var params := [mean, min, max, hi, lo] + rest;
    PlainDispatched(0x6306, params, long);
    assert params == [mean] + ([min] + ([max] + ([hi, lo] + rest)));
    var f, d := "uuuv", Values("uuuv");
    ByteOff(f, d, mean, [min] + ([max] + ([hi, lo] + rest)), long);
    ByteOff(f[1..], d[1..], min, [max] + ([hi, lo] + rest), long);
    ByteOff(f[1..][1..], d[1..][1..], max, [hi, lo] + rest, long);
    HalfOff(f[1..][1..][1..], d[1..][1..][1..], hi, lo, rest, long);
    assert f[1..][1..][1..][1..] == "";
    var n := Number(hi as int * 0x100 + lo);
    assert [n] + [] == [n];
    assert [Number(mean)] + ([Number(min)] + ([Number(max)] + [n])) == [Number(mean), Number(min), Number(max), n];
  }

  /** A radio that needs calibrating and the end of an active scan: nothing. */
  lemma EmptyHandlers(params: seq<byte>, long: bool)
    ensures Dispatched(0x6330, params, long) == Some(Other(0x6330, []))
    ensures Dispatched(0x6305, params, long) == Some(Other(0x6305, []))
  {
    PlainDispatched(0x6330, params, long);
    PlainDispatched(0x6305, params, long);
  }

  /** Any identifier that is none of the eleven is fatal. */
  lemma OthersAreFatal(id: u16, params: seq<byte>, long: bool)
    requires id !in {0x6300, 0x6301, 0x6302, 0x6303, 0x6305, 0x6306, 0x630A, 0x630B, 0x630C, 0x6330, 0x6339}
    ensures Dispatched(id, params, long) == None
  {
  }

  // ---- The message handlers ----

  function SentParts(status: byte, m: OutgoingMessage, long: bool): seq<seq<byte>> {
    [[status], [m.options], Half(m.destination), [m.endpoint], [m.tag], Kept(m.length, long),
     Kept(m.length, long) + m.payload, [m.ackRssi], Word(m.timestamp)]
  }

  lemma SentPartsWritten(status: byte, m: OutgoingMessage, long: bool)
    requires m.length == |m.payload|
    ensures PartsOf("uuvuulbuw", MessageSentArgs(status, m), SentParts(status, m, long), long)
  {
    var args, parts := MessageSentArgs(status, m), SentParts(status, m, long);
    forall i | 0 <= i < 9 ensures IsPart("uuvuulbuw"[i], args[i], parts[i], long) {
      match i
      case 0 => ByteField(status, long);
      case 1 => ByteField(m.options, long);
      case 2 => HalfField(m.destination, long);
      case 3 => ByteField(m.endpoint, long);
      case 4 => ByteField(m.tag, long);
      case 5 => LengthField(m.length, long);
      case 6 => BlobField(m.payload, long);
      case 7 => ByteField(m.ackRssi, long);
      case _ => WordField(m.timestamp, long);
    }
  }

  /** A message that was sent: status, options, destination, endpoint, tag, length, payload, RSSI of the ACK, time. */
  lemma MessageSentHandler(status: byte, m: OutgoingMessage, rest: seq<byte>, long: bool)
    requires m.length == |m.payload| <= if long then 2048 else 255
    ensures Dispatched(0x6302, Flat(SentParts(status, m, long)) + rest, long) == Some(MessageSent(status, m))
  {
    SentPartsWritten(status, m, long);
    EncodeIsFlat("uuvuulbuw", MessageSentArgs(status, m), SentParts(status, m, long), long);
    HandlerReads(MessageSent(status, m), rest, long);
  }

  function ReceivedParts(m: IncomingMessage, long: bool): seq<seq<byte>> {
    [[m.options], Half(m.source), [m.endpoint], [m.rssi], Kept(m.length, long), Kept(m.length, long) + m.payload,
     Word(m.timestamp), [m.lqi]]
  }

  lemma ReceivedPartsWritten(m: IncomingMessage, long: bool)
    requires m.length == |m.payload|
    ensures PartsOf("uvuulbwu", MessageReceivedArgs(m), ReceivedParts(m, long), long)
  {
    var args, parts := MessageReceivedArgs(m), ReceivedParts(m, long);
    forall i | 0 <= i < 8 ensures IsPart("uvuulbwu"[i], args[i], parts[i], long) {
      match i
      case 0 => ByteField(m.options, long);
      case 1 => HalfField(m.source, long);
      case 2 => ByteField(m.endpoint, long);
      case 3 => ByteField(m.rssi, long);
      case 4 => LengthField(m.length, long);
      case 5 => BlobField(m.payload, long);
      case 6 => WordField(m.timestamp, long);
      case _ => ByteField(m.lqi, long);
    }
  }

  /** A message that came in: options, source, endpoint, RSSI, length, payload, time, link quality. */
  lemma IncomingMessageHandler(m: IncomingMessage, rest: seq<byte>, long: bool)
    requires m.length == |m.payload| <= if long then 2048 else 255
    ensures Dispatched(0x6303, Flat(ReceivedParts(m, long)) + rest, long) == Some(MessageReceived(m))
  {
    ReceivedPartsWritten(m, long);
    EncodeIsFlat("uvuulbwu", MessageReceivedArgs(m), ReceivedParts(m, long), long);
    HandlerReads(MessageReceived(m), rest, long);
  }

  /** A boolean is true for every byte but zero. */
  lemma NonZeroIsTrue(n: byte)
    ensures BitOf(Number(n)) <==> n != 0
  {
  }

  // ---- Beacons ----

  function BeaconParts(b: B.Beacon, long: bool): seq<seq<byte>>
    requires B.Within(b)
  {
    [Half(b.panId), Half(b.source.short), Kept(|b.source.long|, long) + b.source.long, [b.source.mode], [b.rssi],
     Bit(b.permitJoining), [|b.fields|], Kept(|b.fields|, long) + b.fields,
     [|b.payload|], Kept(|b.payload|, long) + b.payload]
  }

  lemma BeaconPartsWritten(b: B.Beacon, long: bool)
    requires B.Within(b)
    ensures PartsOf("vvbuuuubub", B.BeaconArgs(b), BeaconParts(b, long), long)
  {
    var args, parts := B.BeaconArgs(b), BeaconParts(b, long);
    forall i | 0 <= i < 10 ensures IsPart("vvbuuuubub"[i], args[i], parts[i], long) {
      match i
      case 0 => HalfField(b.panId, long);
      case 1 => HalfField(b.source.short, long);
      case 2 => BlobField(b.source.long, long);
      case 3 => ByteField(b.source.mode, long);
      case 4 => ByteField(b.rssi, long);
      case 5 => ByteField(if b.permitJoining then 1 else 0, long);
      case 6 => ByteField(|b.fields|, long);
      case 7 => BlobField(b.fields, long);
      case 8 => ByteField(|b.payload|, long);
      case _ => BlobField(b.payload, long);
    }
  }

  /** A beacon with a full long address, which is what the callback finds in the union. */
  lemma BeaconHandler(b: B.Beacon, rest: seq<byte>, long: bool)
    requires |b.source.long| == 8 && |b.fields| <= 84 && |b.payload| <= 30
    ensures Dispatched(0x6339, Flat(BeaconParts(b, long)) + rest, long)
            == Some(BeaconReceived(B.Upcall(b.panId, Union(b.source.long, b.source.mode), b.rssi, b.permitJoining,
                                            |b.fields|, |b.payload|)))
  {
    BeaconPartsWritten(b, long);
    EncodeIsFlat("vvbuuuubub", B.BeaconArgs(b), BeaconParts(b, long), long);
    B.BeaconReads(b, rest, long);
    FullLongForm(b.source);
  }

  lemma FullLongForm(a: Address)
    requires |a.long| == 8
    ensures InMemory(a) == Union(a.long, a.mode)
  {
    assert a.long + [] == a.long;
  }

  // ---- MAC messages ----

  /** The addressing fields: short form, long form and mode of both addresses, then the PANs. */
  function FrameParts(f: M.MacFrame<Address>, long: bool): (parts: seq<seq<byte>>)
    requires |f.source.long| == 8 && |f.dest.long| == 8
    ensures |parts| == 10
  {
    [Half(f.source.short), Kept(8, long) + f.source.long, [f.source.mode],
     Half(f.dest.short), Kept(8, long) + f.dest.long, [f.dest.mode],
     Half(f.sourcePanId), Half(f.destPanId), Bit(f.sourcePanIdSpecified), Bit(f.destPanIdSpecified)]
  }

  lemma FramePartsWritten(f: M.MacFrame<Address>, long: bool)
    requires |f.source.long| == 8 && |f.dest.long| == 8
    ensures PartsOf("vbuvbuvvuu", M.FrameArgs(f), FrameParts(f, long), long)
  {
    var args, parts := M.FrameArgs(f), FrameParts(f, long);
    forall i | 0 <= i < 10 ensures IsPart("vbuvbuvvuu"[i], args[i], parts[i], long) {
      match i
      case 0 => HalfField(f.source.short, long);
      case 1 => BlobField(f.source.long, long);
      case 2 => ByteField(f.source.mode, long);
      case 3 => HalfField(f.dest.short, long);
      case 4 => BlobField(f.dest.long, long);
      case 5 => ByteField(f.dest.mode, long);
      case 6 => HalfField(f.sourcePanId, long);
      case 7 => HalfField(f.destPanId, long);
      case 8 => ByteField(if f.sourcePanIdSpecified then 1 else 0, long);
      case _ => ByteField(if f.destPanIdSpecified then 1 else 0, long);
    }
  }

  /** The long forms are what the callback finds in the unions. */
  function FrameSeen(f: M.MacFrame<Address>): M.MacFrame<Union> {
    M.MacFrame(Union(f.source.long, f.source.mode), Union(f.dest.long, f.dest.mode), f.sourcePanId, f.destPanId,
               f.sourcePanIdSpecified, f.destPanIdSpecified)
  }

  lemma FrameIsSeen(f: M.MacFrame<Address>)
    requires |f.source.long| == 8 && |f.dest.long| == 8
    ensures M.FrameInMemory(f) == FrameSeen(f)
  {
    FullLongForm(f.source);
    FullLongForm(f.dest);
  }

  lemma PartsConcat(f: string, a: seq<Arg>, p: seq<seq<byte>>, g: string, b: seq<Arg>, q: seq<seq<byte>>, long: bool)
    requires PartsOf(f, a, p, long) && PartsOf(g, b, q, long)
    ensures PartsOf(f + g, a + b, p + q, long)
  {
    forall i | 0 <= i < |f + g| ensures IsPart((f + g)[i], (a + b)[i], (p + q)[i], long) {
      if i < |f| {
        assert IsPart(f[i], a[i], p[i], long);
      } else {
        assert IsPart(g[i - |f|], b[i - |f|], q[i - |f|], long);
      }
    }
  }

  lemma ThreePieces(f: string, a: seq<Arg>, p: seq<seq<byte>>, g: string, b: seq<Arg>, q: seq<seq<byte>>,
                    h: string, c: seq<Arg>, r: seq<seq<byte>>, long: bool)
    requires PartsOf(f, a, p, long) && PartsOf(g, b, q, long) && PartsOf(h, c, r, long)
    ensures var format, args := f + g + h, a + b + c;
            ValidFormat(format) && ArgsMatch(format, args) && Encode(format, args, long) == Flat(p + q + r)
  {
    PartsConcat(f, a, p, g, b, q, long);
    PartsConcat(f + g, a + b, p + q, h, c, r, long);
    EncodeIsFlat(f + g + h, a + b + c, p + q + r, long);
  }

  function IncomingBack(m: M.IncomingMac<Address>, long: bool): seq<seq<byte>> {
    [[m.rssi], [m.lqi], Word(m.frameCounter), Kept(m.length, long), Kept(m.length, long) + m.payload,
     Word(m.timestamp)]
  }

  lemma IncomingBackWritten(m: M.IncomingMac<Address>, long: bool)
    requires m.length == |m.payload|
    ensures PartsOf("uuwlbw", M.IncomingRest(m), IncomingBack(m, long), long)
  {
    var args, parts := M.IncomingRest(m), IncomingBack(m, long);
    forall i | 0 <= i < 6 ensures IsPart("uuwlbw"[i], args[i], parts[i], long) {
      match i
      case 0 => ByteField(m.rssi, long);
      case 1 => ByteField(m.lqi, long);
      case 2 => WordField(m.frameCounter, long);
      case 3 => LengthField(m.length, long);
      case 4 => BlobField(m.payload, long);
      case _ => WordField(m.timestamp, long);
    }
  }

  /** A MAC message that came in: options, frame, RSSI, link quality, frame counter, length, payload, time. */
  lemma IncomingMacHandler(m: M.IncomingMac<Address>, rest: seq<byte>, long: bool)
    requires |m.frame.source.long| == 8 && |m.frame.dest.long| == 8
    requires m.length == |m.payload| <= if long then 2048 else 255
    ensures Dispatched(0x630B, Flat([[m.options]] + FrameParts(m.frame, long) + IncomingBack(m, long)) + rest, long)
            == Some(MacMessage(M.Received(
                 M.IncomingMac(m.options, FrameSeen(m.frame), m.rssi, m.lqi, m.frameCounter, m.length, m.payload,
                               m.timestamp))))
  {
    ByteField(m.options, long);
    FramePartsWritten(m.frame, long);
    IncomingBackWritten(m, long);
    ThreePieces("u", [Num(m.options)], [[m.options]], "vbuvbuvvuu", M.FrameArgs(m.frame), FrameParts(m.frame, long),
                "uuwlbw", M.IncomingRest(m), IncomingBack(m, long), long);
    FrameIsSeen(m.frame);
    M.ReportReads(M.Received(m), rest, long);
  }

  function SentBack(m: M.OutgoingMac<Address>, long: bool): seq<seq<byte>> {
    [[m.tag], Word(m.frameCounter), Kept(m.length, long), Kept(m.length, long) + m.payload, [m.ackRssi],
     Word(m.timestamp)]
  }

  lemma SentBackWritten(m: M.OutgoingMac<Address>, long: bool)
    requires m.length == |m.payload|
    ensures PartsOf("uwlbuw", M.SentRest(m), SentBack(m, long), long)
  {
    var args, parts := M.SentRest(m), SentBack(m, long);
    forall i | 0 <= i < 6 ensures IsPart("uwlbuw"[i], args[i], parts[i], long) {
      match i
      case 0 => ByteField(m.tag, long);
      case 1 => WordField(m.frameCounter, long);
      case 2 => LengthField(m.length, long);
      case 3 => BlobField(m.payload, long);
      case 4 => ByteField(m.ackRssi, long);
      case _ => WordField(m.timestamp, long);
    }
  }

  /**
   * A MAC message that was sent: status, options, frame, tag, frame counter, length, payload, RSSI of the
   * ACK, time.
   */
  lemma MacSentHandler(status: byte, m: M.OutgoingMac<Address>, rest: seq<byte>, long: bool)
    requires |m.frame.source.long| == 8 && |m.frame.dest.long| == 8
    requires m.length == |m.payload| <= if long then 2048 else 255
    ensures Dispatched(0x630C, Flat([[status], [m.options]] + FrameParts(m.frame, long) + SentBack(m, long)) + rest,
                       long)
            == Some(MacMessage(M.Sent(status,
                 M.OutgoingMac(m.options, FrameSeen(m.frame), m.tag, m.frameCounter, m.length, m.payload, m.ackRssi,
                               m.timestamp))))
  {
    ByteField(status, long);
    ByteField(m.options, long);
    FramePartsWritten(m.frame, long);
    SentBackWritten(m, long);
    ThreePieces("uu", [Num(status), Num(m.options)], [[status], [m.options]], "vbuvbuvvuu", M.FrameArgs(m.frame),
                FrameParts(m.frame, long), "uwlbuw", M.SentRest(m), SentBack(m, long), long);
    FrameIsSeen(m.frame);
    M.ReportReads(M.Sent(status, m), rest, long);
  }
}

/** The two MAC message handlers of csp-command-callbacks.c. */
module MacMessages {
  import opened ByteUtilities
  import opened CspFormat
  import opened HandlerFields
  import opened MacAddresses

  const FRAME_FORMAT := "vbuvbuvvuu"
  const INCOMING_MAC_FORMAT := "u" + FRAME_FORMAT + "uuwlbw"
  const MAC_SENT_FORMAT := "uu" + FRAME_FORMAT + "uwlbuw"

  /** The addressing fields of a frame, with its addresses as on the wire or as in memory. */
  datatype MacFrame<A> = MacFrame(
    source: A, dest: A, sourcePanId: u16, destPanId: u16, sourcePanIdSpecified: bool, destPanIdSpecified: bool)

  datatype IncomingMac<A> = IncomingMac(
    options: byte, frame: MacFrame<A>, rssi: byte, lqi: byte, frameCounter: u32,
    length: u16, payload: seq<byte>, timestamp: u32)

  datatype OutgoingMac<A> = OutgoingMac(
    options: byte, frame: MacFrame<A>, tag: byte, frameCounter: u32,
    length: u16, payload: seq<byte>, ackRssi: byte, timestamp: u32)

  /** What the NCP reports, and what a callback gets, with the status of a sent message. */
  datatype Report<A> =
    | Received(incoming: IncomingMac<A>)
    | Sent(status: byte, outgoing: OutgoingMac<A>)

  // ---- What the NCP writes ----

  function FrameArgs(f: MacFrame<Address>): (args: seq<Arg>)
    ensures |args| == 10
  {
    [Num(f.source.short), BlobArg(f.source.long), Num(f.source.mode),
     Num(f.dest.short), BlobArg(f.dest.long), Num(f.dest.mode),
     Num(f.sourcePanId), Num(f.destPanId), BitArg(f.sourcePanIdSpecified), BitArg(f.destPanIdSpecified)]
  }

  function IncomingRest(m: IncomingMac<Address>): (args: seq<Arg>)
    ensures |args| == 6
  {
    [Num(m.rssi), Num(m.lqi), Num(m.frameCounter), Num(m.length), BlobArg(m.payload), Num(m.timestamp)]
  }

  function SentRest(m: OutgoingMac<Address>): (args: seq<Arg>)
    ensures |args| == 6
  {
    [Num(m.tag), Num(m.frameCounter), Num(m.length), BlobArg(m.payload), Num(m.ackRssi), Num(m.timestamp)]
  }

  function IncomingArgs(m: IncomingMac<Address>): seq<Arg> {
    [Num(m.options)] + FrameArgs(m.frame) + IncomingRest(m)
  }

  function SentArgs(status: byte, m: OutgoingMac<Address>): seq<Arg> {
    [Num(status), Num(m.options)] + FrameArgs(m.frame) + SentRest(m)
  }

  function FormatOf<A>(r: Report<A>): string {
    if r.Received? then INCOMING_MAC_FORMAT else MAC_SENT_FORMAT
  }

  function ArgsOf(r: Report<Address>): (args: seq<Arg>)
    ensures |args| == |FormatOf(r)|
  {
    match r
    case Received(m) => IncomingArgs(m)
    case Sent(status, m) => SentArgs(status, m)
  }

  /** Where the frame's ten fields begin. */
  function FrameStart<A>(r: Report<A>): nat {
    if r.Received? then 1 else 2
  }

  function FrameOf<A>(r: Report<A>): MacFrame<A> {
    match r
    case Received(m) => m.frame
    case Sent(_, m) => m.frame
  }

  function PayloadOf<A>(r: Report<A>): seq<byte> {
    match r
    case Received(m) => m.payload
    case Sent(_, m) => m.payload
  }

  function LengthOf<A>(r: Report<A>): u16 {
    match r
    case Received(m) => m.length
    case Sent(_, m) => m.length
  }

  // ---- What the handlers read into ----

  const FrameDests: seq<Dest> :=
    [Value, LongAddressDest, Value, Value, LongAddressDest, Value, Value, Value, Value, Value]

  const IncomingDests: seq<Dest> := [Value] + FrameDests + [Value, Value, Value, Value, PayloadDest, Value]
  const SentDests: seq<Dest> := [Value, Value] + FrameDests + [Value, Value, Value, PayloadDest, Value, Value]

  lemma IncomingMatches()
    ensures ValidFormat(INCOMING_MAC_FORMAT) && DestsMatch(INCOMING_MAC_FORMAT, IncomingDests)
  {
  }

  lemma SentMatches()
    ensures ValidFormat(MAC_SENT_FORMAT) && DestsMatch(MAC_SENT_FORMAT, SentDests)
  {
  }

  /** The two addresses fetched, with their fields from output `at` on, are within their unions. */
  predicate AddressesInside(o: seq<Out>, at: nat)
    requires at + 10 <= |o|
  {
    |AddressAt(o, at).long| <= EUI64_SIZE && |AddressAt(o, at + 3).long| <= EUI64_SIZE
  }

  function FrameAt(o: seq<Out>, at: nat): MacFrame<Union>
    requires at + 10 <= |o| && AddressesInside(o, at)
  {
    MacFrame(InMemory(AddressAt(o, at)), InMemory(AddressAt(o, at + 3)), HalfOf(o[at + 6]), HalfOf(o[at + 7]),
             BitOf(o[at + 8]), BitOf(o[at + 9]))
  }

  /** The stores into the two unions of a frame, in the order of the format. */
  method StoreFrame(o: seq<Out>, at: nat) returns (f: MacFrame<Union>)
    requires at + 10 <= |o| && AddressesInside(o, at)
    ensures f == FrameAt(o, at)
  {
    var sourceAddr, destAddr := new byte[EUI64_SIZE], new byte[EUI64_SIZE];
    var source := StoreAddress(sourceAddr, AddressAt(o, at));
    var dest := StoreAddress(destAddr, AddressAt(o, at + 3));
    f := MacFrame(source, dest, HalfOf(o[at + 6]), HalfOf(o[at + 7]), BitOf(o[at + 8]), BitOf(o[at + 9]));
  }

  function ReceivedFrom(o: seq<Out>): Report<Union>
    requires |o| == 17 && AddressesInside(o, 1)
  {
    Received(IncomingMac(ByteOf(o[0]), FrameAt(o, 1), ByteOf(o[11]), ByteOf(o[12]), WordOf(o[13]),
                         FinalLength(o[14], o[15]), CopiedOf(o[15]), WordOf(o[16])))
  }

  function SentFrom(o: seq<Out>): Report<Union>
    requires |o| == 18 && AddressesInside(o, 2)
  {
    Sent(ByteOf(o[0]),
         OutgoingMac(ByteOf(o[1]), FrameAt(o, 2), ByteOf(o[12]), WordOf(o[13]),
                     FinalLength(o[14], o[15]), CopiedOf(o[15]), ByteOf(o[16]), WordOf(o[17])))
  }

  lemma DecodedInside(format: string, dests: seq<Dest>, params: seq<byte>, long: bool, at: nat)
    requires DestsMatch(format, dests) && Decode(format, dests, params, long).Some?
    requires at + 10 <= |format| && format[at + 1] == 'b' && format[at + 4] == 'b'
    requires dests[at + 1] == LongAddressDest && dests[at + 4] == LongAddressDest
    ensures AddressesInside(Decode(format, dests, params, long).value, at)
  {
    CopyBounded(format, dests, params, long, at + 1);
    CopyBounded(format, dests, params, long, at + 4);
  }

  function ReadReceived(params: seq<byte>, long: bool): Option<Report<Union>> {
    IncomingMatches();
    match Decode(INCOMING_MAC_FORMAT, IncomingDests, params, long)
    case None => None
    case Some(o) =>
      DecodedInside(INCOMING_MAC_FORMAT, IncomingDests, params, long, 1);
      Some(ReceivedFrom(o))
  }

  function ReadSent(params: seq<byte>, long: bool): Option<Report<Union>> {
    SentMatches();
    match Decode(MAC_SENT_FORMAT, SentDests, params, long)
    case None => None
    case Some(o) =>
      DecodedInside(MAC_SENT_FORMAT, SentDests, params, long, 2);
      Some(SentFrom(o))
  }

  function ReadReport(sent: bool, params: seq<byte>, long: bool): Option<Report<Union>> {
    if sent then ReadSent(params, long) else ReadReceived(params, long)
  }

  // ---- What survives ----

  /** Everything but the addresses is the same. */
  predicate SameFields(u: Report<Union>, r: Report<Address>) {
    var f, g := FrameOf(u), FrameOf(r);
    g == MacFrame(g.source, g.dest, f.sourcePanId, f.destPanId, f.sourcePanIdSpecified, f.destPanIdSpecified) &&
    match r
    case Received(m) =>
      u == Received(IncomingMac(m.options, f, m.rssi, m.lqi, m.frameCounter, m.length, m.payload, m.timestamp))
    case Sent(status, m) =>
      u == Sent(status, OutgoingMac(m.options, f, m.tag, m.frameCounter, m.length, m.payload, m.ackRssi, m.timestamp))
  }

  predicate Sees(u: Report<Union>, r: Report<Address>) {
    SameFields(u, r) && Holds(FrameOf(u).source, FrameOf(r).source) && Holds(FrameOf(u).dest, FrameOf(r).dest)
  }

  /** Both long addresses and the payload are within their arrays, and the length is the payload's. */
  predicate Within(r: Report<Address>, long: bool) {
    |FrameOf(r).source.long| <= EUI64_SIZE && |FrameOf(r).dest.long| <= EUI64_SIZE &&
    LengthOf(r) == |PayloadOf(r)| <= PayloadLimit(long)
  }

  lemma MatchConcat(f: string, a: seq<Arg>, g: string, b: seq<Arg>)
    requires ArgsMatch(f, a) && ArgsMatch(g, b)
    ensures ArgsMatch(f + g, a + b)
  {
  }

  lemma Matches(r: Report<Address>)
    ensures ValidFormat(FormatOf(r)) && ArgsMatch(FormatOf(r), ArgsOf(r))
  {
    IncomingMatches();
    SentMatches();
    match r {
      case Received(m) =>
        MatchConcat("u", [Num(m.options)], FRAME_FORMAT, FrameArgs(m.frame));
        MatchConcat("u" + FRAME_FORMAT, [Num(m.options)] + FrameArgs(m.frame), "uuwlbw", IncomingRest(m));
      case Sent(status, m) =>
        MatchConcat("uu", [Num(status), Num(m.options)], FRAME_FORMAT, FrameArgs(m.frame));
        MatchConcat("uu" + FRAME_FORMAT, [Num(status), Num(m.options)] + FrameArgs(m.frame), "uwlbuw", SentRest(m));
    }
  }

  /** The parameters of a MAC indication as the NCP writes them. */
  function Params(r: Report<Address>, long: bool): seq<byte> {
    Matches(r);
    Encode(FormatOf(r), ArgsOf(r), long)
  }

  function DestsOf<A>(r: Report<A>): seq<Dest> {
    if r.Received? then IncomingDests else SentDests
  }

  /** Each argument fits its field and its destination. */
  predicate Ready(format: string, args: seq<Arg>, dests: seq<Dest>, long: bool) {
    ValidFormat(format) && ArgsMatch(format, args) && |dests| == |args| &&
    forall i :: 0 <= i < |format| ==> Fits(format[i], args[i], long) && Roomy(args[i], dests[i])
  }

  lemma ReadyConcat(f: string, a: seq<Arg>, d: seq<Dest>, g: string, b: seq<Arg>, e: seq<Dest>, long: bool)
    requires Ready(f, a, d, long) && Ready(g, b, e, long)
    ensures Ready(f + g, a + b, d + e, long)
  {
  }

  lemma FrameReady(f: MacFrame<Address>, long: bool)
    requires |f.source.long| <= EUI64_SIZE && |f.dest.long| <= EUI64_SIZE
    ensures Ready(FRAME_FORMAT, FrameArgs(f), FrameDests, long)
  {
  }

  lemma AllReady(r: Report<Address>, long: bool)
    requires Within(r, long)
    ensures Ready(FormatOf(r), ArgsOf(r), DestsOf(r), long)
  {
    FrameReady(FrameOf(r), long);
    match r {
      case Received(m) =>
        var head := [Num(m.options)];
        var rest := [Value, Value, Value, Value, PayloadDest, Value];
        ReadyConcat("u", head, [Value], FRAME_FORMAT, FrameArgs(m.frame), FrameDests, long);
        ReadyConcat("u" + FRAME_FORMAT, head + FrameArgs(m.frame), [Value] + FrameDests,
                    "uuwlbw", IncomingRest(m), rest, long);
      case Sent(status, m) =>
        var head := [Num(status), Num(m.options)];
        var rest := [Value, Value, Value, PayloadDest, Value, Value];
        ReadyConcat("uu", head, [Value, Value], FRAME_FORMAT, FrameArgs(m.frame), FrameDests, long);
        ReadyConcat("uu" + FRAME_FORMAT, head + FrameArgs(m.frame), [Value, Value] + FrameDests,
                    "uwlbuw", SentRest(m), rest, long);
    }
  }

  /** The outputs are the arguments. */
  predicate AllAt(format: string, args: seq<Arg>, o: seq<Out>) {
    |o| == |args| == |format| &&
    forall i :: 0 <= i < |args| ==> (args[i].Blob? ==> ArgMatches('b', args[i])) && Same(format[i], args[i], o[i])
  }

  lemma NumberAt(format: string, args: seq<Arg>, o: seq<Out>, i: nat, n: u32)
    requires AllAt(format, args, o) && i < |args| && args[i] == Num(n)
    ensures o[i] == Number(n)
  {
    assert Same(format[i], args[i], o[i]);
  }

  lemma PartAt(format: string, args: seq<Arg>, o: seq<Out>, from: nat, to: nat)
    requires AllAt(format, args, o) && from <= to <= |args|
    ensures AllAt(format[from..to], args[from..to], o[from..to])
  {
  }

  lemma FrameSame(f: MacFrame<Address>, o: seq<Out>)
    requires AllAt(FRAME_FORMAT, FrameArgs(f), o)
    ensures AddressAt(o, 0) == f.source && AddressAt(o, 3) == f.dest
    ensures HalfOf(o[6]) == f.sourcePanId && HalfOf(o[7]) == f.destPanId &&
            BitOf(o[8]) == f.sourcePanIdSpecified && BitOf(o[9]) == f.destPanIdSpecified
  {
    var args := FrameArgs(f);
    assert Same('v', args[0], o[0]) && Same('b', args[1], o[1]) && Same('u', args[2], o[2]);
    assert Same('v', args[3], o[3]) && Same('b', args[4], o[4]) && Same('u', args[5], o[5]);
    assert Same('v', args[6], o[6]) && Same('v', args[7], o[7]) && Same('u', args[8], o[8]) && Same('u', args[9], o[9]);
    assert Content(args[1]) == f.source.long && Content(args[4]) == f.dest.long;
  }

  /** The report with its addresses put into memory. */
  function FrameInMemory(f: MacFrame<Address>): MacFrame<Union>
    requires |f.source.long| <= EUI64_SIZE && |f.dest.long| <= EUI64_SIZE
  {
    MacFrame(InMemory(f.source), InMemory(f.dest), f.sourcePanId, f.destPanId,
             f.sourcePanIdSpecified, f.destPanIdSpecified)
  }

  function Delivered(r: Report<Address>, long: bool): (u: Report<Union>)
    requires Within(r, long)
    ensures SameFields(u, r) && FrameOf(u) == FrameInMemory(FrameOf(r))
  {
    var f := FrameInMemory(FrameOf(r));
    match r
    case Received(m) =>
      Received(IncomingMac(m.options, f, m.rssi, m.lqi, m.frameCounter, m.length, m.payload, m.timestamp))
    case Sent(status, m) =>
      Sent(status, OutgoingMac(m.options, f, m.tag, m.frameCounter, m.length, m.payload, m.ackRssi, m.timestamp))
  }

  lemma Pieces<T>(x: seq<T>, y: seq<T>, z: seq<T>)
    ensures (x + y + z)[|x|..|x| + |y|] == y && (x + y + z)[|x| + |y|..] == z
  {
  }

  /** The outputs of a format whose fields from `at` on are those of a frame. */
  lemma FrameFields(f: MacFrame<Address>, format: string, args: seq<Arg>, o: seq<Out>, at: nat)
    requires |f.source.long| <= EUI64_SIZE && |f.dest.long| <= EUI64_SIZE && AllAt(format, args, o)
    requires at + 10 <= |args| && format[at..at + 10] == FRAME_FORMAT && args[at..at + 10] == FrameArgs(f)
    ensures AddressesInside(o, at) && FrameAt(o, at) == FrameInMemory(f)
  {
    PartAt(format, args, o, at, at + 10);
    FrameSame(f, o[at..at + 10]);
    assert AddressAt(o, at) == AddressAt(o[at..at + 10], 0) && AddressAt(o, at + 3) == AddressAt(o[at..at + 10], 3);
    assert o[at + 6] == o[at..at + 10][6] && o[at + 7] == o[at..at + 10][7];
    assert o[at + 8] == o[at..at + 10][8] && o[at + 9] == o[at..at + 10][9];
  }

  lemma IncomingSame(r: Report<Address>, o: seq<Out>, long: bool)
    requires Within(r, long) && r.Received? && AllAt(INCOMING_MAC_FORMAT, ArgsOf(r), o)
    ensures AddressesInside(o, 1) && ReceivedFrom(o) == Delivered(r, long)
  {
    Pieces([Num(r.incoming.options)], FrameArgs(r.incoming.frame), IncomingRest(r.incoming));
    Pieces("u", FRAME_FORMAT, "uuwlbw");
    IncomingFields(r, INCOMING_MAC_FORMAT, ArgsOf(r), o, long);
  }

  /** The three pieces of the format, read one by one. */
  lemma IncomingFields(r: Report<Address>, format: string, args: seq<Arg>, o: seq<Out>, long: bool)
    requires Within(r, long) && r.Received? && AllAt(format, args, o) && |args| == 17
    requires format[1..11] == FRAME_FORMAT && format[11..17] == "uuwlbw"
    requires args[0] == Num(r.incoming.options)
    requires args[1..11] == FrameArgs(r.incoming.frame) && args[11..17] == IncomingRest(r.incoming)
    ensures AddressesInside(o, 1) && ReceivedFrom(o) == Delivered(r, long)
  {
    var m := r.incoming;
    FrameFields(m.frame, format, args, o, 1);
    RestAt(m, format, args, o);
    NumberAt(format, args, o, 0, m.options);
    IncomingBuilt(r, o, long);
  }

  lemma IncomingBuilt(r: Report<Address>, o: seq<Out>, long: bool)
    requires Within(r, long) && r.Received? && |o| == 17 && AddressesInside(o, 1) && o[0] == Number(r.incoming.options)
    requires FrameAt(o, 1) == FrameInMemory(r.incoming.frame)
    requires var m := r.incoming;
             ByteOf(o[11]) == m.rssi && ByteOf(o[12]) == m.lqi && WordOf(o[13]) == m.frameCounter &&
             FinalLength(o[14], o[15]) == m.length && CopiedOf(o[15]) == m.payload && WordOf(o[16]) == m.timestamp
    ensures ReceivedFrom(o) == Delivered(r, long)
  {
  }

  lemma RestAt(m: IncomingMac<Address>, format: string, args: seq<Arg>, o: seq<Out>)
    requires AllAt(format, args, o) && |args| == 17 && m.length == |m.payload|
    requires format[11..17] == "uuwlbw" && args[11..17] == IncomingRest(m)
    ensures ByteOf(o[11]) == m.rssi && ByteOf(o[12]) == m.lqi && WordOf(o[13]) == m.frameCounter
    ensures FinalLength(o[14], o[15]) == m.length && CopiedOf(o[15]) == m.payload && WordOf(o[16]) == m.timestamp
  {
    PartAt(format, args, o, 11, 17);
    var part := o[11..17];
    RestSame(m, part);
    assert o[11] == part[0] && o[12] == part[1] && o[13] == part[2];
    assert o[14] == part[3] && o[15] == part[4] && o[16] == part[5];
  }

  lemma RestSame(m: IncomingMac<Address>, o: seq<Out>)
    requires AllAt("uuwlbw", IncomingRest(m), o) && m.length == |m.payload|
    ensures ByteOf(o[0]) == m.rssi && ByteOf(o[1]) == m.lqi && WordOf(o[2]) == m.frameCounter
    ensures FinalLength(o[3], o[4]) == m.length && CopiedOf(o[4]) == m.payload && WordOf(o[5]) == m.timestamp
  {
    var args := IncomingRest(m);
    assert Same('u', args[0], o[0]) && Same('u', args[1], o[1]) && Same('w', args[2], o[2]);
    assert Same('b', args[4], o[4]) && Same('w', args[5], o[5]);
    assert Content(args[4]) == m.payload;
  }

  lemma SentSame(r: Report<Address>, o: seq<Out>, long: bool)
    requires Within(r, long) && r.Sent? && AllAt(MAC_SENT_FORMAT, ArgsOf(r), o)
    ensures AddressesInside(o, 2) && SentFrom(o) == Delivered(r, long)
  {
    Pieces([Num(r.status), Num(r.outgoing.options)], FrameArgs(r.outgoing.frame), SentRest(r.outgoing));
    Pieces("uu", FRAME_FORMAT, "uwlbuw");
    SentFields(r, MAC_SENT_FORMAT, ArgsOf(r), o, long);
  }

  lemma SentFields(r: Report<Address>, format: string, args: seq<Arg>, o: seq<Out>, long: bool)
    requires Within(r, long) && r.Sent? && AllAt(format, args, o) && |args| == 18
    requires format[2..12] == FRAME_FORMAT && format[12..18] == "uwlbuw"
    requires args[0] == Num(r.status) && args[1] == Num(r.outgoing.options)
    requires args[2..12] == FrameArgs(r.outgoing.frame) && args[12..18] == SentRest(r.outgoing)
    ensures AddressesInside(o, 2) && SentFrom(o) == Delivered(r, long)
  {
    var m := r.outgoing;
    FrameFields(m.frame, format, args, o, 2);
    SentRestAt(m, format, args, o);
    NumberAt(format, args, o, 0, r.status);
    NumberAt(format, args, o, 1, m.options);
    SentBuilt(r, o, long);
  }

  lemma SentBuilt(r: Report<Address>, o: seq<Out>, long: bool)
    requires Within(r, long) && r.Sent? && |o| == 18 && AddressesInside(o, 2)
    requires o[0] == Number(r.status) && o[1] == Number(r.outgoing.options)
    requires FrameAt(o, 2) == FrameInMemory(r.outgoing.frame)
    requires var m := r.outgoing;
             ByteOf(o[12]) == m.tag && WordOf(o[13]) == m.frameCounter &&
             FinalLength(o[14], o[15]) == m.length && CopiedOf(o[15]) == m.payload &&
             ByteOf(o[16]) == m.ackRssi && WordOf(o[17]) == m.timestamp
    ensures SentFrom(o) == Delivered(r, long)
  {
  }

  lemma SentRestAt(m: OutgoingMac<Address>, format: string, args: seq<Arg>, o: seq<Out>)
    requires AllAt(format, args, o) && |args| == 18 && m.length == |m.payload|
    requires format[12..18] == "uwlbuw" && args[12..18] == SentRest(m)
    ensures ByteOf(o[12]) == m.tag && WordOf(o[13]) == m.frameCounter
    ensures FinalLength(o[14], o[15]) == m.length && CopiedOf(o[15]) == m.payload
    ensures ByteOf(o[16]) == m.ackRssi && WordOf(o[17]) == m.timestamp
  {
    PartAt(format, args, o, 12, 18);
    var part := o[12..18];
    SentRestSame(m, part);
    assert o[12] == part[0] && o[13] == part[1] && o[14] == part[2];
    assert o[15] == part[3] && o[16] == part[4] && o[17] == part[5];
  }

  lemma SentRestSame(m: OutgoingMac<Address>, o: seq<Out>)
    requires AllAt("uwlbuw", SentRest(m), o) && m.length == |m.payload|
    ensures ByteOf(o[0]) == m.tag && WordOf(o[1]) == m.frameCounter
    ensures FinalLength(o[2], o[3]) == m.length && CopiedOf(o[3]) == m.payload
    ensures ByteOf(o[4]) == m.ackRssi && WordOf(o[5]) == m.timestamp
  {
    var args := SentRest(m);
    assert Same('u', args[0], o[0]) && Same('w', args[1], o[1]);
    assert Same('b', args[3], o[3]) && Same('u', args[4], o[4]) && Same('w', args[5], o[5]);
    assert Content(args[3]) == m.payload;
  }

  /**
   * Within the handler's arrays all of a report reaches the callback but for the short addresses, over
   * which the long ones are stored.
   */
  lemma ReportReads(r: Report<Address>, rest: seq<byte>, long: bool)
    requires Within(r, long)
    ensures ReadReport(r.Sent?, Params(r, long) + rest, long) == Some(Delivered(r, long))
  {
    var format, args, dests := FormatOf(r), ArgsOf(r), DestsOf(r);
    Matches(r);
    AllReady(r, long);
    AllFitAt(format, args, long);
    IncomingMatches();
    SentMatches();
    RoundTrip(format, format, args, dests, rest, long);
    var o := Decode(format, dests, Params(r, long) + rest, long).value;
    forall i | 0 <= i < |args|
      ensures (args[i].Blob? ==> ArgMatches('b', args[i])) && Same(format[i], args[i], o[i])
    {
      SameAt(format, format, args, o, i);
    }
    if r.Received? {
      IncomingSame(r, o, long);
    } else {
      SentSame(r, o, long);
    }
  }

  /** What a callback gets is never longer than the arrays, and its length is that of its payload. */
  lemma ReadsInside(sent: bool, params: seq<byte>, long: bool)
    requires ReadReport(sent, params, long).Some?
    ensures var u := ReadReport(sent, params, long).value;
            u.Sent? == sent && LengthOf(u) == |PayloadOf(u)| <= PayloadLimit(long)
  {
    IncomingMatches();
    SentMatches();
    var format := if sent then MAC_SENT_FORMAT else INCOMING_MAC_FORMAT;
    var dests := if sent then SentDests else IncomingDests;
    assert format[15] == 'b' && dests[15] == PayloadDest;
    CopyBounded(format, dests, params, long, 15);
    BlobBounded(format, dests, params, long, 15);
  }

  /**
   * A MAC report reaches the callback as the NCP wrote it, whatever follows it, exactly when its blobs
   * are within their arrays, its length is that of its payload, and the two forms of each address agree.
   */
  lemma ReportIsIdentity(r: Report<Address>, rest: seq<byte>, long: bool)
    ensures var u := ReadReport(r.Sent?, Params(r, long) + rest, long);
            (u.Some? && Sees(u.value, r)) <==>
            |FrameOf(r).source.long| <= 8 && |FrameOf(r).dest.long| <= 8 &&
            LengthOf(r) == |PayloadOf(r)| <= (if long then 2048 else 255) &&
            Agree(FrameOf(r).source) && Agree(FrameOf(r).dest)
  {
    var params := Params(r, long) + rest;
    var u := ReadReport(r.Sent?, params, long);
    if Within(r, long) {
      ReportReads(r, rest, long);
      DeliveredSees(r, long);
    } else if u.Some? {
      ReadsInside(r.Sent?, params, long);
      SeesOnlyWithin(u.value, r, long);
    }
  }

  lemma DeliveredSees(r: Report<Address>, long: bool)
    requires Within(r, long)
    ensures Sees(Delivered(r, long), r) <==> Agree(FrameOf(r).source) && Agree(FrameOf(r).dest)
  {
    HoldsExactly(FrameOf(r).source);
    HoldsExactly(FrameOf(r).dest);
  }

  lemma SeesOnlyWithin(u: Report<Union>, r: Report<Address>, long: bool)
    requires LengthOf(u) == |PayloadOf(u)| <= PayloadLimit(long)
    ensures Sees(u, r) ==> Within(r, long)
  {
  }
}

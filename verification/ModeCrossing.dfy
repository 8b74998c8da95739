/**
 * What becomes of a message indication that was written in one length mode and is read in the other,
 * because a switch happened while it was on its way.
 */
module ModeCrossing {
  import opened ByteUtilities
  import opened CspFormat
  import opened CspCanonical
  import opened HandlerFields
  import opened Indications

  // ---- The fields before and behind the length ----

  function HeadFormat(u: Upcall): string {
    if u.MessageSent? then "uuvuu" else "uvuu"
  }

  function TailFormat(u: Upcall): string {
    if u.MessageSent? then "buw" else "bwu"
  }

  function HeadArgs(u: Upcall): seq<Arg>
    requires WellFormed(u)
  {
    ArgsOf(u)[..|HeadFormat(u)|]
  }

  function TailArgs(u: Upcall): seq<Arg>
    requires WellFormed(u)
  {
    ArgsOf(u)[|HeadFormat(u)| + 1..]
  }

  const TailDests := [PayloadDest, Cell(false), Cell(false)]

  lemma SentParts(u: Upcall)
    requires WellFormed(u) && u.MessageSent?
    ensures MESSAGE_SENT_FORMAT == "uuvuu" + ("l" + "buw") && DestsMatch("buw", TailDests)
    ensures MESSAGE_SENT_FORMAT[0..5] == "uuvuu" && MESSAGE_SENT_FORMAT[6..9] == "buw"
    ensures ArgsOf(u)[0..5] == HeadArgs(u) && ArgsOf(u)[6..9] == TailArgs(u)
    ensures ArgsOf(u) == HeadArgs(u) + ([Num(LengthOf(u))] + TailArgs(u))
    ensures TailArgs(u)[0] == BlobArg(PayloadOf(u))
  {
    assert ArgsOf(u)[5] == Num(LengthOf(u)) && ArgsOf(u)[6] == BlobArg(PayloadOf(u));
  }

  lemma ReceivedParts(u: Upcall)
    requires WellFormed(u) && u.MessageReceived?
    ensures INCOMING_MESSAGE_FORMAT == "uvuu" + ("l" + "bwu") && DestsMatch("bwu", TailDests)
    ensures INCOMING_MESSAGE_FORMAT[0..4] == "uvuu" && INCOMING_MESSAGE_FORMAT[5..8] == "bwu"
    ensures ArgsOf(u)[0..4] == HeadArgs(u) && ArgsOf(u)[5..8] == TailArgs(u)
    ensures ArgsOf(u) == HeadArgs(u) + ([Num(LengthOf(u))] + TailArgs(u))
    ensures TailArgs(u)[0] == BlobArg(PayloadOf(u))
  {
    assert ArgsOf(u)[4] == Num(LengthOf(u)) && ArgsOf(u)[5] == BlobArg(PayloadOf(u));
  }

  lemma Parts(u: Upcall)
    requires WellFormed(u)
    ensures FormatOf(u) == HeadFormat(u) + ("l" + TailFormat(u))
    ensures ArgsOf(u) == HeadArgs(u) + ([Num(LengthOf(u))] + TailArgs(u))
    ensures ValidFormat(HeadFormat(u)) && ArgsMatch(HeadFormat(u), HeadArgs(u))
    ensures ValidFormat(TailFormat(u)) && ArgsMatch(TailFormat(u), TailArgs(u)) && DestsMatch(TailFormat(u), TailDests)
    ensures TailArgs(u)[0] == BlobArg(PayloadOf(u))
  {
    ArgsMatchFormat(u);
    if u.MessageSent? {
      SentParts(u);
      SliceMatches(MESSAGE_SENT_FORMAT, ArgsOf(u), "uuvuu", HeadArgs(u), 0, 5);
      SliceMatches(MESSAGE_SENT_FORMAT, ArgsOf(u), "buw", TailArgs(u), 6, 9);
    } else {
      ReceivedParts(u);
      SliceMatches(INCOMING_MESSAGE_FORMAT, ArgsOf(u), "uvuu", HeadArgs(u), 0, 4);
      SliceMatches(INCOMING_MESSAGE_FORMAT, ArgsOf(u), "bwu", TailArgs(u), 5, 8);
    }
  }

  lemma SliceMatches(format: string, args: seq<Arg>, part: string, some: seq<Arg>, from: nat, to: nat)
    requires ValidFormat(format) && ArgsMatch(format, args) && from <= to <= |format|
    requires part == format[from..to] && some == args[from..to]
    ensures ValidFormat(part) && ArgsMatch(part, some)
  {
    forall i | 0 <= i < |part| ensures FieldChar(part[i]) && ArgMatches(part[i], some[i]) {
      assert part[i] == format[from + i] && some[i] == args[from + i];
    }
  }

  /** The fields before the length, the same in both modes. */
  function Head(u: Upcall): seq<byte>
    requires WellFormed(u)
  {
    Parts(u);
    Encode(HeadFormat(u), HeadArgs(u), false)
  }

  /** What stands behind the length prefix of the payload: the payload and two more fields. */
  function Body(u: Upcall): seq<byte>
    requires WellFormed(u)
  {
    Parts(u);
    PayloadOf(u) + Encode(TailFormat(u)[1..], TailArgs(u)[1..], false)
  }

  function Tail(u: Upcall, long: bool): seq<byte>
    requires WellFormed(u)
  {
    Parts(u);
    Encode(TailFormat(u), TailArgs(u), long)
  }

  lemma TailParts(u: Upcall, long: bool)
    requires WellFormed(u)
    ensures Tail(u, long) == LengthBytes(LengthOf(u), long) + Body(u)
  {
    Parts(u);
    var end := Encode(TailFormat(u)[1..], TailArgs(u)[1..], false);
    ModeFree(TailFormat(u)[1..], TailArgs(u)[1..]);
    PayloadField(PayloadOf(u), long);
    Regroup(LengthBytes(LengthOf(u), long), PayloadOf(u), end);
  }

  lemma PayloadField(payload: seq<byte>, long: bool)
    requires |payload| < 0x1_0000
    ensures ArgMatches('b', BlobArg(payload))
    ensures Field('b', BlobArg(payload), long) == LengthBytes(|payload|, long) + payload
  {
    assert |payload| % 0x1_0000 == |payload|;
  }

  lemma ParamsParts(u: Upcall, long: bool)
    requires WellFormed(u)
    ensures Params(u, long) == Head(u) + (LengthBytes(LengthOf(u), long) + Tail(u, long))
  {
    Parts(u);
    ModeFree(HeadFormat(u), HeadArgs(u));
    var length := [Num(LengthOf(u))];
    LengthAlone(LengthOf(u), long);
    EncodeConcat("l", TailFormat(u), length, TailArgs(u), long);
    EncodeConcat(HeadFormat(u), "l" + TailFormat(u), HeadArgs(u), length + TailArgs(u), long);
  }

  lemma LengthAlone(n: u16, long: bool)
    ensures ValidFormat("l") && ArgsMatch("l", [Num(n)]) && Encode("l", [Num(n)], long) == LengthBytes(n, long)
  {
    assert "l"[1..] == "" && [Num(n)][1..] == [];
    assert Encode("l", [Num(n)], long) == LengthBytes(n, long) + Encode("", [], long);
  }

  // ---- Reading them in any mode ----

  predicate TailReads(u: Upcall, bytes: seq<byte>, long: bool)
    requires WellFormed(u)
  {
    Parts(u);
    var r := Decode(TailFormat(u), TailDests, bytes, long);
    r.Some? && AllSame(TailFormat(u), TailFormat(u), TailArgs(u), r.value)
  }

  function From(u: Upcall, outs: seq<Out>): Upcall
    requires IsMessage(u) && |outs| == |FormatOf(u)|
  {
    if u.MessageSent? then SentFrom(outs) else ReceivedFrom(outs)
  }

  lemma SentTailDecides(u: Upcall, o: seq<Out>)
    requires WellFormed(u) && u.MessageSent? && |o| == 9
    requires o[0] == Number(u.status) && o[1] == Number(u.sent.options) && o[2] == Number(u.sent.destination)
    requires o[3] == Number(u.sent.endpoint) && o[4] == Number(u.sent.tag)
    requires o[6].Data? && o[7].Number? && o[7].n < 0x100 && o[8].Number?
    ensures SentFrom(o) == u <==>
            o[6].length == u.sent.length && o[6].copied == u.sent.payload && o[7].n == u.sent.ackRssi &&
            o[8].n == u.sent.timestamp
  {
  }

  lemma ReceivedTailDecides(u: Upcall, o: seq<Out>)
    requires WellFormed(u) && u.MessageReceived? && |o| == 8
    requires o[0] == Number(u.received.options) && o[1] == Number(u.received.source)
    requires o[2] == Number(u.received.endpoint) && o[3] == Number(u.received.rssi)
    requires o[5].Data? && o[6].Number? && o[7].Number? && o[7].n < 0x100
    ensures ReceivedFrom(o) == u <==>
            o[5].length == u.received.length && o[5].copied == u.received.payload &&
            o[6].n == u.received.timestamp && o[7].n == u.received.lqi
  {
  }

  /** The length field is overwritten by the blob's: only the tail decides. */
  lemma OnlyTheTailDecides(u: Upcall, front: seq<Out>, l: Out, back: seq<Out>)
    requires WellFormed(u) && |front| == |HeadFormat(u)| && |back| == 3
    requires ValidFormat(HeadFormat(u)) && ArgsMatch(HeadFormat(u), HeadArgs(u))
    requires ValidFormat(TailFormat(u)) && ArgsMatch(TailFormat(u), TailArgs(u))
    requires AllSame(HeadFormat(u), HeadFormat(u), HeadArgs(u), front)
    requires back[0].Data? && back[1].Number? && back[2].Number?
    requires back[if u.MessageSent? then 1 else 2].n < 0x100
    ensures From(u, front + ([l] + back)) == u <==> AllSame(TailFormat(u), TailFormat(u), TailArgs(u), back)
  {
    var outs := front + ([l] + back);
    forall i | 0 <= i < |front| ensures outs[i] == front[i] && Same(HeadFormat(u)[i], HeadArgs(u)[i], outs[i]) {
      SameAt(HeadFormat(u), HeadFormat(u), HeadArgs(u), front, i);
    }
    TailSame(u, back);
    if u.MessageSent? {
      SentTail(u, outs, back);
    } else {
      ReceivedTail(u, outs, back);
    }
  }

  lemma SentTail(u: Upcall, o: seq<Out>, back: seq<Out>)
    requires WellFormed(u) && u.MessageSent? && |o| == 9 && back == o[6..]
    requires ArgsMatch("uuvuu", HeadArgs(u)) && ArgMatches('b', TailArgs(u)[0])
    requires forall i :: 0 <= i < 5 ==> Same("uuvuu"[i], HeadArgs(u)[i], o[i])
    requires back[0].Data? && back[1].Number? && back[1].n < 0x100 && back[2].Number?
    ensures SentFrom(o) == u <==>
            Same('b', TailArgs(u)[0], back[0]) && Same('u', TailArgs(u)[1], back[1]) &&
            Same('w', TailArgs(u)[2], back[2])
  {
    var a := HeadArgs(u);
    assert Same('u', a[0], o[0]) && Same('u', a[1], o[1]) && Same('v', a[2], o[2]);
    assert Same('u', a[3], o[3]) && Same('u', a[4], o[4]);
    assert Content(TailArgs(u)[0]) == u.sent.payload;
    SentTailDecides(u, o);
  }

  lemma ReceivedTail(u: Upcall, o: seq<Out>, back: seq<Out>)
    requires WellFormed(u) && u.MessageReceived? && |o| == 8 && back == o[5..]
    requires ArgsMatch("uvuu", HeadArgs(u)) && ArgMatches('b', TailArgs(u)[0])
    requires forall i :: 0 <= i < 4 ==> Same("uvuu"[i], HeadArgs(u)[i], o[i])
    requires back[0].Data? && back[1].Number? && back[2].Number? && back[2].n < 0x100
    ensures ReceivedFrom(o) == u <==>
            Same('b', TailArgs(u)[0], back[0]) && Same('w', TailArgs(u)[1], back[1]) &&
            Same('u', TailArgs(u)[2], back[2])
  {
    var a := HeadArgs(u);
    assert Same('u', a[0], o[0]) && Same('v', a[1], o[1]) && Same('u', a[2], o[2]) && Same('u', a[3], o[3]);
    assert Content(TailArgs(u)[0]) == u.received.payload;
    ReceivedTailDecides(u, o);
  }

  lemma TailSame(u: Upcall, back: seq<Out>)
    requires WellFormed(u) && |back| == 3
    requires ValidFormat(TailFormat(u)) && ArgsMatch(TailFormat(u), TailArgs(u))
    ensures var f, a := TailFormat(u), TailArgs(u);
            ArgMatches('b', a[0]) &&
            (AllSame(f, f, a, back) <==>
             Same('b', a[0], back[0]) && Same(f[1], a[1], back[1]) && Same(f[2], a[2], back[2]))
  {
    var f, a := TailFormat(u), TailArgs(u);
    assert AllSame(f[1..][1..][1..], f[1..][1..][1..], a[1..][1..][1..], back[1..][1..][1..]);
    assert AllSame(f[1..][1..], f[1..][1..], a[1..][1..], back[1..][1..]) <==> Same(f[2], a[2], back[2]);
    assert AllSame(f[1..], f[1..], a[1..], back[1..]) <==> Same(f[1], a[1], back[1]) && Same(f[2], a[2], back[2]);
  }

  lemma HeadFits(u: Upcall, long: bool)
    requires WellFormed(u)
    ensures ValidFormat(HeadFormat(u)) && ArgsMatch(HeadFormat(u), HeadArgs(u)) &&
            AllFit(HeadFormat(u), HeadArgs(u), long)
    ensures AllRoomy(HeadArgs(u), DestsOf(u)[..|HeadFormat(u)|])
  {
    Parts(u);
    AllFitAt(HeadFormat(u), HeadArgs(u), long);
  }

  lemma DispatchDecodes(u: Upcall, params: seq<byte>, long: bool)
    requires WellFormed(u)
    ensures DestsMatch(FormatOf(u), DestsOf(u))
    ensures var r := Decode(FormatOf(u), DestsOf(u), params, long);
            Dispatched(IdOf(u), params, long) == if r.None? then None else Some(From(u, r.value))
  {
    FormatsMatch();
  }

  lemma HeadReads(u: Upcall, bytes: seq<byte>, long: bool) returns (front: seq<Out>)
    requires WellFormed(u)
    ensures DestsMatch(FormatOf(u), DestsOf(u)) && DestsMatch("l" + TailFormat(u), [Cell(false)] + TailDests)
    ensures |front| == |HeadFormat(u)|
    ensures ValidFormat(HeadFormat(u)) && ArgsMatch(HeadFormat(u), HeadArgs(u))
    ensures AllSame(HeadFormat(u), HeadFormat(u), HeadArgs(u), front)
    ensures Decode(FormatOf(u), DestsOf(u), Head(u) + bytes, long)
         == After(front, Decode("l" + TailFormat(u), [Cell(false)] + TailDests, bytes, long))
  {
    Parts(u);
    FormatsMatch();
    HeadFits(u, long);
    ModeFree(HeadFormat(u), HeadArgs(u));
    var k := |HeadFormat(u)|;
    assert DestsOf(u)[k..] == [Cell(false)] + TailDests;
    ReadPast(HeadFormat(u), "l" + TailFormat(u), HeadArgs(u), DestsOf(u), bytes, long);
    front := Decode(HeadFormat(u), DestsOf(u)[..k], Head(u) + bytes, long).value;
  }

  lemma LengthReads(format: string, dests: seq<Dest>, bytes: seq<byte>, long: bool)
    requires DestsMatch(format, dests)
    ensures DestsMatch("l" + format, [Cell(false)] + dests)
    ensures Decode("l" + format, [Cell(false)] + dests, bytes, long) ==
            if |bytes| < PrefixSize(long) then None
            else After([Number(Prefix(bytes, long))], Decode(format, dests, bytes[PrefixSize(long)..], long))
  {
    assert ("l" + format)[1..] == format && ([Cell(false)] + dests)[1..] == dests;
    DecodeStep("l" + format, [Cell(false)] + dests, bytes, long, DecodeField('l', Cell(false), bytes, long));
  }

  /** The head is read off, then a length of which only the size matters, then the tail. */
  lemma DecodeParts(u: Upcall, bytes: seq<byte>, long: bool) returns (front: seq<Out>)
    requires WellFormed(u)
    ensures DestsMatch(FormatOf(u), DestsOf(u)) && DestsMatch(TailFormat(u), TailDests)
    ensures |front| == |HeadFormat(u)|
    ensures ValidFormat(HeadFormat(u)) && ArgsMatch(HeadFormat(u), HeadArgs(u))
    ensures AllSame(HeadFormat(u), HeadFormat(u), HeadArgs(u), front)
    ensures Decode(FormatOf(u), DestsOf(u), Head(u) + bytes, long) ==
            if |bytes| < PrefixSize(long) then None
            else After(front + [Number(Prefix(bytes, long))],
                       Decode(TailFormat(u), TailDests, bytes[PrefixSize(long)..], long))
  {
    Parts(u);
    front := HeadReads(u, bytes, long);
    LengthReads(TailFormat(u), TailDests, bytes, long);
    if |bytes| >= PrefixSize(long) {
      AfterAfter(front, [Number(Prefix(bytes, long))],
                 Decode(TailFormat(u), TailDests, bytes[PrefixSize(long)..], long));
    }
  }

  /** Any bytes behind the head make the callback's arguments the same indication exactly when the tail reads back. */
  lemma DispatchParts(u: Upcall, bytes: seq<byte>, long: bool)
    requires WellFormed(u)
    ensures Dispatched(IdOf(u), Head(u) + bytes, long) == Some(u) <==>
            |bytes| >= PrefixSize(long) && TailReads(u, bytes[PrefixSize(long)..], long)
  {
    var front := DecodeParts(u, bytes, long);
    DispatchDecodes(u, Head(u) + bytes, long);
    if |bytes| >= PrefixSize(long) {
      DispatchTail(u, front, Number(Prefix(bytes, long)), bytes[PrefixSize(long)..], long);
    }
  }

  lemma DispatchTail(u: Upcall, front: seq<Out>, l: Out, bytes: seq<byte>, long: bool)
    requires WellFormed(u) && |front| == |HeadFormat(u)|
    requires ValidFormat(HeadFormat(u)) && ArgsMatch(HeadFormat(u), HeadArgs(u)) && DestsMatch(TailFormat(u), TailDests)
    requires AllSame(HeadFormat(u), HeadFormat(u), HeadArgs(u), front)
    ensures var r := After(front + [l], Decode(TailFormat(u), TailDests, bytes, long));
            (r.Some? && From(u, r.value) == u) <==> TailReads(u, bytes, long)
  {
    Parts(u);
    var r := Decode(TailFormat(u), TailDests, bytes, long);
    if r.Some? {
      ShapeAt(TailFormat(u), TailDests, bytes, long, 0);
      ShapeAt(TailFormat(u), TailDests, bytes, long, 1);
      ShapeAt(TailFormat(u), TailDests, bytes, long, 2);
      OnlyTheTailDecides(u, front, l, r.value);
      Regroup(front, [l], r.value);
    }
  }

  /** The tail reads back exactly if its mode can express the payload and the bytes are what it would have written. */
  lemma TailIsCanonical(u: Upcall, bytes: seq<byte>, long: bool)
    requires WellFormed(u) && |PayloadOf(u)| < MAX_PAYLOAD
    ensures TailReads(u, bytes, long) <==>
            (long || |PayloadOf(u)| < 0x100) && LengthBytes(LengthOf(u), long) + Body(u) <= bytes
  {
    Parts(u);
    TailParts(u, long);
    if long || |PayloadOf(u)| < 0x100 {
      AllFitAt(TailFormat(u), TailArgs(u), long);
      Canonical(TailFormat(u), TailArgs(u), TailDests, bytes, long);
    } else if Decode(TailFormat(u), TailDests, bytes, long).Some? {
      BlobBounded(TailFormat(u), TailDests, bytes, long, 0);
    }
  }

  // ---- Crossing a switch ----

  /**
   * The bytes that follow happen to repeat themselves so that the other mode's length prefix is where
   * its reader looks for it. `long` is the mode of the reader.
   */
  predicate Coincides(u: Upcall, behind: seq<byte>, long: bool)
    requires WellFormed(u)
  {
    |PayloadOf(u)| < 0x100 &&
    if long then HighLow16(LengthOf(u)) + Body(u) <= Body(u) + behind
    else Body(u) <= HighLow16(LengthOf(u)) + Body(u) + behind
  }

  /**
   * Written in one mode and read in another, with any bytes behind it in the buffer, an indication
   * reaches the application unchanged exactly when the modes are the same or the bytes coincide.
   */
  lemma UnchangedAcrossModes(u: Upcall, behind: seq<byte>, written: bool, read: bool)
    requires Deliverable(u, written)
    ensures Dispatched(IdOf(u), Params(u, written) + behind, read) == Some(u) <==>
            read == written || Coincides(u, behind, read)
  {
    if read == written {
      HandlerIsIdentity(u, behind, read);
    } else if |PayloadOf(u)| < 0x100 {
      Crossing(u, behind, written, read);
    } else {
      HandlerTruncates(u, Params(u, written) + behind, read);
    }
  }

  lemma Crossing(u: Upcall, behind: seq<byte>, written: bool, read: bool)
    requires Deliverable(u, written) && read != written && |PayloadOf(u)| < 0x100
    ensures Dispatched(IdOf(u), Params(u, written) + behind, read) == Some(u) <==> Coincides(u, behind, read)
  {
    var n, body := LengthOf(u), Body(u);
    var bytes := LengthBytes(n, written) + (LengthBytes(n, written) + body) + behind;
    FromTheHead(u, behind, written);
    DispatchParts(u, bytes, read);
    TailIsCanonical(u, bytes[PrefixSize(read)..], read);
    Shifted(n, body, behind, written);
  }

  lemma FromTheHead(u: Upcall, behind: seq<byte>, long: bool)
    requires WellFormed(u)
    ensures var prefix := LengthBytes(LengthOf(u), long);
            Params(u, long) + behind == Head(u) + (prefix + (prefix + Body(u)) + behind)
  {
    ParamsParts(u, long);
    TailParts(u, long);
    Regroup(Head(u), LengthBytes(LengthOf(u), long) + Tail(u, long), behind);
  }

  /** The reader of the other mode takes its length field too short or too long, and looks for the payload there. */
  lemma Shifted(n: u16, body: seq<byte>, behind: seq<byte>, written: bool)
    requires n < 0x100
    ensures var bytes := LengthBytes(n, written) + (LengthBytes(n, written) + body) + behind;
            |bytes| >= 2 &&
            (LengthBytes(n, !written) + body <= bytes[PrefixSize(!written)..] <==>
             if written then body <= HighLow16(n) + body + behind else HighLow16(n) + body <= body + behind)
  {
    assert n % 0x1_0000 == n;
    var bytes := LengthBytes(n, written) + (LengthBytes(n, written) + body) + behind;
    if written {
      assert bytes[1..] == [n % 0x100] + (HighLow16(n) + body + behind);
      SameFirst(n % 0x100, body, HighLow16(n) + body + behind);
    } else {
      assert bytes[2..] == body + behind;
    }
  }

  lemma SameFirst(b: byte, x: seq<byte>, y: seq<byte>)
    ensures [b] + x <= [b] + y <==> x <= y
  {
    assert ([b] + x)[1..] == x && ([b] + y)[1..] == y;
  }

  lemma NoCoincidence(u: Upcall, behind: seq<byte>, long: bool)
    requires WellFormed(u) && PayloadOf(u) != [] && PayloadOf(u)[0] != 0
    ensures !Coincides(u, behind, long)
  {
    if |PayloadOf(u)| < 0x100 {
      var n, body := HighLow16(LengthOf(u)), Body(u);
      assert n[0] == 0 && body[0] == PayloadOf(u)[0];
      assert (n + body)[0] == n[0] && (body + behind)[0] == body[0] && (n + body + behind)[0] == n[0];
    }
  }

  /** A payload that does not begin with a zero byte arrives unchanged only in the mode it was written in. */
  lemma FirstByteTells(u: Upcall, behind: seq<byte>, written: bool, read: bool)
    requires Deliverable(u, written) && PayloadOf(u) != [] && PayloadOf(u)[0] != 0
    ensures Dispatched(IdOf(u), Params(u, written) + behind, read) == Some(u) <==> read == written
  {
    UnchangedAcrossModes(u, behind, written, read);
    NoCoincidence(u, behind, read);
  }

  const AllZero := MessageSent(0, OutgoingMessage(0, 0, 0, 0, 0, [], 0, 0))

  /** An empty message with zero fields and zeroes behind it does survive: that exception is needed. */
  lemma CoincidenceIsPossible()
    ensures exists u, behind :: Deliverable(u, false) && Coincides(u, behind, true)
  {
    ZeroBody();
    assert HighLow16(0) + Body(AllZero) == Body(AllZero) + [0, 0];
    assert Deliverable(AllZero, false) && Coincides(AllZero, [0, 0], true);
  }

  lemma ZeroBody()
    ensures Body(AllZero) == [0, 0, 0, 0, 0]
  {
    Parts(AllZero);
    var args := TailArgs(AllZero);
    assert args[1] == Num(0) && args[2] == Num(0);
    assert "buw"[1..] == "uw" && "uw"[1..] == "w" && "w"[1..] == "";
    assert args[1..][1..][1..] == [];
    assert Encode("uw", args[1..], false) == Field('u', args[1], false) + Encode("w", args[1..][1..], false);
  }
}

/** The beacon handler of csp-command-callbacks.c: two of its three blobs go into buffers it keeps between calls. */
module Beacons {
  import opened ByteUtilities
  import opened CspFormat
  import opened CspSerializer
  import opened HandlerFields
  import opened MacAddresses

  const BEACON_FORMAT := "vvbuuuubub"
  const MAX_BEACON_FIELDS_LENGTH := 84
  /** The stack's and the application's share of a beacon payload. */
  const MAX_BEACON_PAYLOAD_LENGTH := 14 + 16

  /** What the NCP reports about one beacon. */
  datatype Beacon = Beacon(
    panId: u16, source: Address, rssi: byte, permitJoining: bool, fields: seq<byte>, payload: seq<byte>)

  function BeaconArgs(b: Beacon): (args: seq<Arg>)
    ensures ArgsMatch(BEACON_FORMAT, args) && ValidFormat(BEACON_FORMAT)
  {
    [Num(b.panId), Num(b.source.short), BlobArg(b.source.long), Num(b.source.mode), Num(b.rssi),
     BitArg(b.permitJoining),
     Num(|b.fields| % 0x100), BlobArg(b.fields), Num(|b.payload| % 0x100), BlobArg(b.payload)]
  }

  const FieldsDest := Bytes(false, true, MAX_BEACON_FIELDS_LENGTH)
  const BeaconPayloadDest := Bytes(false, true, MAX_BEACON_PAYLOAD_LENGTH)

  const BeaconDests: seq<Dest> :=
    [Value, Value, LongAddressDest, Value, Value, Value, Value, FieldsDest, Value, BeaconPayloadDest]

  lemma DestsFit()
    ensures ValidFormat(BEACON_FORMAT) && DestsMatch(BEACON_FORMAT, BeaconDests)
  {
  }

  /** The arguments of the two callbacks; the blobs come as pointers to the kept buffers and lengths. */
  datatype Upcall = Upcall(
    panId: u16, source: Union, rssi: byte, permitJoining: bool, fieldsLength: u16, payloadLength: u16)

  function UpcallFrom(o: seq<Out>): Upcall
    requires |o| == 10 && |CopiedOf(o[2])| <= EUI64_SIZE
  {
    Upcall(HalfOf(o[0]), InMemory(AddressAt(o, 1)), ByteOf(o[4]), BitOf(o[5]),
           FinalLength(o[6], o[7]), FinalLength(o[8], o[9]))
  }

  function Read(params: seq<byte>, long: bool): (o: Option<seq<Out>>)
    ensures o.Some? ==> |o.value| == 10 && CopiesInside(o.value)
  {
    DestsFit();
    var o := Decode(BEACON_FORMAT, BeaconDests, params, long);
    assert o.Some? ==> CopiesInside(o.value) by {
      if o.Some? {
        CopiesStayInside(params, long);
      }
    }
    o
  }

  predicate CopiesInside(o: seq<Out>)
    requires |o| == 10
  {
    o[2].Data? && o[7].Data? && o[9].Data? &&
    |o[2].copied| <= EUI64_SIZE && |o[7].copied| <= MAX_BEACON_FIELDS_LENGTH &&
    |o[9].copied| <= MAX_BEACON_PAYLOAD_LENGTH &&
    o[2].length <= |o[2].copied| && o[7].length <= |o[7].copied| && o[9].length <= |o[9].copied|
  }

  /** Whatever the NCP sends, no blob is copied past the end of its buffer, and no length exceeds the bytes copied. */
  lemma CopiesStayInside(params: seq<byte>, long: bool)
    requires DestsMatch(BEACON_FORMAT, BeaconDests) && Decode(BEACON_FORMAT, BeaconDests, params, long).Some?
    ensures CopiesInside(Decode(BEACON_FORMAT, BeaconDests, params, long).value)
  {
    CopyBounded(BEACON_FORMAT, BeaconDests, params, long, 2);
    CopyBounded(BEACON_FORMAT, BeaconDests, params, long, 7);
    CopyBounded(BEACON_FORMAT, BeaconDests, params, long, 9);
  }

  /** A buffer after a blob of at most its own size was copied into its front. */
  function Overlaid(before: seq<byte>, blob: seq<byte>): (after: seq<byte>)
    requires |blob| <= |before|
    ensures |after| == |before| && blob <= after && after[|blob|..] == before[|blob|..]
  {
    blob + before[|blob|..]
  }

  class BeaconHandler {
    const serializer: Serializer
    const beaconFields: array<byte>
    const beaconPayload: array<byte>

    ghost predicate Valid() {
      beaconFields.Length == MAX_BEACON_FIELDS_LENGTH && beaconPayload.Length == MAX_BEACON_PAYLOAD_LENGTH &&
      beaconFields != beaconPayload
    }

    constructor (serializer: Serializer)
      ensures Valid() && this.serializer == serializer && fresh(beaconFields) && fresh(beaconPayload)
    {
      this.serializer := serializer;
      beaconFields := new byte[MAX_BEACON_FIELDS_LENGTH](_ => 0);
      beaconPayload := new byte[MAX_BEACON_PAYLOAD_LENGTH](_ => 0);
    }

    method FetchBeacon(callbackParams: seq<byte>) returns (o: Option<seq<Out>>)
      ensures o == Read(callbackParams, serializer.useLongMessageLength)
    {
      DestsFit();
      o := serializer.FetchParams(callbackParams, BEACON_FORMAT, BeaconDests);
    }

    /** Behind a blob shorter than the last one the buffers still hold bytes of earlier beacons. */
    method IncomingBeaconCommandHandler(callbackParams: seq<byte>) returns (r: Option<Upcall>)
      requires Valid()
      modifies beaconFields, beaconPayload
      ensures r.Some? <==> Read(callbackParams, serializer.useLongMessageLength).Some?
      ensures r.Some? ==>
                var o := Read(callbackParams, serializer.useLongMessageLength).value;
                r.value == UpcallFrom(o) &&
                beaconFields[..] == Overlaid(old(beaconFields[..]), CopiedOf(o[7])) &&
                beaconPayload[..] == Overlaid(old(beaconPayload[..]), CopiedOf(o[9])) &&
                r.value.fieldsLength <= MAX_BEACON_FIELDS_LENGTH && r.value.payloadLength <= MAX_BEACON_PAYLOAD_LENGTH
      ensures r.None? ==> beaconFields[..] == old(beaconFields[..]) && beaconPayload[..] == old(beaconPayload[..])
    {
      var outs := FetchBeacon(callbackParams);
      if outs.None? {
        return None;
      }
      var o := outs.value;
      var addr := new byte[EUI64_SIZE];
      var source := StoreAddress(addr, AddressAt(o, 1));
      CopyInto(beaconFields, 0, CopiedOf(o[7]));
      CopyInto(beaconPayload, 0, CopiedOf(o[9]));
      r := Some(Upcall(HalfOf(o[0]), source, ByteOf(o[4]), BitOf(o[5]), o[7].length, o[9].length));
    }
  }

  // ---- What survives ----

  predicate Within(b: Beacon) {
    |b.source.long| <= EUI64_SIZE && |b.fields| <= MAX_BEACON_FIELDS_LENGTH &&
    |b.payload| <= MAX_BEACON_PAYLOAD_LENGTH
  }

  /** What a callback gets for a beacon within the buffers. */
  function Delivered(b: Beacon): Upcall
    requires Within(b)
  {
    Upcall(b.panId, InMemory(b.source), b.rssi, b.permitJoining, |b.fields|, |b.payload|)
  }

  /** What a callback finds: its arguments, and the contents of the buffers at the lengths it is told. */
  predicate Sees(u: Upcall, fields: seq<byte>, payload: seq<byte>, b: Beacon) {
    u.panId == b.panId && Holds(u.source, b.source) && u.rssi == b.rssi && u.permitJoining == b.permitJoining &&
    u.fieldsLength == |b.fields| && b.fields <= fields && u.payloadLength == |b.payload| && b.payload <= payload
  }

  /** The callback's view of the beacon, given what the kept buffers held before. */
  predicate ArrivesAsReported(b: Beacon, rest: seq<byte>, long: bool, fields: seq<byte>, payload: seq<byte>)
    requires |fields| == MAX_BEACON_FIELDS_LENGTH && |payload| == MAX_BEACON_PAYLOAD_LENGTH
  {
    var o := Read(Encode(BEACON_FORMAT, BeaconArgs(b), long) + rest, long);
    o.Some? &&
    Sees(UpcallFrom(o.value), Overlaid(fields, CopiedOf(o.value[7])), Overlaid(payload, CopiedOf(o.value[9])), b)
  }

  /**
   * In either mode, all of a beacon that is within the buffers reaches the callback, but for the short
   * address: the long one is stored over it.
   */
  lemma BeaconReads(b: Beacon, rest: seq<byte>, long: bool)
    requires Within(b)
    ensures var o := Read(Encode(BEACON_FORMAT, BeaconArgs(b), long) + rest, long);
            o.Some? && CopiedOf(o.value[7]) == b.fields && CopiedOf(o.value[9]) == b.payload &&
            UpcallFrom(o.value) == Delivered(b)
  {
    var args := BeaconArgs(b);
    DestsFit();
    AllFitAt(BEACON_FORMAT, args, long);
    RoundTrip(BEACON_FORMAT, BEACON_FORMAT, args, BeaconDests, rest, long);
    var o := Read(Encode(BEACON_FORMAT, args, long) + rest, long).value;
    AllSameAt(args, o);
    FieldsSame(b, o);
  }

  lemma AllSameAt(args: seq<Arg>, o: seq<Out>)
    requires ValidFormat(BEACON_FORMAT) && ArgsMatch(BEACON_FORMAT, args)
    requires AllSame(BEACON_FORMAT, BEACON_FORMAT, args, o)
    ensures forall i :: 0 <= i < 10 ==> ArgMatches(BEACON_FORMAT[i], args[i]) && Same(BEACON_FORMAT[i], args[i], o[i])
  {
    forall i | 0 <= i < 10 ensures ArgMatches(BEACON_FORMAT[i], args[i]) && Same(BEACON_FORMAT[i], args[i], o[i]) {
      SameAt(BEACON_FORMAT, BEACON_FORMAT, args, o, i);
    }
  }

  lemma FieldsSame(b: Beacon, o: seq<Out>)
    requires Within(b) && |o| == 10 && CopiesInside(o)
    requires forall i :: 0 <= i < 10 ==>
               ArgMatches(BEACON_FORMAT[i], BeaconArgs(b)[i]) && Same(BEACON_FORMAT[i], BeaconArgs(b)[i], o[i])
    ensures CopiedOf(o[7]) == b.fields && CopiedOf(o[9]) == b.payload && UpcallFrom(o) == Delivered(b)
  {
    var args := BeaconArgs(b);
    assert Same('v', args[0], o[0]) && Same('v', args[1], o[1]) && Same('b', args[2], o[2]) && Same('u', args[3], o[3]);
    assert Same('u', args[4], o[4]) && Same('u', args[5], o[5]) && Same('b', args[7], o[7]) && Same('b', args[9], o[9]);
    assert Content(args[2]) == b.source.long && Content(args[7]) == b.fields && Content(args[9]) == b.payload;
    assert AddressAt(o, 1) == b.source;
  }

  /**
   * The callback sees the beacon the NCP reported, whatever the buffers held before, exactly when
   * all three blobs are within their buffers and the two forms of the address agree.
   */
  lemma BeaconIsIdentity(b: Beacon, rest: seq<byte>, long: bool, fields: seq<byte>, payload: seq<byte>)
    requires |fields| == MAX_BEACON_FIELDS_LENGTH && |payload| == MAX_BEACON_PAYLOAD_LENGTH
    ensures ArrivesAsReported(b, rest, long, fields, payload) <==>
            |b.source.long| <= 8 && |b.fields| <= 84 && |b.payload| <= 30 && Agree(b.source)
  {
    if Within(b) {
      BeaconReads(b, rest, long);
      HoldsExactly(b.source);
    }
  }

  /** A beacon from short address 0x1234 without a long one reaches the callback with short address 0. */
  lemma ShortAddressLost(rest: seq<byte>, long: bool)
    ensures var b := Beacon(0, Address(0x1234, Zeros(EUI64_SIZE), MODE_SHORT), 0, false, [], []);
            var o := Read(Encode(BEACON_FORMAT, BeaconArgs(b), long) + rest, long);
            Within(b) && o.Some? && UpcallFrom(o.value).source.mode == MODE_SHORT &&
            ShortOf(UpcallFrom(o.value).source) == 0
  {
    BeaconReads(Beacon(0, Address(0x1234, Zeros(EUI64_SIZE), MODE_SHORT), 0, false, [], []), rest, long);
    ShortFormLost(MODE_SHORT);
  }
}

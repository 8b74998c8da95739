/**
 * Serialisation of commands: a format string drives a writer and a reader over byte buffers.
 * The functions are the wire format; class Serializer holds the source's two loops and the
 * length-mode flag, and is proved to compute them.
 */
module CspFormat {
  import opened ByteUtilities

  /** One variadic argument of the writer. A blob is a pointer (None for NULL) and a size. */
  datatype Arg = Num(n: u32) | Blob(data: Option<seq<byte>>, size: nat)

  /**
   * Where the reader puts one field. A copied blob also has a capacity, and a blob that is copied or
   * only pointed to the width of its length output.
   */
  datatype Dest =
    | Cell(isNull: bool)
    | Bytes(isNull: bool, narrow: bool, capacity: u16)
    | Pointer(isNull: bool, narrow: bool)

  /** What the reader has stored for one field; a pointer is the part of the buffer from it on. */
  datatype Out =
    | Skipped
    | Number(n: u32)
    | Data(copied: seq<byte>, length: u16)
    | View(at: Option<seq<byte>>, length: u16)

  /** What the writer knows; the reader also knows 'p', a blob left where it is. */
  predicate FieldChar(c: char) {
    c in {'u', 's', 'v', 'l', 'w', 'b'}
  }

  predicate ValidFormat(format: string) {
    forall i :: 0 <= i < |format| ==> FieldChar(format[i])
  }

  /** The argument is of the kind the format character takes, and its data is there to be read. */
  predicate ArgMatches(c: char, a: Arg) {
    if c == 'b' then a.Blob? && (a.data.Some? ==> a.size % 0x1_0000 <= |a.data.value|)
    else FieldChar(c) ==> a.Num?
  }

  predicate ArgsMatch(format: string, args: seq<Arg>) {
    |args| == |format| && forall i :: 0 <= i < |format| ==> ArgMatches(format[i], args[i])
  }

  predicate DestMatches(c: char, d: Dest) {
    (c == 'b' <==> d.Bytes?) && (c == 'p' <==> d.Pointer?)
  }

  predicate DestsMatch(format: string, dests: seq<Dest>) {
    |dests| == |format| && forall i :: 0 <= i < |format| ==> DestMatches(format[i], dests[i])
  }

  // ---- Wire format ----

  /** A length or count as the mode stores it: two bytes, or the low byte only. */
  function LengthBytes(n: nat, long: bool): seq<byte> {
    if long then HighLow16(n % 0x1_0000) else [n % 0x100]
  }

  /** The bytes a blob argument contributes; NULL data counts as zeroes. */
  function Content(a: Arg): (s: seq<byte>)
    requires ArgMatches('b', a)
    ensures |s| == a.size % 0x1_0000
  {
    var size := a.size % 0x1_0000;
    if a.data.Some? then a.data.value[..size] else Zeros(size)
  }

  function Field(c: char, a: Arg, long: bool): seq<byte>
    requires FieldChar(c) && ArgMatches(c, a)
  {
    match c
    case 'v' => HighLow16(a.n % 0x1_0000)
    case 'l' => LengthBytes(a.n, long)
    case 'w' => Stored32(false, a.n)
    case 'b' => LengthBytes(a.size % 0x1_0000, long) + Content(a)
    case _ => [a.n % 0x100]
  }

  function Encode(format: string, args: seq<Arg>, long: bool): seq<byte>
    requires ValidFormat(format) && ArgsMatch(format, args)
  {
    if format == "" then [] else Field(format[0], args[0], long) + Encode(format[1..], args[1..], long)
  }

  /** Reading the length prefix of a blob. */
  function PrefixSize(long: bool): nat {
    if long then 2 else 1
  }

  function Prefix(bytes: seq<byte>, long: bool): u16
    requires |bytes| >= PrefixSize(long)
  {
    if long then FetchHighLow16(bytes) else bytes[0]
  }

  function CopiedOf(o: Out): seq<byte> {
    if o.Data? then o.copied else []
  }

  /** What the reader stores for a blob of which `whole` arrived. */
  function Store(d: Dest, whole: seq<byte>): Out
    requires d.Bytes? && |whole| < 0x1_0000
  {
    Data(if d.isNull then [] else whole[..Min(|whole|, d.capacity)],
         Min(if d.narrow then |whole| % 0x100 else |whole|, d.capacity))
  }

  /** What the reader stores for a blob it only points to: no clamping, as nothing is copied. */
  function Show(d: Dest, from: seq<byte>, length: u16): Out
    requires d.Pointer?
  {
    View(if d.isNull then None else Some(from), if d.narrow then length % 0x100 else length)
  }

  /**
   * One field read from the front of `bytes`, with the number of bytes it takes up. None is the
   * undefined behaviour of the source: leaving the buffer, or storing through a NULL pointer it does
   * not test.
   */
  function DecodeField(c: char, d: Dest, bytes: seq<byte>, long: bool): (r: Option<(Out, nat)>)
    requires DestMatches(c, d)
    ensures r.Some? ==> r.value.1 <= |bytes|
  {
    match c
    case 'u' | 's' => if |bytes| < 1 then None else Some((if d.isNull then Skipped else Number(bytes[0]), 1))
    case 'v' => if |bytes| < 2 || d.isNull then None else Some((Number(FetchHighLow16(bytes)), 2))
    case 'l' =>
      if |bytes| < PrefixSize(long) || (long && d.isNull) then None
      else Some((if d.isNull then Skipped else Number(Prefix(bytes, long)), PrefixSize(long)))
    case 'w' => if |bytes| < 4 then None else Some((if d.isNull then Skipped else Number(FetchInt32u(false, bytes)), 4))
    case 'b' =>
      if |bytes| < PrefixSize(long) || |bytes| < PrefixSize(long) + Prefix(bytes, long) then None
      else
        var end := PrefixSize(long) + Prefix(bytes, long);
        Some((Store(d, bytes[PrefixSize(long)..end]), end))
    case 'p' =>
      if |bytes| < PrefixSize(long) || |bytes| < PrefixSize(long) + Prefix(bytes, long) then None
      else
        Some((Show(d, bytes[PrefixSize(long)..], Prefix(bytes, long)), PrefixSize(long) + Prefix(bytes, long)))
    case _ => Some((Skipped, 0))
  }

  /** Puts outputs already stored in front of those of the remaining fields. */
  function After(done: seq<Out>, rest: Option<seq<Out>>): Option<seq<Out>> {
    match rest
    case None => None
    case Some(outs) => Some(done + outs)
  }

  function Decode(format: string, dests: seq<Dest>, bytes: seq<byte>, long: bool): (r: Option<seq<Out>>)
    requires DestsMatch(format, dests)
    ensures r.Some? ==> |r.value| == |format|
  {
    if format == "" then Some([])
    else
      match DecodeField(format[0], dests[0], bytes, long)
      case None => None
      case Some((out, size)) => After([out], Decode(format[1..], dests[1..], bytes[size..], long))
  }

  /** Decoding puts the first field in front of the rest. */
  lemma DecodeStep(format: string, dests: seq<Dest>, bytes: seq<byte>, long: bool, field: Option<(Out, nat)>)
    requires DestsMatch(format, dests) && format != "" && field == DecodeField(format[0], dests[0], bytes, long)
    ensures field.None? ==> Decode(format, dests, bytes, long) == None
    ensures field.Some? ==>
              Decode(format, dests, bytes, long)
              == After([field.value.0], Decode(format[1..], dests[1..], bytes[field.value.1..], long))
  {
  }

  lemma AfterNothing(rest: Option<seq<Out>>)
    ensures After([], rest) == rest
  {
    if rest.Some? {
      assert [] + rest.value == rest.value;
    }
  }

  lemma AfterAfter(a: seq<Out>, b: seq<Out>, rest: Option<seq<Out>>)
    ensures After(a, After(b, rest)) == After(a + b, rest)
  {
    if rest.Some? {
      assert a + (b + rest.value) == (a + b) + rest.value;
    }
  }

  // ---- Round trip ----

  /** The argument survives the field's width in this mode. */
  predicate Fits(c: char, a: Arg, long: bool)
    requires FieldChar(c) && ArgMatches(c, a)
  {
    var lengthBound := if long then 0x1_0000 else 0x100;
    match c
    case 'v' => a.n < 0x1_0000
    case 'l' => a.n < lengthBound
    case 'w' => true
    case 'b' => a.size < lengthBound
    case _ => a.n < 0x100
  }

  predicate AllFit(format: string, args: seq<Arg>, long: bool)
    requires ValidFormat(format) && ArgsMatch(format, args)
  {
    format == "" || (Fits(format[0], args[0], long) && AllFit(format[1..], args[1..], long))
  }

  /** The output is the argument itself: the number, or all the bytes, copied or pointed to, with their number. */
  predicate Same(c: char, a: Arg, o: Out)
    requires a.Blob? ==> ArgMatches('b', a)
  {
    match a
    case Num(n) => o == Number(n)
    case Blob(_, size) =>
      if c == 'p' then o.View? && o.length == size && o.at.Some? && Content(a) <= o.at.value
      else o.Data? && o.length == size && o.copied == Content(a)
  }

  /** A reading format fits a writing one if it differs only in pointing to blobs instead of copying them. */
  predicate Reads(read: string, format: string) {
    |read| == |format| && forall i :: 0 <= i < |format| ==> read[i] == format[i] || (format[i] == 'b' && read[i] == 'p')
  }

  predicate AllSame(read: string, format: string, args: seq<Arg>, outs: seq<Out>)
    requires ValidFormat(format) && ArgsMatch(format, args) && Reads(read, format)
  {
    |outs| == |args| &&
    (format == "" ||
     (ArgMatches(format[0], args[0]) && Same(read[0], args[0], outs[0]) &&
      AllSame(read[1..], format[1..], args[1..], outs[1..])))
  }

  /** The destination has room for the argument: not NULL, large enough, and a wide enough length. */
  predicate Roomy(a: Arg, d: Dest) {
    !d.isNull &&
    (d.Bytes? && a.Blob? ==> a.size <= d.capacity) &&
    (!d.Cell? && a.Blob? && d.narrow ==> a.size < 0x100)
  }

  predicate AllRoomy(args: seq<Arg>, dests: seq<Dest>) {
    |args| == |dests| && forall i :: 0 <= i < |args| ==> Roomy(args[i], dests[i])
  }

  lemma BlobRoundTrip(a: Arg, d: Dest, rest: seq<byte>, long: bool)
    requires ArgMatches('b', a) && DestMatches('b', d) && Roomy(a, d) && Fits('b', a, long)
    ensures var r := DecodeField('b', d, Field('b', a, long) + rest, long);
            r.Some? && Same('b', a, r.value.0) && r.value.1 == |Field('b', a, long)|
  {
    var bytes := Field('b', a, long) + rest;
    assert a.size % 0x1_0000 == a.size;
    assert Prefix(bytes, long) == a.size;
    var end := PrefixSize(long) + a.size;
    assert bytes[PrefixSize(long)..end] == Content(a);
  }

  /** A blob that is pointed to is found where the writer put it. */
  lemma BlobPointedTo(a: Arg, d: Dest, rest: seq<byte>, long: bool)
    requires ArgMatches('b', a) && DestMatches('p', d) && Roomy(a, d) && Fits('b', a, long)
    ensures var r := DecodeField('p', d, Field('b', a, long) + rest, long);
            r.Some? && Same('p', a, r.value.0) && r.value.1 == |Field('b', a, long)|
  {
    var bytes := Field('b', a, long) + rest;
    assert a.size % 0x1_0000 == a.size;
    assert Prefix(bytes, long) == a.size;
    assert bytes[PrefixSize(long)..] == Content(a) + rest;
  }

  /** A field that fits is read back, and the reader stops exactly where the writer did. */
  lemma FieldRoundTrip(read: char, c: char, a: Arg, d: Dest, rest: seq<byte>, long: bool)
    requires FieldChar(c) && ArgMatches(c, a) && Reads([read], [c]) && DestMatches(read, d) && Roomy(a, d) &&
             Fits(c, a, long)
    ensures var r := DecodeField(read, d, Field(c, a, long) + rest, long);
            r.Some? && Same(read, a, r.value.0) && r.value.1 == |Field(c, a, long)|
  {
    assert [read][0] == [c][0] || ([c][0] == 'b' && [read][0] == 'p');
    if read == 'p' {
      BlobPointedTo(a, d, rest, long);
    } else if c == 'b' {
      BlobRoundTrip(a, d, rest, long);
    } else if c == 'w' {
      var bytes := Field(c, a, long) + rest;
      assert bytes[..4] == Stored32(false, a.n);
      StoreFetch32(false, a.n, bytes[..4]);
    }
  }

  /** A field that does not fit is read back as something else, if at all. */
  lemma FieldLoss(read: char, c: char, a: Arg, d: Dest, rest: seq<byte>, long: bool)
    requires FieldChar(c) && ArgMatches(c, a) && Reads([read], [c]) && DestMatches(read, d) && Roomy(a, d) &&
             !Fits(c, a, long)
    ensures var r := DecodeField(read, d, Field(c, a, long) + rest, long); r.Some? ==> !Same(read, a, r.value.0)
  {
    assert [read][0] == [c][0] || ([c][0] == 'b' && [read][0] == 'p');
    var bytes := Field(c, a, long) + rest;
    if c == 'b' {
      assert Prefix(bytes, long) < a.size;
    }
  }

  /**
   * For every format, argument list, mode and following bytes, and whichever blobs are copied and
   * which pointed to: the reader returns the arguments exactly when each of them fits its field.
   */
  lemma {:induction false} RoundTrip(read: string, format: string, args: seq<Arg>, dests: seq<Dest>, rest: seq<byte>,
                                     long: bool)
    requires ValidFormat(format) && ArgsMatch(format, args) && Reads(read, format)
    requires DestsMatch(read, dests) && AllRoomy(args, dests)
    ensures var r := Decode(read, dests, Encode(format, args, long) + rest, long);
            (r.Some? && AllSame(read, format, args, r.value)) <==> AllFit(format, args, long)
  {
    if format != "" {
      var head, tail := Field(format[0], args[0], long), Encode(format[1..], args[1..], long);
      var bytes := Encode(format, args, long) + rest;
      assert bytes == head + (tail + rest);
      if Fits(format[0], args[0], long) {
        FieldRoundTrip(read[0], format[0], args[0], dests[0], tail + rest, long);
        assert bytes[|head|..] == tail + rest;
        RoundTrip(read[1..], format[1..], args[1..], dests[1..], rest, long);
      } else {
        FieldLoss(read[0], format[0], args[0], dests[0], tail + rest, long);
      }
    }
  }

  // ---- Truncation ----

  /** The destination with nothing withheld: room for any blob and a 16-bit length. */
  function Unlimited(d: Dest): Dest {
    match d
    case Cell(_) => Cell(false)
    case Bytes(_, _, _) => Bytes(false, false, 0xFFFF)
    case Pointer(_, _) => Pointer(false, false)
  }

  function AllUnlimited(dests: seq<Dest>): (r: seq<Dest>)
    ensures |r| == |dests|
    ensures forall i :: 0 <= i < |dests| ==> r[i] == Unlimited(dests[i])
  {
    seq(|dests|, i requires 0 <= i < |dests| => Unlimited(dests[i]))
  }

  /** What a destination keeps of a field that arrived in full. */
  function Clamp(d: Dest, full: Out): Out {
    match full
    case Skipped => Skipped
    case Number(n) => if d.isNull then Skipped else full
    case View(at, length) => if d.Pointer? && at.Some? then Show(d, at.value, length) else full
    case Data(whole, _) => if d.Bytes? && |whole| < 0x1_0000 then Store(d, whole) else full
  }

  /** The two destinations the source stores through without testing for NULL. */
  predicate NullSafe(format: string, dests: seq<Dest>, long: bool)
    requires |dests| == |format|
  {
    forall i :: 0 <= i < |format| && (format[i] == 'v' || (format[i] == 'l' && long)) ==> !dests[i].isNull
  }

  lemma FieldClamps(c: char, d: Dest, bytes: seq<byte>, long: bool)
    requires DestMatches(c, d) && (c == 'v' || (c == 'l' && long) ==> !d.isNull)
    ensures var r, full := DecodeField(c, d, bytes, long), DecodeField(c, Unlimited(d), bytes, long);
            r.Some? == full.Some? && (r.Some? ==> r.value.1 == full.value.1 && r.value.0 == Clamp(d, full.value.0))
  {
    if c == 'b' && DecodeField(c, d, bytes, long).Some? {
      var whole := bytes[PrefixSize(long)..PrefixSize(long) + Prefix(bytes, long)];
      assert whole[..|whole|] == whole;
      assert Store(Unlimited(d), whole) == Data(whole, |whole|);
    }
  }

  /**
   * Truncation never desynchronises: whatever the bytes, each output is the clamped form of what
   * an unlimited destination would have received, so a field cut short changes no other field.
   */
  lemma {:induction false} TruncationIsLocal(format: string, dests: seq<Dest>, bytes: seq<byte>, long: bool)
    requires DestsMatch(format, dests) && NullSafe(format, dests, long)
    ensures var r, full := Decode(format, dests, bytes, long), Decode(format, AllUnlimited(dests), bytes, long);
            r.Some? == full.Some? &&
            (r.Some? ==> forall i :: 0 <= i < |format| ==> r.value[i] == Clamp(dests[i], full.value[i]))
  {
    if format != "" {
      FieldClamps(format[0], dests[0], bytes, long);
      var first := DecodeField(format[0], dests[0], bytes, long);
      if first.Some? {
        TruncationIsLocal(format[1..], dests[1..], bytes[first.value.1..], long);
        assert AllUnlimited(dests)[1..] == AllUnlimited(dests[1..]);
        var r, full := Decode(format, dests, bytes, long), Decode(format, AllUnlimited(dests), bytes, long);
        if r.Some? {
          forall i | 0 <= i < |format|
            ensures r.value[i] == Clamp(dests[i], full.value[i])
          {
            if i > 0 {
              assert r.value[i] == r.value[1..][i - 1] && full.value[i] == full.value[1..][i - 1];
            }
          }
        }
      }
    }
  }

  /**
   * The length reported equals the bytes copied always with a 16-bit length output, and with an
   * 8-bit one exactly when the blob has at most 255 bytes or the capacity hides the difference.
   */
  lemma ReportedLength(d: Dest, whole: seq<byte>)
    requires d.Bytes? && !d.isNull && |whole| < 0x1_0000
    ensures Store(d, whole).copied == whole[..Min(|whole|, d.capacity)]
    ensures Store(d, whole).length == |Store(d, whole).copied| <==>
            !d.narrow || |whole| < 0x100 || d.capacity <= |whole| % 0x100
    ensures var sent := if d.narrow then |whole| % 0x100 else |whole|;
            Store(d, whole).length == sent <= d.capacity || sent > d.capacity == Store(d, whole).length
  {
  }

  /** 256 bytes into room for 84, with an 8-bit length output: 84 are copied and none reported. */
  lemma ReportedLengthCanDiffer()
    ensures var stored := Store(Bytes(false, true, 84), Zeros(256)); |stored.copied| == 84 && stored.length == 0
  {
  }

  // ---- Lengths ----

  lemma {:induction false} EncodeSnoc(format: string, args: seq<Arg>, long: bool, i: nat)
    requires ValidFormat(format) && ArgsMatch(format, args) && i < |format|
    ensures Encode(format[..i + 1], args[..i + 1], long)
            == Encode(format[..i], args[..i], long) + Field(format[i], args[i], long)
  {
    if i == 0 {
      assert format[..1][1..] == "" && args[..1][1..] == [];
      assert Encode(format[..1], args[..1], long) == Field(format[0], args[0], long) + Encode("", [], long);
    } else {
      EncodeSnoc(format[1..], args[1..], long, i - 1);
      assert format[..i + 1][1..] == format[1..][..i] && args[..i + 1][1..] == args[1..][..i];
      assert format[..i][1..] == format[1..][..i - 1] && args[..i][1..] == args[1..][..i - 1];
      Regroup(Field(format[0], args[0], long), Encode(format[1..i], args[1..i], long), Field(format[i], args[i], long));
    }
  }

  // ---- Field by field ----

  lemma {:induction false} AllFitAt(format: string, args: seq<Arg>, long: bool)
    requires ValidFormat(format) && ArgsMatch(format, args)
    requires forall i :: 0 <= i < |format| ==> Fits(format[i], args[i], long)
    ensures AllFit(format, args, long)
  {
    if format != "" {
      AllFitAt(format[1..], args[1..], long);
    }
  }

  lemma {:induction false} SameAt(read: string, format: string, args: seq<Arg>, outs: seq<Out>, i: nat)
    requires ValidFormat(format) && ArgsMatch(format, args) && Reads(read, format)
    requires AllSame(read, format, args, outs) && i < |args|
    ensures ArgMatches(format[i], args[i]) && Same(read[i], args[i], outs[i])
  {
    if i > 0 {
      SameAt(read[1..], format[1..], args[1..], outs[1..], i - 1);
    }
  }

  /** What kind of output each format character leaves in a destination that is not NULL. */
  lemma {:induction false} ShapeAt(format: string, dests: seq<Dest>, bytes: seq<byte>, long: bool, i: nat)
    requires DestsMatch(format, dests) && i < |format| && !dests[i].isNull && Decode(format, dests, bytes, long).Some?
    ensures var o := Decode(format, dests, bytes, long).value[i];
            (format[i] == 'b' ==> o.Data?) &&
            (format[i] == 'u' ==> o.Number? && o.n < 0x100) &&
            (format[i] == 'w' ==> o.Number?)
  {
    if i > 0 {
      var field := DecodeField(format[0], dests[0], bytes, long).value;
      ShapeAt(format[1..], dests[1..], bytes[field.1..], long, i - 1);
    }
  }

  /** A decoded blob never reports more than its capacity, nor more than a short prefix can say. */
  lemma {:induction false} BlobBounded(format: string, dests: seq<Dest>, bytes: seq<byte>, long: bool, i: nat)
    requires DestsMatch(format, dests) && i < |format| && format[i] == 'b' && Decode(format, dests, bytes, long).Some?
    ensures var o := Decode(format, dests, bytes, long).value[i];
            o.Data? && o.length <= dests[i].capacity && (!long ==> o.length < 0x100)
  {
    if i > 0 {
      var field := DecodeField(format[0], dests[0], bytes, long).value;
      BlobBounded(format[1..], dests[1..], bytes[field.1..], long, i - 1);
    }
  }

  /**
   * No blob is copied past its capacity; a 16-bit length output says how many bytes were copied, an
   * 8-bit one never more.
   */
  lemma {:induction false} CopyBounded(format: string, dests: seq<Dest>, bytes: seq<byte>, long: bool, i: nat)
    requires DestsMatch(format, dests) && i < |format| && format[i] == 'b' && Decode(format, dests, bytes, long).Some?
    ensures var o, d := Decode(format, dests, bytes, long).value[i], dests[i];
            o.Data? && |o.copied| <= d.capacity &&
            (!d.isNull ==> o.length <= |o.copied| && (!d.narrow ==> o.length == |o.copied|))
  {
    if i > 0 {
      var field := DecodeField(format[0], dests[0], bytes, long).value;
      CopyBounded(format[1..], dests[1..], bytes[field.1..], long, i - 1);
    }
  }

  // ---- NULL destinations and unknown characters ----

  /** A field read into NULL is passed over, except for the two that are stored without a test. */
  lemma NullPassedOver(c: char, bytes: seq<byte>, long: bool)
    requires c in {'u', 's', 'v', 'l', 'w'} && |bytes| >= 4
    ensures var r := DecodeField(c, Cell(true), bytes, long);
            if c == 'v' || (c == 'l' && long) then r == None
            else r == Some((Skipped, if c == 'w' then 4 else 1))
  {
  }

  /** A blob read into NULL is passed over as well, but its length is reported. */
  lemma NullBlobPassedOver(a: Arg, d: Dest, rest: seq<byte>, long: bool)
    requires ArgMatches('b', a) && a.size < (if long then 0x1_0000 else 0x100) && d.isNull && !d.Cell?
    ensures var c := if d.Bytes? then 'b' else 'p';
            var r := DecodeField(c, d, Field('b', a, long) + rest, long);
            r.Some? && r.value.1 == |Field('b', a, long)| &&
            if d.Bytes? then r.value.0.Data? && r.value.0.copied == []
            else r.value.0 == View(None, if d.narrow then a.size % 0x100 else a.size)
  {
    var bytes := Field('b', a, long) + rest;
    assert a.size % 0x1_0000 == a.size && Prefix(bytes, long) == a.size;
  }

  /** An 8-bit length output of a blob that is pointed to keeps the low byte, with no clamping. */
  lemma ShownLength(a: Arg, d: Dest, rest: seq<byte>, long: bool)
    requires ArgMatches('b', a) && a.size < (if long then 0x1_0000 else 0x100) && d.Pointer? && !d.isNull
    ensures var r := DecodeField('p', d, Field('b', a, long) + rest, long);
            r.Some? && r.value.0.View? && r.value.0.at == Some(Content(a) + rest) &&
            r.value.0.length == if d.narrow then a.size % 0x100 else a.size
  {
    var bytes := Field('b', a, long) + rest;
    assert a.size % 0x1_0000 == a.size && Prefix(bytes, long) == a.size;
    assert bytes[PrefixSize(long)..] == Content(a) + rest;
  }

  /** The reader passes over format characters it does not know; the writer refuses them. */
  lemma UnknownIgnored(c: char, dest: Dest, bytes: seq<byte>, long: bool)
    requires c !in {'u', 's', 'v', 'l', 'w', 'b', 'p'} && dest.Cell?
    ensures DecodeField(c, dest, bytes, long) == Some((Skipped, 0)) && !ValidFormat([c])
  {
    assert [c][0] == c;
  }
}

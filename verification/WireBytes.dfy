/** What crosses the link to the NCP, byte by byte: fields, commands, frames and requests. */
module WireBytes {
  import opened ByteUtilities
  import opened CspFormat
  import opened NcpCommands
  import S = CspSerializer
  import Q = CallbackQueue

  // ---- Numbers and lists ----

  /** Most significant byte first, as are all numbers on the link. */
  function Half(v: u16): seq<byte> {
    [v / 0x100, v % 0x100]
  }

  function Word(v: u32): seq<byte> {
    [v / 0x100_0000, v / 0x1_0000 % 0x100, v / 0x100 % 0x100, v % 0x100]
  }

  function Bit(b: bool): seq<byte> {
    [if b then 1 else 0]
  }

  /** A length: two bytes in long mode, and in short mode its low byte. */
  function Kept(n: u16, long: bool): seq<byte> {
    if long then Half(n) else [n % 0x100]
  }

  function Flat(parts: seq<seq<byte>>): seq<byte> {
    if parts == [] then [] else parts[0] + Flat(parts[1..])
  }

  lemma NumbersOnTheLink(v: u16, w: u32)
    ensures HighLow16(v) == Half(v) && Stored32(false, w) == Word(w)
  {
    assert w / 0x100 / 0x100 == w / 0x1_0000 && w / 0x100 / 0x100 / 0x100 == w / 0x100_0000;
  }

  /** How one field is written. */
  predicate IsPart(c: char, a: Arg, part: seq<byte>, long: bool) {
    FieldChar(c) && ArgMatches(c, a) && Field(c, a, long) == part
  }

  predicate PartsOf(format: string, args: seq<Arg>, parts: seq<seq<byte>>, long: bool) {
    |format| == |args| == |parts| && forall i :: 0 <= i < |format| ==> IsPart(format[i], args[i], parts[i], long)
  }

  lemma ByteField(n: byte, long: bool)
    ensures IsPart('u', Num(n), [n], long) && IsPart('s', Num(n), [n], long)
  {
  }

  lemma HalfField(n: u16, long: bool)
    ensures IsPart('v', Num(n), Half(n), long)
  {
  }

  lemma WordField(n: u32, long: bool)
    ensures IsPart('w', Num(n), Word(n), long)
  {
    NumbersOnTheLink(0, n);
  }

  lemma LengthField(n: u16, long: bool)
    ensures IsPart('l', Num(n), Kept(n, long), long)
  {
  }

  lemma BlobField(data: seq<byte>, long: bool)
    requires |data| < 0x1_0000
    ensures IsPart('b', Blob(Some(data), |data|), Kept(|data|, long) + data, long)
  {
    assert |data| % 0x1_0000 == |data| && data[..|data|] == data;
  }

  /** NULL is written as zeroes. */
  lemma NullField(n: u16, long: bool)
    ensures IsPart('b', Blob(None, n), Kept(n, long) + Zeros(n), long)
  {
  }

  lemma {:induction false} EncodeIsFlat(format: string, args: seq<Arg>, parts: seq<seq<byte>>, long: bool)
    requires PartsOf(format, args, parts, long)
    ensures ValidFormat(format) && ArgsMatch(format, args) && Encode(format, args, long) == Flat(parts)
  {
    assert forall i :: 0 <= i < |format| ==> IsPart(format[i], args[i], parts[i], long);
    if format != "" {
      EncodeIsFlat(format[1..], args[1..], parts[1..], long);
    }
  }

  // ---- Commands and frames ----

  /** A command buffer: the identifier, the fields, zeroes up to its size, and what lies behind it untouched. */
  lemma CommandBytes(identifier: u16, fields: seq<byte>, size: nat, tail: seq<byte>)
    requires 2 + |fields| <= size
    ensures var c := S.Command(identifier, fields, size, tail);
            c[..2] == Half(identifier) && c[2..2 + |fields|] == fields && c[size..] == tail &&
            forall i :: 2 + |fields| <= i < size ==> c[i] == 0
  {
  }

  /** A callback command in the pipe stands behind its length. */
  lemma FrameBytes(c: Q.Command)
    ensures Q.Frame(c) == Half(|c|) + c
  {
  }

  // ---- Requests ----

  /**
   * The bytes emberMessageSend transmits, for every call and mode. The length is there twice, and for a
   * message too long for the short mode both keep their low byte only.
   */
  lemma MessageSendBytes(destination: u16, endpoint: byte, tag: byte, message: seq<byte>, options: byte, long: bool)
    requires |message| < 0x1_0000
    ensures Request(MessageSend(destination, endpoint, tag, message, options), long)
            == [0x69, 0x16] + Flat([Half(destination), [endpoint], [tag], Kept(|message|, long),
                                    Kept(|message|, long) + message, [options]])
  {
    var parts := [Half(destination), [endpoint], [tag], Kept(|message|, long), Kept(|message|, long) + message,
                  [options]];
    var args := ArgsOf(MessageSend(destination, endpoint, tag, message, options));
    forall i | 0 <= i < 6 ensures IsPart("vuulbu"[i], args[i], parts[i], long) {
      match i
      case 0 => HalfField(destination, long);
      case 1 => ByteField(endpoint, long);
      case 2 => ByteField(tag, long);
      case 3 => LengthField(|message|, long);
      case 4 => BlobField(message, long);
      case _ => ByteField(options, long);
    }
    EncodeIsFlat("vuulbu", args, parts, long);
  }

  lemma SetLongMessagesBytes(useLong: bool, long: bool)
    ensures Request(SetLongMessages(useLong), long) == [0x69, 0x56] + Bit(useLong)
  {
    ByteField(if useLong then 1 else 0, long);
    EncodeIsFlat("u", ArgsOf(SetLongMessages(useLong)), [Bit(useLong)], long);
    assert [Bit(useLong)][1..] == [];
    assert Flat([Bit(useLong)]) == Bit(useLong) + [];
  }
}

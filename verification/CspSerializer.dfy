/** The writer, the reader and the length counter of csp-format.c, over mutable buffers. */
module CspSerializer {
  import opened ByteUtilities
  import opened CspFormat

  /**
   * A written command, one of the two conditions under which the source stops the program, or the
   * undefined behaviour of fields written past the buffer that the check for that lets through.
   */
  datatype Formatted = Length(n: u16) | InvalidFormat | Overflow | Overrun(n: u16)

  /** A command buffer: the identifier, the fields, zeroes up to `size`, then what was there before. */
  function Command(identifier: u16, fields: seq<byte>, size: nat, tail: seq<byte>): (s: seq<byte>)
    requires 2 + |fields| <= size
    ensures |s| == size + |tail|
  {
    HighLow16(identifier) + fields + Zeros(size - 2 - |fields|) + tail
  }

  lemma CommandGrows(identifier: u16, fields: seq<byte>, more: seq<byte>, size: nat, tail: seq<byte>)
    requires 2 + |fields| + |more| <= size
    ensures Spliced(Command(identifier, fields, size, tail), 2 + |fields|, more)
            == Command(identifier, fields + more, size, tail)
  {
  }

  /** A valid prefix of the format extended by one field: its encoding grows by that field. */
  lemma EncodePrefix(format: string, args: seq<Arg>, long: bool, i: nat)
    requires ArgsMatch(format, args) && i < |format| && ValidFormat(format[..i]) && FieldChar(format[i])
    ensures ValidFormat(format[..i + 1])
    ensures Encode(format[..i + 1], args[..i + 1], long)
            == Encode(format[..i], args[..i], long) + Field(format[i], args[i], long)
  {
    var f, a := format[..i + 1], args[..i + 1];
    assert forall k :: 0 <= k < i ==> f[k] == format[..i][k];
    assert f[..i] == format[..i] && a[..i] == args[..i] && f[..i + 1] == f && a[..i + 1] == a;
    EncodeSnoc(f, a, long, i);
  }

  /** Bytes the field takes in a mode. */
  function FieldSize(c: char, a: Arg, long: bool): (n: nat)
    requires FieldChar(c) && ArgMatches(c, a)
    ensures n == |Field(c, a, long)|
  {
    match c
    case 'v' => 2
    case 'l' => PrefixSize(long)
    case 'w' => 4
    case 'b' => PrefixSize(long) + a.size % 0x1_0000
    case _ => 1
  }

  class Serializer {
    var useLongMessageLength: bool

    constructor ()
      ensures !useLongMessageLength
    {
      useLongMessageLength := false;
    }

    method SetLongMessageUse(useLongMessages: bool)
      modifies this
      ensures useLongMessageLength == useLongMessages
    {
      useLongMessageLength := useLongMessages;
    }

    // ---- Writer ----

    /** Stores a length; returns the number of bytes used. */
    static method PutLength(buffer: array<byte>, finger: nat, n: nat, long: bool) returns (used: nat)
      requires finger + PrefixSize(long) <= buffer.Length
      modifies buffer
      ensures used == PrefixSize(long)
      ensures buffer[..] == Spliced(old(buffer[..]), finger, LengthBytes(n, long))
    {
      if long {
        StoreHighLowInt16u(buffer, finger, n % 0x1_0000);
        used := 2;
      } else {
        buffer[finger] := n % 0x100;
        used := 1;
      }
    }

    /** Prefix and contents of a blob; NULL data is written as zeroes. */
    static method PutBlob(buffer: array<byte>, finger: nat, a: Arg, long: bool) returns (used: nat)
      requires ArgMatches('b', a) && finger + |Field('b', a, long)| <= buffer.Length
      modifies buffer
      ensures used == |Field('b', a, long)|
      ensures buffer[..] == Spliced(old(buffer[..]), finger, Field('b', a, long))
    {
      var dataSize: u16 := a.size % 0x1_0000;
      used := PutLength(buffer, finger, dataSize, long);
      SplicedTwice(old(buffer[..]), finger, LengthBytes(dataSize, long), Content(a));
      if dataSize > 0 {
        CopyInto(buffer, finger + used, if a.data.Some? then a.data.value[..dataSize] else Zeros(dataSize));
      }
      used := used + dataSize;
    }

    /** One turn of the writer's switch. */
    static method PutField(buffer: array<byte>, finger: nat, c: char, a: Arg, long: bool) returns (used: nat)
      requires FieldChar(c) && ArgMatches(c, a) && finger + |Field(c, a, long)| <= buffer.Length
      modifies buffer
      ensures used == |Field(c, a, long)|
      ensures buffer[..] == Spliced(old(buffer[..]), finger, Field(c, a, long))
    {
      match c {
        case 'u' | 's' =>
          buffer[finger] := a.n % 0x100;
          used := 1;
        case 'v' =>
          StoreHighLowInt16u(buffer, finger, a.n % 0x1_0000);
          used := 2;
        case 'l' =>
          used := PutLength(buffer, finger, a.n, long);
        case 'w' =>
          StoreInt32u(false, buffer, finger, a.n);
          used := 4;
        case 'b' =>
          used := PutBlob(buffer, finger, a, long);
      }
    }

    /** memset and the identifier: an empty command. */
    static method StartCommand(buffer: array<byte>, bufferSize: u16, identifier: u16)
      requires 2 <= bufferSize <= buffer.Length
      modifies buffer
      ensures buffer[..] == Command(identifier, [], bufferSize, old(buffer[bufferSize..]))
    {
      CopyInto(buffer, 0, Zeros(bufferSize));
      StoreHighLowInt16u(buffer, 0, identifier);
    }

    /** One field more in a command under construction. */
    static method AppendField(buffer: array<byte>, c: char, a: Arg, long: bool,
                              ghost identifier: u16, ghost fields: seq<byte>, ghost size: u16, ghost tail: seq<byte>,
                              finger: nat) returns (used: nat)
      requires FieldChar(c) && ArgMatches(c, a) && finger == 2 + |fields| && finger + |Field(c, a, long)| <= size
      requires buffer[..] == Command(identifier, fields, size, tail)
      modifies buffer
      ensures used == |Field(c, a, long)|
      ensures buffer[..] == Command(identifier, fields + Field(c, a, long), size, tail)
    {
      CommandGrows(identifier, fields, Field(c, a, long), size, tail);
      assert buffer.Length == |buffer[..]|;
      used := PutField(buffer, finger, c, a, long);
    }

    /** The next field, as long as the fields stay inside the buffer; past its end nothing is claimed. */
    static method NextField(buffer: array<byte>, bufferSize: u16, c: char, a: Arg, long: bool,
                            ghost identifier: u16, ghost fields: seq<byte>, ghost tail: seq<byte>, finger: nat)
      returns (outside: bool)
      requires FieldChar(c) && ArgMatches(c, a) && finger == 2 + |fields|
      requires finger <= bufferSize ==> buffer[..] == Command(identifier, fields, bufferSize, tail)
      modifies buffer
      ensures outside <==> finger + |Field(c, a, long)| > bufferSize
      ensures !outside ==> buffer[..] == Command(identifier, fields + Field(c, a, long), bufferSize, tail)
    {
      outside := finger + FieldSize(c, a, long) > bufferSize;
      if !outside {
        var used := AppendField(buffer, c, a, long, identifier, fields, bufferSize, tail, finger);
      }
    }

    /**
     * Writes a command: the identifier, then the fields in format order, then zeroes up to the buffer
     * size. The length is checked after the fact and in 16 bits: a command that left the buffer is
     * caught exactly when the low 16 bits of its length exceed the buffer size.
     */
    method FormatResponseCommand(buffer: array<byte>, bufferSize: u16, identifier: u16, format: string, args: seq<Arg>)
      returns (r: Formatted)
      requires bufferSize <= buffer.Length && ArgsMatch(format, args)
      modifies buffer
      ensures r.InvalidFormat? <==> !ValidFormat(format)
      ensures ValidFormat(format) ==>
                var total := 2 + |Encode(format, args, useLongMessageLength)|;
                (r.Length? <==> total <= bufferSize) && (r.Overflow? <==> total % 0x1_0000 > bufferSize) &&
                (r.Length? || r.Overrun? ==> r.n == total % 0x1_0000)
      ensures r.Length? ==>
                buffer[..] == Command(identifier, Encode(format, args, useLongMessageLength), bufferSize,
                                      old(buffer[bufferSize..]))
    {
      var long := useLongMessageLength;
      ghost var tail := buffer[bufferSize..];
      var outside := bufferSize < 2;
      if !outside {
        StartCommand(buffer, bufferSize, identifier);
      }
      var finger := 2;
      ghost var fields: seq<byte> := [];
      var i := 0;
      while i < |format|
        invariant i <= |format| && ValidFormat(format[..i]) && fields == Encode(format[..i], args[..i], long)
        invariant finger == 2 + |fields|
        invariant outside <==> finger > bufferSize
        invariant !outside ==> buffer[..] == Command(identifier, fields, bufferSize, tail)
      {
        if !FieldChar(format[i]) {
          return InvalidFormat;
        }
        EncodePrefix(format, args, long, i);
        outside := NextField(buffer, bufferSize, format[i], args[i], long, identifier, fields, tail, finger);
        fields := fields + Field(format[i], args[i], long);
        finger := finger + FieldSize(format[i], args[i], long);
        i := i + 1;
      }
      assert format[..i] == format && args[..i] == args;
      var length: u16 := finger % 0x1_0000;
      if length > bufferSize {
        return Overflow;
      }
      return if outside then Overrun(length) else Length(length);
    }

    // ---- Reader: the read pointer is the part of the buffer still ahead of it ----

    static method FetchLength(readPointer: seq<byte>, long: bool) returns (n: u16)
      requires PrefixSize(long) <= |readPointer|
      ensures n == Prefix(readPointer, long)
    {
      if long {
        n := FetchHighLow16(readPointer);
      } else {
        n := readPointer[0];
      }
    }

    /** The blob case of the reader's switch: clamp the reported length, then copy what fits. */
    static method FetchBlob(readPointer: seq<byte>, d: Dest, long: bool) returns (r: Option<(Out, nat)>)
      requires d.Bytes?
      ensures r == DecodeField('b', d, readPointer, long)
    {
      if |readPointer| < PrefixSize(long) {
        return None;
      }
      var bufferLength := FetchLength(readPointer, long);
      if |readPointer| < PrefixSize(long) + bufferLength {
        return None;
      }
      var stored := CopyBlob(readPointer[PrefixSize(long)..PrefixSize(long) + bufferLength], d);
      return Some((stored, PrefixSize(long) + bufferLength));
    }

    static method CopyBlob(data: seq<byte>, d: Dest) returns (o: Out)
      requires d.Bytes? && |data| < 0x1_0000
      ensures o == Store(d, data)
    {
      var bufferLength: u16 := |data|;
      var length: u16 := if d.narrow then bufferLength % 0x100 else bufferLength;
      if length > d.capacity {
        length := d.capacity;
      }
      var copied: seq<byte> := [];
      if !d.isNull {
        if bufferLength <= d.capacity {
          copied := data[..bufferLength];
        } else {
          copied := data[..d.capacity];
        }
      }
      return Data(copied, length);
    }

    /** The pointer case: the length as it is, and where the data begins. */
    static method FetchPointer(readPointer: seq<byte>, d: Dest, long: bool) returns (r: Option<(Out, nat)>)
      requires d.Pointer?
      ensures r == DecodeField('p', d, readPointer, long)
    {
      if |readPointer| < PrefixSize(long) {
        return None;
      }
      var bufferLength := FetchLength(readPointer, long);
      if |readPointer| < PrefixSize(long) + bufferLength {
        return None;
      }
      var length: u16 := if d.narrow then bufferLength % 0x100 else bufferLength;
      var at := if d.isNull then None else Some(readPointer[PrefixSize(long)..]);
      return Some((View(at, length), PrefixSize(long) + bufferLength));
    }

    /** One turn of the reader's switch: what is stored, and how far the read pointer moves. */
    static method FetchField(readPointer: seq<byte>, c: char, d: Dest, long: bool) returns (r: Option<(Out, nat)>)
      requires DestMatches(c, d)
      ensures r == DecodeField(c, d, readPointer, long)
    {
      match c {
        case 's' | 'u' =>
          if |readPointer| < 1 {
            return None;
          }
          return Some((if d.isNull then Skipped else Number(readPointer[0]), 1));
        case 'v' =>
          if |readPointer| < 2 || d.isNull {
            return None;
          }
          return Some((Number(FetchHighLow16(readPointer)), 2));
        case 'l' =>
          if |readPointer| < PrefixSize(long) || (long && d.isNull) {
            return None;
          }
          var n := FetchLength(readPointer, long);
          return Some((if d.isNull then Skipped else Number(n), PrefixSize(long)));
        case 'w' =>
          if |readPointer| < 4 {
            return None;
          }
          return Some((if d.isNull then Skipped else Number(FetchInt32u(false, readPointer)), 4));
        case 'b' =>
          r := FetchBlob(readPointer, d, long);
        case 'p' =>
          r := FetchPointer(readPointer, d, long);
        case _ =>
          return Some((Skipped, 0));
      }
    }

    /** Reads the fields of `format` in turn; what each destination receives. */
    method FetchParams(data: seq<byte>, format: string, dests: seq<Dest>) returns (r: Option<seq<Out>>)
      requires DestsMatch(format, dests)
      ensures r == Decode(format, dests, data, useLongMessageLength)
    {
      var long := useLongMessageLength;
      var readPointer := data;
      var outs: seq<Out> := [];
      var i: nat := 0;
      AfterNothing(Decode(format, dests, data, long));
      while i < |format|
        invariant i <= |format|
        invariant Decode(format, dests, data, long) == After(outs, Decode(format[i..], dests[i..], readPointer, long))
      {
        var field := FetchField(readPointer, format[i], dests[i], long);
        Turn(format, dests, i, outs, readPointer, long, field);
        if field.None? {
          return None;
        }
        readPointer := readPointer[field.value.1..];
        outs := outs + [field.value.0];
        i := i + 1;
      }
      assert format[i..] == "" && outs + [] == outs;
      return Some(outs);
    }

    // ---- Length counter ----

    /**
     * computeCommandLength: the running length is a byte. None stands for the fatal exit on an
     * invalid format character.
     */
    method ComputeCommandLength(initialLength: byte, format: string, args: seq<Arg>) returns (r: Option<byte>)
      requires ArgsMatch(format, args)
      ensures r.Some? <==> ValidFormat(format)
      ensures r.Some? ==> r.value == (initialLength + |Encode(format, args, useLongMessageLength)|) % 0x100
    {
      var long := useLongMessageLength;
      var commandLength := initialLength;
      ghost var written: nat := 0;
      var i := 0;
      while i < |format|
        invariant i <= |format| && ValidFormat(format[..i])
        invariant written == |Encode(format[..i], args[..i], long)|
        invariant commandLength == (initialLength + written) % 0x100
      {
        if !FieldChar(format[i]) {
          return None;
        }
        LengthGrows(format, args, long, i);
        CountStep(initialLength + written, format[i], args[i], long);
        commandLength := (commandLength as int + CountedSize(format[i], args[i], long)) % 0x100;
        written := written + |Field(format[i], args[i], long)|;
        i := i + 1;
      }
      assert format[..i] == format && args[..i] == args;
      return Some(commandLength);
    }
  }

  lemma LengthGrows(format: string, args: seq<Arg>, long: bool, i: nat)
    requires ArgsMatch(format, args) && i < |format| && ValidFormat(format[..i]) && FieldChar(format[i])
    ensures ValidFormat(format[..i + 1])
    ensures |Encode(format[..i + 1], args[..i + 1], long)|
         == |Encode(format[..i], args[..i], long)| + |Field(format[i], args[i], long)|
  {
    EncodePrefix(format, args, long, i);
  }

  lemma CountStep(total: nat, c: char, a: Arg, long: bool)
    requires FieldChar(c) && ArgMatches(c, a)
    ensures (total % 0x100 + CountedSize(c, a, long)) % 0x100 == (total + |Field(c, a, long)|) % 0x100
  {
    CountedIsWritten(c, a, long);
    ModAdd(total, CountedSize(c, a, long), |Field(c, a, long)|);
  }

  /** What the counter adds for a field: the whole size of a blob, not its low 16 bits. */
  function CountedSize(c: char, a: Arg, long: bool): (n: nat)
    requires FieldChar(c) && ArgMatches(c, a)
  {
    match c
    case 'v' => 2
    case 'l' => if long then 2 else 1
    case 'w' => 4
    case 'b' => a.size + if long then 2 else 1
    case _ => 1
  }

  /** Counted and written sizes agree modulo 256, though the writer keeps 16 bits of a blob's size. */
  lemma CountedIsWritten(c: char, a: Arg, long: bool)
    requires FieldChar(c) && ArgMatches(c, a)
    ensures CountedSize(c, a, long) % 0x100 == |Field(c, a, long)| % 0x100
  {
    if c == 'b' {
      LowByte(a.size, PrefixSize(long));
    }
  }

  lemma LowByte(n: nat, k: nat)
    ensures (n + k) % 0x100 == (n % 0x1_0000 + k) % 0x100
  {
    assert n == n / 0x1_0000 * 0x1_0000 + n % 0x1_0000;
    Shift(n % 0x1_0000 + k, n / 0x1_0000 * 0x100);
  }

  /** One turn of the reading loop. */
  lemma Turn(format: string, dests: seq<Dest>, i: nat, outs: seq<Out>, bytes: seq<byte>, long: bool,
             field: Option<(Out, nat)>)
    requires DestsMatch(format, dests) && i < |format| && field == DecodeField(format[i], dests[i], bytes, long)
    ensures var whole := After(outs, Decode(format[i..], dests[i..], bytes, long));
            if field.None? then whole == None
            else
              whole == After(outs + [field.value.0],
                             Decode(format[i + 1..], dests[i + 1..], bytes[field.value.1..], long))
  {
    DecodeStep(format[i..], dests[i..], bytes, long, field);
    assert format[i..][1..] == format[i + 1..] && dests[i..][1..] == dests[i + 1..];
    if field.Some? {
      AfterAfter(outs, [field.value.0], Decode(format[i + 1..], dests[i + 1..], bytes[field.value.1..], long));
    }
  }

  lemma ModAdd(total: nat, step: nat, size: nat)
    requires step % 0x100 == size % 0x100
    ensures (total % 0x100 + step) % 0x100 == (total + size) % 0x100
  {
    var k := step / 0x100 - size / 0x100;
    assert total % 0x100 + step == (total + size) + 0x100 * (k - total / 0x100);
    Shift(total + size, k - total / 0x100);
  }

  lemma Shift(x: nat, k: int)
    requires x + 0x100 * k >= 0
    ensures (x + 0x100 * k) % 0x100 == x % 0x100
  {
    assert x + 0x100 * k == 0x100 * (x / 0x100 + k) + x % 0x100;
  }
}

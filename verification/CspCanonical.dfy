/** The encoding is the only one: what bytes the reader takes for given arguments. */
module CspCanonical {
  import opened ByteUtilities
  import opened CspFormat

  /** Room to spare, so that a longer blob could not be taken for this one. */
  predicate Spacious(a: Arg, d: Dest) {
    Roomy(a, d) && !d.Pointer? && (d.Bytes? && a.Blob? ==> !d.narrow && a.size < d.capacity)
  }

  predicate AllSpacious(args: seq<Arg>, dests: seq<Dest>) {
    |args| == |dests| && forall i :: 0 <= i < |args| ==> Spacious(args[i], dests[i])
  }

  lemma BlobCanonical(a: Arg, d: Dest, bytes: seq<byte>, long: bool)
    requires ArgMatches('b', a) && DestMatches('b', d) && Spacious(a, d) && Fits('b', a, long)
    requires var r := DecodeField('b', d, bytes, long); r.Some? && Same('b', a, r.value.0)
    ensures Field('b', a, long) <= bytes
  {
    var n, p := Prefix(bytes, long), PrefixSize(long);
    assert n == a.size;
    assert bytes[p..p + n] == Content(a);
    PrefixBack(bytes, long);
    assert bytes[..p + n] == bytes[..p] + bytes[p..p + n];
    assert a.size % 0x1_0000 == a.size;
  }

  /** A length prefix is the encoding of the length it is read as. */
  lemma PrefixBack(bytes: seq<byte>, long: bool)
    requires |bytes| >= PrefixSize(long)
    ensures bytes[..PrefixSize(long)] == LengthBytes(Prefix(bytes, long), long)
  {
    if long {
      StoreFetch16(0, bytes[..2]);
      assert FetchHighLow16(bytes) == FetchHighLow16(bytes[..2]);
    }
  }

  lemma NumberCanonical(c: char, a: Arg, d: Dest, bytes: seq<byte>, long: bool)
    requires FieldChar(c) && c != 'b' && ArgMatches(c, a) && DestMatches(c, d) && Spacious(a, d) && Fits(c, a, long)
    requires var r := DecodeField(c, d, bytes, long); r.Some? && Same(c, a, r.value.0)
    ensures Field(c, a, long) <= bytes
  {
    match c
    case 'v' => HalfBack(bytes, a.n);
    case 'w' => WordBack(bytes, a.n);
    case 'l' => PrefixBack(bytes, long);
    case _ =>
  }

  lemma HalfBack(bytes: seq<byte>, n: u16)
    requires |bytes| >= 2 && FetchHighLow16(bytes) == n
    ensures HighLow16(n) <= bytes
  {
    StoreFetch16(0, bytes[..2]);
    assert FetchHighLow16(bytes) == FetchHighLow16(bytes[..2]);
  }

  lemma WordBack(bytes: seq<byte>, n: u32)
    requires |bytes| >= 4 && FetchInt32u(false, bytes) == n
    ensures Stored32(false, n) <= bytes
  {
    FetchIsOfTheFirstFour(bytes);
    StoredBack(bytes[..4], n);
  }

  lemma FetchIsOfTheFirstFour(bytes: seq<byte>)
    requires |bytes| >= 4
    ensures FetchInt32u(false, bytes) == FetchInt32u(false, bytes[..4])
  {
  }

  lemma StoredBack(four: seq<byte>, n: u32)
    requires |four| == 4 && FetchInt32u(false, four) == n
    ensures Stored32(false, n) == four
  {
    StoreFetch32(false, n, four);
  }

  lemma FieldCanonical(c: char, a: Arg, d: Dest, bytes: seq<byte>, long: bool)
    requires FieldChar(c) && ArgMatches(c, a) && DestMatches(c, d) && Spacious(a, d) && Fits(c, a, long)
    ensures var r := DecodeField(c, d, bytes, long);
            (r.Some? && Same(c, a, r.value.0)) <==> Field(c, a, long) <= bytes
    ensures Field(c, a, long) <= bytes ==> DecodeField(c, d, bytes, long).value.1 == |Field(c, a, long)|
  {
    var f := Field(c, a, long);
    if f <= bytes {
      assert bytes == f + bytes[|f|..];
      FieldRoundTrip(c, c, a, d, bytes[|f|..], long);
    } else if DecodeField(c, d, bytes, long).Some? && Same(c, a, DecodeField(c, d, bytes, long).value.0) {
      if c == 'b' {
        BlobCanonical(a, d, bytes, long);
      } else {
        NumberCanonical(c, a, d, bytes, long);
      }
    }
  }

  lemma PrefixSplit(head: seq<byte>, tail: seq<byte>, bytes: seq<byte>)
    ensures head + tail <= bytes <==> head <= bytes && tail <= bytes[|head|..]
  {
    if head <= bytes && tail <= bytes[|head|..] {
      assert bytes == head + (tail + bytes[|head|..][|tail|..]);
    }
  }

  /**
   * For arguments that fit, with room to spare, the reader returns them exactly when the bytes begin
   * with their encoding: no other bytes are taken for them.
   */
  lemma {:induction false} Canonical(format: string, args: seq<Arg>, dests: seq<Dest>, bytes: seq<byte>, long: bool)
    requires ValidFormat(format) && ArgsMatch(format, args) && DestsMatch(format, dests)
    requires AllFit(format, args, long) && AllSpacious(args, dests)
    ensures var r := Decode(format, dests, bytes, long);
            (r.Some? && AllSame(format, format, args, r.value)) <==> Encode(format, args, long) <= bytes
  {
    if format != "" {
      var head := Field(format[0], args[0], long);
      FieldCanonical(format[0], args[0], dests[0], bytes, long);
      if head <= bytes {
        Canonical(format[1..], args[1..], dests[1..], bytes[|head|..], long);
        PrefixSplit(head, Encode(format[1..], args[1..], long), bytes);
      }
    }
  }

  /** Fields that fit are read off the front, and the rest is read from where they end. */
  lemma {:induction false} ReadPast(pre: string, post: string, args: seq<Arg>, dests: seq<Dest>, rest: seq<byte>,
                                    long: bool)
    requires ValidFormat(pre) && ArgsMatch(pre, args) && DestsMatch(pre + post, dests)
    requires AllFit(pre, args, long) && AllRoomy(args, dests[..|pre|])
    ensures DestsMatch(pre, dests[..|pre|]) && DestsMatch(post, dests[|pre|..])
    ensures var front := Decode(pre, dests[..|pre|], Encode(pre, args, long) + rest, long);
            front.Some? && AllSame(pre, pre, args, front.value) &&
            Decode(pre + post, dests, Encode(pre, args, long) + rest, long)
            == After(front.value, Decode(post, dests[|pre|..], rest, long))
    decreases |pre|, 1
  {
    DestsSplit(pre, post, dests);
    RoundTrip(pre, pre, args, dests[..|pre|], rest, long);
    if pre == "" {
      assert pre + post == post && dests[0..] == dests && [] + rest == rest;
      AfterNothing(Decode(post, dests, rest, long));
    } else {
      ReadPastOne(pre, post, args, dests, rest, long);
    }
  }

  lemma DestsSplit(pre: string, post: string, dests: seq<Dest>)
    requires DestsMatch(pre + post, dests)
    ensures DestsMatch(pre, dests[..|pre|]) && DestsMatch(post, dests[|pre|..])
  {
    forall i | 0 <= i < |pre| ensures DestMatches(pre[i], dests[..|pre|][i]) {
      assert DestMatches((pre + post)[i], dests[i]);
    }
    forall i | 0 <= i < |post| ensures DestMatches(post[i], dests[|pre|..][i]) {
      assert DestMatches((pre + post)[|pre| + i], dests[|pre| + i]);
    }
  }

  /** A fitting field at the front is taken off, whatever the formats behind it. */
  lemma TakeField(format: string, dests: seq<Dest>, a: Arg, bytes: seq<byte>, tail: seq<byte>, long: bool)
    requires DestsMatch(format, dests) && format != "" && FieldChar(format[0]) && ArgMatches(format[0], a)
    requires Fits(format[0], a, long) && Roomy(a, dests[0]) && bytes == Field(format[0], a, long) + tail
    ensures var field := DecodeField(format[0], dests[0], bytes, long);
            field.Some? && Decode(format, dests, bytes, long)
              == After([field.value.0], Decode(format[1..], dests[1..], tail, long))
  {
    FieldRoundTrip(format[0], format[0], a, dests[0], tail, long);
    assert bytes[|Field(format[0], a, long)|..] == tail;
    DecodeStep(format, dests, bytes, long, DecodeField(format[0], dests[0], bytes, long));
  }

  lemma {:induction false} ReadPastOne(pre: string, post: string, args: seq<Arg>, dests: seq<Dest>, rest: seq<byte>,
                                       long: bool)
    requires pre != "" && ValidFormat(pre) && ArgsMatch(pre, args) && DestsMatch(pre + post, dests)
    requires AllFit(pre, args, long) && AllRoomy(args, dests[..|pre|])
    requires DestsMatch(pre, dests[..|pre|]) && DestsMatch(post, dests[|pre|..])
    ensures var front := Decode(pre, dests[..|pre|], Encode(pre, args, long) + rest, long);
            front.Some? ==>
              Decode(pre + post, dests, Encode(pre, args, long) + rest, long)
              == After(front.value, Decode(post, dests[|pre|..], rest, long))
    decreases |pre|, 0
  {
    var bytes, tail := Encode(pre, args, long) + rest, Encode(pre[1..], args[1..], long) + rest;
    Regroup(Field(pre[0], args[0], long), Encode(pre[1..], args[1..], long), rest);
    SlicesAgree(pre, post, dests);
    TakeField(pre, dests[..|pre|], args[0], bytes, tail, long);
    TakeField(pre + post, dests, args[0], bytes, tail, long);
    ReadPast(pre[1..], post, args[1..], dests[1..], rest, long);
    Join(DecodeField(pre[0], dests[0], bytes, long).value.0, Decode(pre[1..], dests[1..][..|pre| - 1], tail, long),
         Decode(post, dests[|pre|..], rest, long));
  }

  lemma Join(out: Out, front: Option<seq<Out>>, back: Option<seq<Out>>)
    requires front.Some?
    ensures After([out], front).Some? && After([out], After(front.value, back))
            == After(After([out], front).value, back)
  {
    AfterAfter([out], front.value, back);
  }

  lemma SlicesAgree(pre: string, post: string, dests: seq<Dest>)
    requires pre != "" && |dests| == |pre| + |post|
    ensures (pre + post)[1..] == pre[1..] + post
    ensures dests[..|pre|][1..] == dests[1..][..|pre| - 1] && dests[1..][|pre| - 1..] == dests[|pre|..]
  {
  }

  // ---- Concatenated formats ----

  lemma MatchConcat(f: string, g: string, a: seq<Arg>, b: seq<Arg>)
    requires ValidFormat(f) && ArgsMatch(f, a) && ValidFormat(g) && ArgsMatch(g, b)
    ensures ValidFormat(f + g) && ArgsMatch(f + g, a + b)
  {
  }

  lemma {:induction false} EncodeConcat(f: string, g: string, a: seq<Arg>, b: seq<Arg>, long: bool)
    requires ValidFormat(f) && ArgsMatch(f, a) && ValidFormat(g) && ArgsMatch(g, b)
    ensures ValidFormat(f + g) && ArgsMatch(f + g, a + b)
    ensures Encode(f + g, a + b, long) == Encode(f, a, long) + Encode(g, b, long)
  {
    MatchConcat(f, g, a, b);
    if f == "" {
      assert f + g == g && a + b == b;
    } else {
      var rest, others := f[1..] + g, a[1..] + b;
      MatchConcat(f[1..], g, a[1..], b);
      assert (f + g)[1..] == rest && (a + b)[1..] == others;
      EncodeConcat(f[1..], g, a[1..], b, long);
      PutInFront(f, a, f + g, a + b, rest, others, Encode(g, b, long), long);
    }
  }

  lemma PutInFront(f: string, a: seq<Arg>, h: string, c: seq<Arg>, rest: string, others: seq<Arg>, end: seq<byte>,
                   long: bool)
    requires ValidFormat(f) && ArgsMatch(f, a) && ValidFormat(h) && ArgsMatch(h, c) && ValidFormat(rest) &&
             ArgsMatch(rest, others)
    requires f != "" && h != "" && f[0] == h[0] && a[0] == c[0] && h[1..] == rest && c[1..] == others
    requires Encode(rest, others, long) == Encode(f[1..], a[1..], long) + end
    ensures Encode(h, c, long) == Encode(f, a, long) + end
  {
    Regroup(Field(f[0], a[0], long), Encode(f[1..], a[1..], long), end);
  }

  /** Only lengths and blobs are written differently in the two modes. */
  lemma {:induction false} ModeFree(format: string, args: seq<Arg>)
    requires ValidFormat(format) && ArgsMatch(format, args)
    requires forall i :: 0 <= i < |format| ==> format[i] !in {'l', 'b'}
    ensures Encode(format, args, true) == Encode(format, args, false)
  {
    if format != "" {
      ModeFree(format[1..], args[1..]);
    }
  }
}

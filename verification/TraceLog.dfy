/** Hexadecimal dumps into bounded buffers, and the per-thread trace buffer they are carved from. */
module TraceLog {
  import opened ByteUtilities

  const NUL: char := '\0'
  const TRACE_BUFFER_SIZE := 256
  const STR_MAX_LEN_CSP_ID := 19

  datatype Options = Options(
    delimSpace: bool, delimColon: bool, ellipsisAbort: bool, ellipsisStar: bool, ellipsisDots: bool, upperHex: bool)

  // ---- The text ----

  function Delimiter(o: Options): Option<char> {
    if o.delimColon then Some(':') else if o.delimSpace then Some(' ') else None
  }

  /** Room a complete dump of n bytes takes, terminator included. */
  predicate Fits(n: nat, outLen: nat, o: Options) {
    outLen >= if Delimiter(o).Some? then 3 * n else 2 * n + 1
  }

  function Ellipsis(fit: bool, o: Options): (e: string)
    ensures |e| <= 3 && (fit ==> e == "") && NUL !in e
  {
    if fit then "" else if o.ellipsisDots then "..." else if o.ellipsisStar then "*" else ""
  }

  function HexDigit(v: nat, upper: bool): (c: char)
    requires v < 16
    ensures c != NUL
  {
    if upper then "0123456789ABCDEF"[v] else "0123456789abcdef"[v]
  }

  function Pair(b: byte, upper: bool): (s: string)
    ensures |s| == 2
  {
    [HexDigit(b / 16, upper), HexDigit(b % 16, upper)]
  }

  function Separator(delim: Option<char>): string {
    if delim.Some? then [delim.value] else []
  }

  /** The bytes as pairs of digits, separated by the delimiter if there is one. */
  function Hex(data: seq<byte>, delim: Option<char>, upper: bool): string {
    if data == [] then ""
    else
      var last := Pair(data[|data| - 1], upper);
      if |data| == 1 then last
      else Hex(data[..|data| - 1], delim, upper) + (Separator(delim) + last)
  }

  function DigitValue(c: char): byte {
    if '0' <= c <= '9' then (c - '0') as int
    else if 'a' <= c <= 'f' then (c - 'a') as int + 10
    else if 'A' <= c <= 'F' then (c - 'A') as int + 10
    else 0
  }

  function PairValue(high: char, low: char): byte {
    (DigitValue(high) as int * 16 + DigitValue(low) as int) % 0x100
  }

  /** Where the digits of byte i stand in a dump. */
  function Place(i: nat, delimited: bool): nat {
    if delimited then 3 * i else 2 * i
  }

  function Bytes(length: nat, delimited: bool): nat {
    if delimited then (length + 1) / 3 else length / 2
  }

  /** Reads a dump back: two digits a byte, one more character between bytes if delimited. */
  function Unhex(s: string, delimited: bool): seq<byte> {
    seq(Bytes(|s|, delimited), i requires 0 <= i < Bytes(|s|, delimited) =>
      PairValue(s[Place(i, delimited)], s[Place(i, delimited) + 1]))
  }

  lemma DigitRoundTrip(v: nat, upper: bool)
    requires v < 16
    ensures DigitValue(HexDigit(v, upper)) == v
  {
  }

  lemma PairRoundTrip(b: byte, upper: bool)
    ensures PairValue(Pair(b, upper)[0], Pair(b, upper)[1]) == b
  {
    DigitRoundTrip(b / 16, upper);
    DigitRoundTrip(b % 16, upper);
  }

  lemma {:induction false} HexLength(data: seq<byte>, delim: Option<char>, upper: bool)
    requires data != []
    ensures |Hex(data, delim, upper)| == if delim.Some? then 3 * |data| - 1 else 2 * |data|
  {
    if |data| > 1 {
      HexLength(data[..|data| - 1], delim, upper);
    }
  }

  lemma {:induction false} HexHasNoNul(data: seq<byte>, delim: Option<char>, upper: bool)
    requires delim != Some(NUL)
    ensures NUL !in Hex(data, delim, upper)
  {
    if |data| > 1 {
      HexHasNoNul(data[..|data| - 1], delim, upper);
    }
  }

  lemma {:induction false} HexAt(data: seq<byte>, delim: Option<char>, upper: bool, i: nat)
    requires i < |data|
    ensures var s, at := Hex(data, delim, upper), Place(i, delim.Some?);
      at + 1 < |s| && s[at] == Pair(data[i], upper)[0] && s[at + 1] == Pair(data[i], upper)[1]
  {
    HexLength(data, delim, upper);
    if i == |data| - 1 {
      if i > 0 {
        HexLength(data[..i], delim, upper);
      }
    } else {
      HexAt(data[..|data| - 1], delim, upper, i);
    }
  }

  lemma PairAt(data: seq<byte>, delim: Option<char>, upper: bool, i: nat)
    requires i < |data|
    ensures var s, at := Hex(data, delim, upper), Place(i, delim.Some?);
      at + 1 < |s| && PairValue(s[at], s[at + 1]) == data[i]
  {
    HexAt(data, delim, upper, i);
    PairRoundTrip(data[i], upper);
  }

  lemma UnhexAll(s: string, delimited: bool, data: seq<byte>)
    requires Bytes(|s|, delimited) == |data|
    requires forall i :: 0 <= i < |data| ==> PairValue(s[Place(i, delimited)], s[Place(i, delimited) + 1]) == data[i]
    ensures Unhex(s, delimited) == data
  {
  }

  /** A dump decodes to the bytes dumped, whatever the delimiter and the case. */
  lemma HexRoundTrip(data: seq<byte>, delim: Option<char>, upper: bool)
    ensures Unhex(Hex(data, delim, upper), delim.Some?) == data
  {
    var s := Hex(data, delim, upper);
    if data != [] {
      HexLength(data, delim, upper);
    }
    forall i | 0 <= i < |data| ensures PairValue(s[Place(i, delim.Some?)], s[Place(i, delim.Some?) + 1]) == data[i] {
      PairAt(data, delim, upper, i);
    }
    UnhexAll(s, delim.Some?, data);
  }

  /** The characters of a dump: pairs of digits in the case asked for, and the delimiter between them. */
  lemma {:induction false} HexCharacters(data: seq<byte>, delim: Option<char>, upper: bool, k: nat)
    requires k < |Hex(data, delim, upper)|
    ensures var c := Hex(data, delim, upper)[k];
            if delim.Some? && k % 3 == 2 then c == delim.value
            else c in if upper then "0123456789ABCDEF" else "0123456789abcdef"
  {
    HexLength(data, delim, upper);
    if |data| > 1 {
      var front := data[..|data| - 1];
      HexLength(front, delim, upper);
      if k < |Hex(front, delim, upper)| {
        HexCharacters(front, delim, upper, k);
      }
    }
  }

  // ---- Writing it ----

  /** Bytes the rendering loop consumes: as many as leave room for the ellipsis and the terminator. */
  function Consumed(n: nat, outLen: nat, o: Options): nat
    requires outLen > |Ellipsis(Fits(n, outLen, o), o)| + 3
  {
    var room := outLen - |Ellipsis(Fits(n, outLen, o), o)| - 1;
    if n < Most(room, Delimiter(o).Some?) then n else Most(room, Delimiter(o).Some?)
  }

  function Shown(data: seq<byte>, n: nat, ellipsis: string, o: Options): string
    requires n <= |data|
  {
    Hex(data[..n], Delimiter(o), o.upperHex) + ellipsis
  }

  /** The text a call leaves, and how much of the input it covers; None is an assertion stop. */
  function Rendered(input: Option<seq<byte>>, inLen: nat, outLen: nat, o: Options): Option<(string, nat)>
    requires input.Some? ==> |input.value| == inLen
  {
    var fit := Fits(inLen, outLen, o);
    var ellipsis := Ellipsis(fit, o);
    if outLen == 0 || (!fit && o.ellipsisAbort) then None
    else if input.None? then Some((Cut("<null>", outLen - 1), 0))
    else if inLen == 0 then Some(("", 0))
    else if outLen <= |ellipsis| + 3 then Some((Cut(ellipsis, outLen - 1), 0))
    else
      var n := Consumed(inLen, outLen, o);
      Some((Shown(input.value, n, ellipsis, o), n))
  }

  /** When the loop runs it covers the longest prefix that leaves room for the ellipsis and the terminator. */
  lemma LoopCovers(input: seq<byte>, outLen: nat, o: Options, e: string)
    requires input != [] && e == Ellipsis(Fits(|input|, outLen, o), o) && outLen > |e| + 3
    ensures var n := Consumed(|input|, outLen, o);
      && 1 <= n <= |input|
      && (n == |input| <==> Fits(|input|, outLen, o))
      && (n < |input| ==> |Hex(input[..n + 1], Delimiter(o), o.upperHex)| + |e| >= outLen)
  {
    var n := Consumed(|input|, outLen, o);
    if n < |input| {
      HexLength(input[..n + 1], Delimiter(o), o.upperHex);
    }
  }

  /**
   * The text of a call that runs the loop: every third character is a colon if colons are asked for, a
   * blank if only blanks are, and all others are digits in the case asked for.
   */
  lemma RenderedCharacters(input: seq<byte>, outLen: nat, o: Options, text: string, n: nat, k: nat)
    requires input != [] && Fits(|input|, outLen, o) && outLen > 3
    requires Rendered(Some(input), |input|, outLen, o) == Some((text, n)) && k < |text|
    ensures if (o.delimColon || o.delimSpace) && k % 3 == 2 then text[k] == if o.delimColon then ':' else ' '
            else text[k] in if o.upperHex then "0123456789ABCDEF" else "0123456789abcdef"
  {
    assert text == Hex(input[..n], Delimiter(o), o.upperHex) + "";
    HexCharacters(input[..n], Delimiter(o), o.upperHex, k);
  }

  /** A dump that does not fit ends in three dots or a star, as asked for; dots win. */
  lemma TruncatedEnds(input: seq<byte>, outLen: nat, o: Options, text: string, n: nat)
    requires input != [] && !Fits(|input|, outLen, o) && outLen > 6
    requires Rendered(Some(input), |input|, outLen, o) == Some((text, n))
    ensures o.ellipsisDots ==> |text| >= 3 && text[|text| - 3..] == "..."
    ensures o.ellipsisStar && !o.ellipsisDots ==> |text| >= 1 && text[|text| - 1..] == "*"
    ensures !o.ellipsisStar && !o.ellipsisDots ==> text == Hex(input[..n], Delimiter(o), o.upperHex)
  {
    DumpDecodes(input, outLen, o, Ellipsis(false, o), text, n);
  }

  /** A call stops exactly without room for the terminator, or if it is to and the dump does not fit. */
  lemma StopsExactly(input: Option<seq<byte>>, inLen: nat, outLen: nat, o: Options)
    requires input.Some? ==> |input.value| == inLen
    ensures Rendered(input, inLen, outLen, o).None? <==>
            outLen == 0 ||
            (o.ellipsisAbort && outLen < if o.delimColon || o.delimSpace then 3 * inLen else 2 * inLen + 1)
  {
  }

  /** Where there is no room for a byte and the ellipsis, the text is what fits of the ellipsis. */
  lemma NoRoom(input: seq<byte>, outLen: nat, o: Options)
    requires input != [] && Rendered(Some(input), |input|, outLen, o).Some?
    requires !Fits(|input|, outLen, o) && outLen <= if o.ellipsisDots then 6 else if o.ellipsisStar then 4 else 3
    ensures var (text, n) := Rendered(Some(input), |input|, outLen, o).value;
            n == 0 && |text| < outLen &&
            if o.ellipsisDots then text <= "..." && |text| == Min(3, outLen - 1)
            else if o.ellipsisStar then text <= "*" && |text| == Min(1, outLen - 1)
            else text == ""
  {
  }

  /** Without input the text says so, as far as there is room; an empty input leaves an empty text. */
  lemma NoInput(inLen: nat, outLen: nat, o: Options)
    requires Rendered(None, inLen, outLen, o).Some?
    ensures var text := Rendered(None, inLen, outLen, o).value.0;
            text <= "<null>" && |text| == if outLen <= 6 then outLen - 1 else 6
    ensures Rendered(Some([]), 0, outLen, o) == Some(("", 0))
  {
  }

  lemma CutDecodes(data: seq<byte>, e: string, text: string, delim: Option<char>, upper: bool)
    requires text == Hex(data, delim, upper) + e
    ensures |e| <= |text| && text[|text| - |e|..] == e && Unhex(text[..|text| - |e|], delim.Some?) == data
  {
    HexRoundTrip(data, delim, upper);
    assert text[..|text| - |e|] == Hex(data, delim, upper);
  }

  /** When the loop runs, the dump is the ellipsis behind hex that decodes to exactly the bytes covered. */
  lemma DumpDecodes(input: seq<byte>, outLen: nat, o: Options, e: string, text: string, n: nat)
    requires input != [] && e == Ellipsis(Fits(|input|, outLen, o), o) && outLen > |e| + 3
    requires Rendered(Some(input), |input|, outLen, o) == Some((text, n))
    ensures n == Consumed(|input|, outLen, o) <= |input|
    ensures |e| <= |text| && text[|text| - |e|..] == e
    ensures Unhex(text[..|text| - |e|], Delimiter(o).Some?) == input[..n]
  {
    CutDecodes(input[..n], e, text, Delimiter(o), o.upperHex);
  }

  function Cut(s: string, n: nat): string {
    if |s| <= n then s else s[..n]
  }

  /** The C string at an offset of a buffer is `text`. */
  predicate TextAt(buffer: seq<char>, at: nat, text: string) {
    at + |text| < |buffer| && buffer[at..at + |text|] == text && buffer[at + |text|] == NUL && NUL !in text
  }

  /** The buffer is unchanged outside [from, to). */
  predicate Framed(now: seq<char>, before: seq<char>, from: nat, to: nat) {
    |now| == |before| && forall k :: 0 <= k < |now| && !(from <= k < to) ==> now[k] == before[k]
  }

  lemma FramedTwice(first: seq<char>, middle: seq<char>, last: seq<char>, from: nat, to: nat, low: nat, high: nat)
    requires Framed(middle, first, from, to) && Framed(last, middle, low, high) && from <= low && high <= to
    ensures Framed(last, first, from, to)
  {
  }

  lemma Grown(now: seq<char>, before: seq<char>, start: nat, at: nat, part: string, to: nat)
    requires start <= at && at + |part| <= |now| && Framed(now, before, at, to)
    requires now[at..at + |part|] == part
    ensures now[start..at + |part|] == before[start..at] + part
  {
    assert now[start..at] == before[start..at];
    assert now[start..at + |part|] == now[start..at] + now[at..at + |part|];
  }

  /** The text is written, and ends at the last place or at a terminator. */
  predicate AlmostTextAt(buffer: seq<char>, at: nat, outLen: nat, text: string) {
    && |text| < outLen && at + outLen <= |buffer| && NUL !in text
    && buffer[at..at + |text|] == text
    && (|text| == outLen - 1 || buffer[at + |text|] == NUL)
  }

  /** Terminating the last place completes the string. */
  lemma Terminated(now: seq<char>, before: seq<char>, at: nat, outLen: nat, text: string)
    requires AlmostTextAt(before, at, outLen, text)
    requires now == before[at + outLen - 1 := NUL]
    ensures TextAt(now, at, text)
  {
  }

  /** The four cases of a call, with what each leaves. */
  lemma RenderedText(input: Option<seq<byte>>, inLen: nat, outLen: nat, o: Options, n: nat, text: string)
    requires input.Some? ==> |input.value| == inLen
    requires outLen > 0 && (Fits(inLen, outLen, o) || !o.ellipsisAbort)
    requires var e := Ellipsis(Fits(inLen, outLen, o), o);
      if input.None? then n == 0 && text == Cut("<null>", outLen - 1)
      else if inLen == 0 then n == 0 && text == ""
      else if outLen <= |e| + 3 then n == 0 && text == Cut(e, outLen - 1)
      else n == Consumed(inLen, outLen, o) && text == Shown(input.value, n, e, o)
    ensures Rendered(input, inLen, outLen, o) == Some((text, n))
  {
  }

  /** The last store of every call. */
  method Terminate(out: array<char>, at: nat, outLen: nat, ghost text: string)
    requires outLen > 0 && at + outLen <= out.Length && AlmostTextAt(out[..], at, outLen, text)
    modifies out
    ensures Framed(out[..], old(out[..]), at, at + outLen) && out[at + outLen - 1] == NUL && TextAt(out[..], at, text)
  {
    out[at + outLen - 1] := NUL;
    Terminated(out[..], old(out[..]), at, outLen, text);
  }

  /** strncpy: at most outLen - 1 characters, padded with NUL up to there. */
  method Strncpy(out: array<char>, at: nat, source: string, outLen: nat)
    requires outLen > 0 && at + outLen <= out.Length && NUL !in source
    modifies out
    ensures Framed(out[..], old(out[..]), at, at + outLen)
    ensures AlmostTextAt(out[..], at, outLen, Cut(source, outLen - 1))
  {
    forall k | at <= k < at + outLen - 1 {
      out[k] := if k - at < |source| then source[k - at] else NUL;
    }
  }

  method WritePair(out: array<char>, at: nat, b: byte, upper: bool)
    requires at + 2 <= out.Length
    modifies out
    ensures Framed(out[..], old(out[..]), at, at + 2)
    ensures out[at..at + 2] == Pair(b, upper)
  {
    out[at], out[at + 1] := HexDigit(b / 16, upper), HexDigit(b % 16, upper);
  }

  /** strcpy: the string and its terminator. */
  method Strcpy(out: array<char>, at: nat, source: string)
    requires at + |source| < out.Length
    modifies out
    ensures Framed(out[..], old(out[..]), at, at + |source| + 1)
    ensures out[at..at + |source|] == source && out[at + |source|] == NUL
  {
    forall k | at <= k < at + |source| {
      out[k] := source[k - at];
    }
    out[at + |source|] := NUL;
  }

  lemma HexSnoc(data: seq<byte>, n: nat, delim: Option<char>, upper: bool)
    requires n < |data|
    ensures Hex(data[..n + 1], delim, upper)
         == (if n == 0 then "" else Hex(data[..n], delim, upper) + Separator(delim)) + Pair(data[n], upper)
  {
    assert data[..n + 1][..n] == data[..n];
    Regroup(Hex(data[..n], delim, upper), Separator(delim), Pair(data[n], upper));
  }

  /** What stands at the head of the loop: the bytes so far, and a separator after them. */
  function Pending(data: seq<byte>, n: nat, delim: Option<char>, upper: bool): string
    requires n <= |data|
  {
    if n == 0 then "" else Hex(data[..n], delim, upper) + Separator(delim)
  }

  function Most(room: nat, delimited: bool): nat {
    if delimited then (room + 1) / 3 else room / 2
  }

  /** One byte's digits, appended to what is pending. */
  method RenderByte(data: seq<byte>, n: nat, out: array<char>, start: nat, at: nat, delim: Option<char>, upper: bool)
    requires n < |data| && start <= at && at + 2 <= out.Length
    requires out[start..at] == Pending(data, n, delim, upper)
    modifies out
    ensures Framed(out[..], old(out[..]), at, at + 2)
    ensures out[start..at + 2] == Hex(data[..n + 1], delim, upper)
  {
    ghost var before := out[..];
    WritePair(out, at, data[n], upper);
    HexSnoc(data, n, delim, upper);
    Grown(out[..], before, start, at, Pair(data[n], upper), at + 2);
  }

  method RenderSeparator(data: seq<byte>, n: nat, out: array<char>, start: nat, at: nat, delim: Option<char>,
                         upper: bool)
    returns (next: nat)
    requires 0 < n <= |data| && start <= at < out.Length
    requires out[start..at] == Hex(data[..n], delim, upper)
    modifies out
    ensures next == at + |Separator(delim)| && Framed(out[..], old(out[..]), at, next)
    ensures out[start..next] == Pending(data, n, delim, upper)
  {
    next := at;
    if delim.Some? {
      ghost var before := out[..];
      out[at] := delim.value;
      next := at + 1;
      Grown(out[..], before, start, at, [delim.value], next);
    }
  }

  /** The rendering loop: what it leaves is the dump of the longest prefix that keeps to `room` characters. */
  method RenderLoop(data: seq<byte>, out: array<char>, start: nat, room: nat, delim: Option<char>, upper: bool)
    returns (n: nat, at: nat)
    requires data != [] && room >= 3 && start + room < out.Length
    modifies out
    ensures n == if |data| < Most(room, delim.Some?) then |data| else Most(room, delim.Some?)
    ensures start <= at <= start + room && out[start..at] == Hex(data[..n], delim, upper)
    ensures Framed(out[..], old(out[..]), start, start + room)
  {
    n, at := 0, start;
    while true
      invariant n < |data| && at == start + n * if delim.Some? then 3 else 2
      invariant at + 2 <= start + room
      invariant out[start..at] == Pending(data, n, delim, upper)
      invariant Framed(out[..], old(out[..]), start, start + room)
      decreases |data| - n
    {
      RenderByte(data, n, out, start, at, delim, upper);
      n, at := n + 1, at + 2;
      if n == |data| { break; }
      if start + room - at < if delim.Some? then 3 else 2 { break; }
      at := RenderSeparator(data, n, out, start, at, delim, upper);
    }
  }

  /** A rendered text always leaves room for its terminator and holds none inside. */
  lemma RenderedFits(input: Option<seq<byte>>, inLen: nat, outLen: nat, o: Options)
    requires input.Some? ==> |input.value| == inLen
    requires Rendered(input, inLen, outLen, o).Some?
    ensures |Rendered(input, inLen, outLen, o).value.0| < outLen
    ensures NUL !in Rendered(input, inLen, outLen, o).value.0
  {
    var fit := Fits(inLen, outLen, o);
    if input.Some? && inLen > 0 && outLen > |Ellipsis(fit, o)| + 3 {
      var shown := input.value[..Consumed(inLen, outLen, o)];
      HexLength(shown, Delimiter(o), o.upperHex);
      HexHasNoNul(shown, Delimiter(o), o.upperHex);
    }
  }

  /** The rendering loop and the ellipsis behind it. */
  method Render(data: seq<byte>, out: array<char>, start: nat, outLen: nat, ellipsis: string, o: Options)
    returns (n: nat)
    requires data != [] && start + outLen <= out.Length && outLen > |ellipsis| + 3 && NUL !in ellipsis
    modifies out
    ensures var most := Most(outLen - |ellipsis| - 1, Delimiter(o).Some?); n == if |data| < most then |data| else most
    ensures Framed(out[..], old(out[..]), start, start + outLen)
    ensures AlmostTextAt(out[..], start, outLen, Shown(data, n, ellipsis, o))
  {
    ghost var before := out[..];
    var at;
    n, at := RenderLoop(data, out, start, outLen - |ellipsis| - 1, Delimiter(o), o.upperHex);
    ghost var middle := out[..];
    Strcpy(out, at, ellipsis);
    FramedTwice(before, middle, out[..], start, start + outLen, at, at + |ellipsis| + 1);
    Grown(out[..], middle, start, at, ellipsis, at + |ellipsis| + 1);
    HexHasNoNul(data[..n], Delimiter(o), o.upperHex);
  }

  /** A dump stays within its output, always ends it with NUL, and is the rendered text. */
  method StrBytes(input: Option<seq<byte>>, inLen: nat, out: array<char>, start: nat, outLen: nat, o: Options)
    returns (done: Option<nat>)
    requires input.Some? ==> |input.value| == inLen
    requires start + outLen <= out.Length
    modifies out
    ensures Framed(out[..], old(out[..]), start, start + outLen)
    ensures done.Some? <==> Rendered(input, inLen, outLen, o).Some?
    ensures done.Some? ==> out[start + outLen - 1] == NUL
    ensures done.Some? ==> done.value == Rendered(input, inLen, outLen, o).value.1
    ensures done.Some? ==> TextAt(out[..], start, Rendered(input, inLen, outLen, o).value.0)
  {
    if outLen == 0 {
      return None;
    }
    var fit := Fits(inLen, outLen, o);
    if !fit && o.ellipsisAbort {
      return None;
    }
    var ellipsis := Ellipsis(fit, o);
    var n := 0;
    ghost var text := "";
    if input.None? {
      Strncpy(out, start, "<null>", outLen);
      text := Cut("<null>", outLen - 1);
    } else if inLen == 0 {
      out[start] := NUL;
    } else if outLen <= |ellipsis| + 3 {
      Strncpy(out, start, ellipsis, outLen);
      text := Cut(ellipsis, outLen - 1);
    } else {
      n := Render(input.value, out, start, outLen, ellipsis, o);
      text := Shown(input.value, n, ellipsis, o);
    }
    RenderedText(input, inLen, outLen, o, n, text);
    Terminate(out, start, outLen, text);
    done := Some(n);
  }

  // ---- The trace buffer ----

  /** A string handed out: where it starts in the buffer and what it says. */
  datatype Traced = Traced(at: nat, text: string) {
    function End(): nat { at + |text| + 1 }
  }

  /** The strings stand in the buffer one behind the other, the last ending at or before idx. */
  predicate Packed(live: seq<Traced>, buffer: seq<char>, idx: nat) {
    && (forall i :: 0 <= i < |live| ==> TextAt(buffer, live[i].at, live[i].text) && live[i].End() <= idx)
    && (forall i, j :: 0 <= i < j < |live| ==> live[i].End() <= live[j].at)
  }

  /** Writing past idx keeps every string; one written there joins them. */
  lemma PackOne(live: seq<Traced>, before: seq<char>, now: seq<char>, idx: nat, text: string, to: nat)
    requires Packed(live, before, idx) && idx <= to <= |before| && Framed(now, before, idx, to)
    requires TextAt(now, idx, text)
    ensures Packed(live + [Traced(idx, text)], now, idx + |text| + 1)
  {
    forall i | 0 <= i < |live| ensures TextAt(now, live[i].at, live[i].text) {
      var t := live[i];
      assert TextAt(before, t.at, t.text) && t.End() <= idx;
      assert now[t.at..t.at + |t.text|] == before[t.at..t.at + |t.text|];
    }
  }

  /** sprintf with "Command ID: 0x%04X". */
  function CspIdText(id: u16): string {
    "Command ID: 0x" + Hex([id / 0x100, id % 0x100], None, true)
  }

  lemma CspIdDecodes(id: u16)
    ensures |CspIdText(id)| + 1 == STR_MAX_LEN_CSP_ID && NUL !in CspIdText(id)
    ensures CspIdText(id)[..14] == "Command ID: 0x"
    ensures forall i :: 14 <= i < 18 ==> CspIdText(id)[i] in "0123456789ABCDEF"
    ensures var bytes := Unhex(CspIdText(id)[14..], false); |bytes| == 2 && bytes[0] as int * 0x100 + bytes[1] == id
  {
    var bytes: seq<byte> := [id / 0x100, id % 0x100];
    HexLength(bytes, None, true);
    HexHasNoNul(bytes, None, true);
    HexRoundTrip(bytes, None, true);
    assert CspIdText(id)[14..] == Hex(bytes, None, true);
    assert bytes[..1] == [id / 0x100] && bytes[..1][..0] == [];
    assert Hex(bytes, None, true) == Pair(id / 0x100, true) + Pair(id % 0x100, true);
  }

  const COLONS := Options(false, true, false, false, false, false)

  /** What a command dump of n bytes says, given the 3 * n characters reserved for it. */
  function CspFullText(input: Option<seq<byte>>, n: nat): string
    requires n > 0 && (input.Some? ==> |input.value| == n)
  {
    Rendered(input, n, 3 * n, COLONS).value.0
  }

  /** A dumped command decodes to its bytes unless it is a single byte: three characters are then too few for
    * the loop to start, and the dump is empty. */
  lemma CspFullDecodes(command: seq<byte>)
    requires command != []
    ensures Unhex(CspFullText(Some(command), |command|), true) == command <==> |command| != 1
    ensures |command| != 1 ==> |CspFullText(Some(command), |command|)| + 1 == 3 * |command|
    ensures |command| == 1 ==> CspFullText(Some(command), 1) == ""
  {
    if |command| > 1 {
      var text := CspFullText(Some(command), |command|);
      LoopCovers(command, 3 * |command|, COLONS, "");
      DumpDecodes(command, 3 * |command|, COLONS, "", text, |command|);
      HexLength(command, Some(':'), false);
      assert text[..|text| - 0] == text && command[..|command|] == command;
    }
  }

  datatype Trace = Text(at: nat) | Overflow | Assertion

  /** The buffer one thread carves its trace strings from, until its outermost trace call is over. */
  class TraceBuffer {
    const buffer: array<char>
    var idx: nat
    var nested: int
    ghost var live: seq<Traced>

    ghost predicate Valid()
      reads this, buffer
    {
      buffer.Length == TRACE_BUFFER_SIZE && idx <= TRACE_BUFFER_SIZE && Packed(live, buffer[..], idx)
    }

    constructor ()
      ensures Valid() && fresh(buffer) && idx == 0 && nested == 0 && live == []
    {
      buffer := new char[TRACE_BUFFER_SIZE](_ => NUL);
      idx, nested, live := 0, 0, [];
    }

    method Enter()
      requires Valid()
      modifies this
      ensures Valid() && nested == old(nested) + 1 && idx == old(idx) && live == old(live)
    {
      nested := nested + 1;
    }

    /** Only the end of the outermost trace call gives the strings up. */
    method Exit()
      requires Valid()
      modifies this
      ensures Valid() && nested == old(nested) - 1
      ensures if nested == 0 then idx == 0 && live == [] else idx == old(idx) && live == old(live)
    {
      nested := nested - 1;
      if nested == 0 {
        idx, live := 0, [];
      }
    }

    method TrCspId(id: u16) returns (r: Trace)
      requires Valid()
      modifies this`idx, this`live, buffer
      ensures Valid()
      ensures old(idx) + STR_MAX_LEN_CSP_ID > TRACE_BUFFER_SIZE ==>
        r == Overflow && idx == old(idx) && live == old(live) && buffer[..] == old(buffer[..])
      ensures old(idx) + STR_MAX_LEN_CSP_ID <= TRACE_BUFFER_SIZE ==>
        r == Text(old(idx)) && live == old(live) + [Traced(old(idx), CspIdText(id))] && idx == live[|live| - 1].End()
    {
      if idx + STR_MAX_LEN_CSP_ID > TRACE_BUFFER_SIZE {
        return Overflow;
      }
      CspIdDecodes(id);
      Strcpy(buffer, idx, CspIdText(id));
      PackOne(live, old(buffer[..]), buffer[..], idx, CspIdText(id), idx + STR_MAX_LEN_CSP_ID);
      r, live := Text(idx), live + [Traced(idx, CspIdText(id))];
      idx := idx + |CspIdText(id)| + 1;
    }

    method TrCspFull(input: Option<seq<byte>>, n: nat) returns (r: Trace)
      requires Valid() && (input.Some? ==> |input.value| == n)
      modifies this`idx, this`live, buffer
      ensures Valid()
      ensures r == Overflow <==> old(idx) + 3 * n > TRACE_BUFFER_SIZE
      ensures r == Assertion <==> n == 0
      ensures !r.Text? ==> idx == old(idx) && live == old(live) && buffer[..] == old(buffer[..])
      ensures r.Text? ==> r.at == old(idx) && live == old(live) + [Traced(r.at, CspFullText(input, n))]
      ensures r.Text? ==> idx == live[|live| - 1].End()
    {
      if idx + 3 * n > TRACE_BUFFER_SIZE {
        return Overflow;
      }
      var done := StrBytes(input, n, buffer, idx, 3 * n, COLONS);
      if done.None? {
        assert buffer[..] == old(buffer[..]);
        return Assertion;
      }
      var text := CspFullText(input, n);
      RenderedFits(input, n, 3 * n, COLONS);
      PackOne(live, old(buffer[..]), buffer[..], idx, text, idx + 3 * n);
      r, live := Text(idx), live + [Traced(idx, text)];
      idx := idx + |text| + 1;
      assert idx <= TRACE_BUFFER_SIZE;
    }
  }
}

/** Fixed-width values and the store/fetch routines of byte-utilities.c. */
module ByteUtilities {

  type byte = n: nat | n < 0x100
  type u16 = n: nat | n < 0x1_0000
  type u32 = n: nat | n < 0x1_0000_0000

  datatype Option<+T> = None | Some(value: T)

  function Min(a: nat, b: nat): nat {
    if a < b then a else b
  }

  function Zeros(n: nat): (z: seq<byte>)
    ensures |z| == n && forall i :: 0 <= i < n ==> z[i] == 0
  {
    seq(n, _ => 0)
  }

  /** The two bytes of a 16-bit value, most significant first. */
  function HighLow16(v: u16): (s: seq<byte>) {
    [v / 0x100, v % 0x100]
  }

  /** The value of two bytes, most significant first. */
  function FetchHighLow16(s: seq<byte>): u16
    requires |s| >= 2
  {
    s[0] as int * 0x100 + s[1]
  }

  /** The four bytes of a 32-bit value, least significant first. */
  function LowHigh32(v: u32): (s: seq<byte>) {
    [v % 0x100, v / 0x100 % 0x100, v / 0x100 / 0x100 % 0x100, v / 0x100 / 0x100 / 0x100]
  }

  /** The four bytes of a 32-bit value in the order asked for. */
  function Stored32(lowHigh: bool, v: u32): (s: seq<byte>) {
    var b := LowHigh32(v);
    if lowHigh then b else [b[3], b[2], b[1], b[0]]
  }

  /** The value of four bytes, most significant first, joined as two 16-bit halves. */
  function Value32(b0: byte, b1: byte, b2: byte, b3: byte): u32 {
    (b0 as int * 0x100 + b1) * 0x1_0000 + (b2 as int * 0x100 + b3)
  }

  /** emFetchInt32u: the two byte orders differ only in which byte is read as which digit. */
  function FetchInt32u(lowHigh: bool, s: seq<byte>): u32
    requires |s| >= 4
  {
    if lowHigh then Value32(s[3], s[2], s[1], s[0]) else Value32(s[0], s[1], s[2], s[3])
  }

  /** `s` with `part` written over it from index `at` on. */
  function Spliced<T>(s: seq<T>, at: nat, part: seq<T>): (r: seq<T>)
    requires at + |part| <= |s|
    ensures |r| == |s|
  {
    s[..at] + part + s[at + |part|..]
  }

  lemma Regroup<T>(x: seq<T>, y: seq<T>, z: seq<T>)
    ensures (x + y) + z == x + (y + z)
  {
  }

  /** Two adjacent writes are one. */
  lemma SplicedTwice<T>(s: seq<T>, at: nat, a: seq<T>, b: seq<T>)
    requires at + |a| + |b| <= |s|
    ensures Spliced(Spliced(s, at, a), at + |a|, b) == Spliced(s, at, a + b)
  {
  }

  /** emStoreInt32u: peels the low byte off `value` four times, writing upwards or downwards. */
  method StoreInt32u(lowHigh: bool, contents: array<byte>, at: nat, value: u32)
    requires at + 4 <= contents.Length
    modifies contents
    ensures contents[..] == Spliced(old(contents[..]), at, Stored32(lowHigh, value))
  {
    var rest: u32 := value;
    var ii := 0;
    ghost var digits := LowHigh32(value);
    while ii < 4
      invariant 0 <= ii <= 4
      invariant rest == [value, value / 0x100, value / 0x100 / 0x100, value / 0x100 / 0x100 / 0x100, 0][ii]
      invariant forall k :: 0 <= k < ii ==> contents[at + if lowHigh then k else 3 - k] == digits[k]
      invariant forall k :: 0 <= k < contents.Length && !(at <= k < at + 4) ==> contents[k] == old(contents[k])
    {
      var index := if lowHigh then ii else 3 - ii;
      contents[at + index] := rest % 0x100;
      rest := rest / 0x100;
      ii := ii + 1;
    }
    assert contents[at + if lowHigh then 0 else 3] == digits[0];
    assert contents[at + if lowHigh then 1 else 2] == digits[1];
    assert contents[at + if lowHigh then 2 else 1] == digits[2];
    assert contents[at + if lowHigh then 3 else 0] == digits[3];
  }

  /** memcpy of `source` to offset `at`. */
  method CopyInto(contents: array<byte>, at: nat, source: seq<byte>)
    requires at + |source| <= contents.Length
    modifies contents
    ensures contents[..] == Spliced(old(contents[..]), at, source)
  {
    forall k | at <= k < at + |source| {
      contents[k] := source[k - at];
    }
  }

  /** emberStoreHighLowInt16u. */
  method StoreHighLowInt16u(contents: array<byte>, at: nat, value: u16)
    requires at + 2 <= contents.Length
    modifies contents
    ensures contents[..] == Spliced(old(contents[..]), at, HighLow16(value))
  {
    contents[at] := value / 0x100;
    contents[at + 1] := value % 0x100;
  }

  /** Storing then fetching, and fetching then storing, are both the identity in either byte order. */
  lemma StoreFetch32(lowHigh: bool, v: u32, s: seq<byte>)
    requires |s| == 4
    ensures FetchInt32u(lowHigh, Stored32(lowHigh, v)) == v
    ensures Stored32(lowHigh, FetchInt32u(lowHigh, s)) == s
  {
    if lowHigh {
      Digits(s[0], s[1], s[2], s[3]);
    } else {
      Digits(s[3], s[2], s[1], s[0]);
    }
    Undigits(v);
  }

  lemma LastDigit(high: nat, low: byte)
    ensures (high * 0x100 + low) / 0x100 == high && (high * 0x100 + low) % 0x100 == low
  {
  }

  lemma Digits(b0: byte, b1: byte, b2: byte, b3: byte)
    ensures LowHigh32(Value32(b3, b2, b1, b0)) == [b0, b1, b2, b3]
  {
    var q2: nat := b3 as int * 0x100 + b2;
    var q1: nat := q2 * 0x100 + b1;
    var q0: nat := q1 * 0x100 + b0;
    LastDigit(b3, b2);
    LastDigit(q2, b1);
    LastDigit(q1, b0);
    assert Value32(b3, b2, b1, b0) == q0;
  }

  lemma Undigits(v: u32)
    ensures var d := LowHigh32(v); Value32(d[3], d[2], d[1], d[0]) == v
  {
    var q1 := v / 0x100;
    var q2 := q1 / 0x100;
    assert v == q1 * 0x100 + v % 0x100;
    assert q1 == q2 * 0x100 + q1 % 0x100;
    assert q2 == q2 / 0x100 * 0x100 + q2 % 0x100;
  }

  lemma StoreFetch16(v: u16, s: seq<byte>)
    requires |s| == 2
    ensures FetchHighLow16(HighLow16(v)) == v
    ensures HighLow16(FetchHighLow16(s)) == s
  {
    assert (s[0] as int * 0x100 + s[1]) / 0x100 == s[0];
  }

  /** High byte first; and in 32 bits either the most or the least significant byte first. */
  lemma ByteOrders(b3: byte, b2: byte, b1: byte, b0: byte)
    ensures HighLow16(b1 as int * 0x100 + b0) == [b1, b0]
    ensures var w := b0 as int + 0x100 * b1 + 0x1_0000 * b2 + 0x100_0000 * b3;
            Stored32(false, w) == [b3, b2, b1, b0] && Stored32(true, w) == [b0, b1, b2, b3]
  {
    StoreFetch16(0, [b1, b0]);
    Digits(b0, b1, b2, b3);
    assert Value32(b3, b2, b1, b0) == b0 as int + 0x100 * b1 + 0x1_0000 * b2 + 0x100_0000 * b3;
  }

  /** What a splice leaves where. */
  lemma SplicedAt<T>(s: seq<T>, at: nat, part: seq<T>, k: nat)
    requires at + |part| <= |s| && k < |s|
    ensures Spliced(s, at, part)[k] == if at <= k < at + |part| then part[k - at] else s[k]
  {
  }
}

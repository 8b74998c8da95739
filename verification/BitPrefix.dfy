/** Bit prefixes of byte strings: emMatchingPrefixBitLength and emBitCopy. */
module BitPrefix {

  /** The mask of bit k of a byte, counted from the most significant. */
  function MaskOf(k: nat): bv8
    requires k < 8
  {
    match k
    case 0 => 0x80
    case 1 => 0x40
    case 2 => 0x20
    case 3 => 0x10
    case 4 => 0x08
    case 5 => 0x04
    case 6 => 0x02
    case _ => 0x01
  }

  /** Bit 0 is the most significant. */
  lemma MostSignificantFirst()
    ensures forall k :: 0 <= k < 8 ==> MaskOf(k) == 1 << (7 - k) as bv3
  {
  }

  predicate BitOf(b: bv8, k: nat)
    requires k < 8
  {
    b & MaskOf(k) != 0
  }

  /** Bit i of a byte string, most significant bit of the first byte first. */
  predicate Bit(s: seq<bv8>, i: nat)
    requires i < 8 * |s|
  {
    BitOf(s[i / 8], i % 8)
  }

  /** The two strings agree on their first n bits. */
  predicate Agree(x: seq<bv8>, y: seq<bv8>, n: nat)
    requires n <= 8 * |x| && n <= 8 * |y|
  {
    forall i: nat :: i < n ==> Bit(x, i) == Bit(y, i)
  }

  /** `n` is the length of the longest common bit prefix of the first `limit` bits. */
  predicate LongestPrefix(x: seq<bv8>, y: seq<bv8>, limit: nat, n: nat)
    requires limit <= 8 * |x| && limit <= 8 * |y|
  {
    n <= limit && Agree(x, y, n) && (n < limit ==> Bit(x, n) != Bit(y, n))
  }

  /** One bit of the complement of the exclusive or says whether that bit is the same. */
  lemma MaskedSame(a: bv8, b: bv8, m: bv8)
    requires m == 0x80 || m == 0x40 || m == 0x20 || m == 0x10 || m == 0x08 || m == 0x04 || m == 0x02 || m == 0x01
    ensures m & !(a ^ b) != 0 <==> ((a & m != 0) == (b & m != 0))
  {
  }

  lemma NextMask(k: nat)
    requires k < 7
    ensures MaskOf(k) >> 1 == MaskOf(k + 1)
  {
  }

  /** Different bytes differ in some bit. */
  lemma DifferingBit(a: bv8, b: bv8) returns (d: nat)
    requires a != b
    ensures d < 8 && BitOf(a, d) != BitOf(b, d)
  {
    if BitOf(a, 0) != BitOf(b, 0) { return 0; }
    if BitOf(a, 1) != BitOf(b, 1) { return 1; }
    if BitOf(a, 2) != BitOf(b, 2) { return 2; }
    if BitOf(a, 3) != BitOf(b, 3) { return 3; }
    if BitOf(a, 4) != BitOf(b, 4) { return 4; }
    if BitOf(a, 5) != BitOf(b, 5) { return 5; }
    if BitOf(a, 6) != BitOf(b, 6) { return 6; }
    return 7;
  }

  lemma AgreeByte(x: seq<bv8>, y: seq<bv8>, n: nat)
    requires n + 8 <= 8 * |x| && n + 8 <= 8 * |y| && n % 8 == 0
    requires Agree(x, y, n) && x[n / 8] == y[n / 8]
    ensures Agree(x, y, n + 8)
  {
    forall i: nat | i < n + 8
      ensures Bit(x, i) == Bit(y, i)
    {
      if i >= n {
        assert i / 8 == n / 8;
      }
    }
  }

  /** Lengths are in bits; each string holds all its bits. */
  method MatchingPrefixBitLength(x: seq<bv8>, xLength: nat, y: seq<bv8>, yLength: nat) returns (count: nat)
    requires xLength < 0x1_0000 && yLength < 0x1_0000
    requires xLength <= 8 * |x| && yLength <= 8 * |y|
    ensures LongestPrefix(x, y, if xLength < yLength then xLength else yLength, count)
  {
    var length := if xLength < yLength then xLength else yLength;
    count := 0;
    while count + 8 <= length && x[count / 8] == y[count / 8]
      invariant count <= length && count % 8 == 0 && Agree(x, y, count)
    {
      AgreeByte(x, y, count);
      count := count + 8;
    }
    if count < length {
      count := MatchInByte(x, y, length, count / 8);
    }
  }

  /** The second loop: bit by bit through the byte the first loop stopped at. */
  method MatchInByte(x: seq<bv8>, y: seq<bv8>, length: nat, byteIndex: nat) returns (count: nat)
    requires 8 * byteIndex < length <= 8 * |x| && length <= 8 * |y|
    requires Agree(x, y, 8 * byteIndex) && (8 * byteIndex + 8 <= length ==> x[byteIndex] != y[byteIndex])
    ensures LongestPrefix(x, y, length, count)
  {
    var mask: bv8 := 0x80;
    var same := !(x[byteIndex] ^ y[byteIndex]);
    ghost var d: nat := 8;
    if x[byteIndex] != y[byteIndex] {
      d := DifferingBit(x[byteIndex], y[byteIndex]);
    }
    count := 8 * byteIndex;
    ghost var k: nat := 0;
    while count < length && mask & same != 0
      invariant k < 8 || count == length
      invariant k <= d && count == 8 * byteIndex + k <= length
      invariant k < 8 ==> mask == MaskOf(k)
      invariant Agree(x, y, count)
      decreases length - count
    {
      BitStep(x, y, byteIndex, k, mask, same);
      mask := mask >> 1;
      count := count + 1;
      k := k + 1;
    }
    if count < length {
      BitStep(x, y, byteIndex, k, mask, same);
    }
  }

  /** One turn of that loop: the mask tests bit k of the byte, then moves to the next. */
  lemma BitStep(x: seq<bv8>, y: seq<bv8>, byteIndex: nat, k: nat, mask: bv8, same: bv8)
    requires byteIndex < |x| && byteIndex < |y| && k < 8 && mask == MaskOf(k) && same == !(x[byteIndex] ^ y[byteIndex])
    ensures mask & same != 0 <==> Bit(x, 8 * byteIndex + k) == Bit(y, 8 * byteIndex + k)
    ensures Bit(x, 8 * byteIndex + k) == BitOf(x[byteIndex], k) && Bit(y, 8 * byteIndex + k) == BitOf(y[byteIndex], k)
    ensures k < 7 ==> mask >> 1 == MaskOf(k + 1)
  {
    BitAt(x, byteIndex, k);
    BitAt(y, byteIndex, k);
    ByteStep(x[byteIndex], y[byteIndex], k);
    if k < 7 {
      NextMask(k);
    }
  }

  lemma BitAt(s: seq<bv8>, byteIndex: nat, k: nat)
    requires byteIndex < |s| && k < 8
    ensures Bit(s, 8 * byteIndex + k) == BitOf(s[byteIndex], k)
  {
  }

  lemma ByteStep(a: bv8, b: bv8, k: nat)
    requires k < 8
    ensures MaskOf(k) & !(a ^ b) != 0 <==> BitOf(a, k) == BitOf(b, k)
  {
    var m := MaskOf(k);
    MaskedSame(a, b, m);
    assert BitOf(a, k) == (a & m != 0) && BitOf(b, k) == (b & m != 0);
  }

  // ---- emBitCopy ----

  /** Bits the copy really covers: the number of full bytes is kept in eight bits. */
  function CoveredBits(count: nat): (n: nat)
    ensures n <= count
  {
    8 * (count / 8 % 0x100) + count % 8
  }

  /** 0xFF shifted right by e. */
  function LowMask(e: nat): bv8
    requires 0 < e < 8
  {
    match e
    case 1 => 0x7F
    case 2 => 0x3F
    case 3 => 0x1F
    case 4 => 0x0F
    case 5 => 0x07
    case 6 => 0x03
    case _ => 0x01
  }

  lemma LowMaskIsShift(e: nat)
    requires 0 < e < 8
    ensures (0xFF as bv8) >> e == LowMask(e)
  {
  }

  /** A bit mask above or below the split keeps or drops the bit. */
  lemma MaskSplit(e: nat, k: nat)
    requires 0 < e < 8 && k < 8
    ensures LowMask(e) & MaskOf(k) == if k < e then 0 else MaskOf(k)
    ensures !LowMask(e) & MaskOf(k) == if k < e then MaskOf(k) else 0
  {
  }

  lemma Merged(t: bv8, f: bv8, low: bv8, m: bv8)
    requires (low & m == 0 && !low & m == m) || (low & m == m && !low & m == 0)
    ensures ((t & low) | (f & !low)) & m == if low & m == 0 then f & m else t & m
  {
  }

  lemma MergedBit(t: bv8, f: bv8, e: nat, k: nat)
    requires 0 < e < 8 && k < 8
    ensures BitOf((t & LowMask(e)) | (f & !LowMask(e)), k) == if k < e then BitOf(f, k) else BitOf(t, k)
  {
    var low, m := LowMask(e), MaskOf(k);
    MaskSplit(e, k);
    NonZero(k);
    Merged(t, f, low, m);
    assert low & m == 0 <==> k < e;
  }

  lemma NonZero(k: nat)
    requires k < 8
    ensures MaskOf(k) != 0
  {
  }

  /** `result` has the first n bits of `source` and the rest of `before`. */
  predicate BitsCopied(result: seq<bv8>, before: seq<bv8>, source: seq<bv8>, n: nat)
    requires |result| == |before| && n <= 8 * |source|
  {
    forall i: nat :: i < 8 * |result| ==> Bit(result, i) == if i < n then Bit(source, i) else Bit(before, i)
  }

  /**
   * The whole bytes have already been moved over the source of the last, partial byte: the ranges
   * overlap and the destination begins behind the source but not behind that byte.
   */
  predicate Clobbered(sameArray: bool, toAt: nat, fromAt: nat, count: nat) {
    sameArray && count % 8 != 0 && fromAt < toAt <= fromAt + count / 8 % 0x100
  }

  /** The source bits as the copy finds them; `from` is the source array before the copy. */
  function SourceSeen(from: seq<bv8>, sameArray: bool, toAt: nat, fromAt: nat, count: nat): (s: seq<bv8>)
    requires count <= 8 * (|from| - fromAt)
    ensures |s| == |from| - fromAt
    ensures !Clobbered(sameArray, toAt, fromAt, count) ==> s == from[fromAt..]
  {
    var full := count / 8 % 0x100;
    if Clobbered(sameArray, toAt, fromAt, count) then from[fromAt..][full := from[fromAt + (fromAt + full - toAt)]]
    else from[fromAt..]
  }

  /** memmove: the bytes are taken before any of them is overwritten. */
  method MoveBytes(to: array<bv8>, toAt: nat, from: array<bv8>, fromAt: nat, size: nat)
    requires toAt + size <= to.Length && fromAt + size <= from.Length
    modifies to
    ensures forall k :: 0 <= k < to.Length ==>
              to[k] == if toAt <= k < toAt + size then old(from[fromAt + (k - toAt)]) else old(to[k])
  {
    forall k | 0 <= k < size {
      to[toAt + k] := from[fromAt + k];
    }
  }

  /** The ranges may overlap in any way. No bit outside the covered ones changes. */
  method BitCopy(to: array<bv8>, toAt: nat, from: array<bv8>, fromAt: nat, count: nat)
    requires count < 0x1_0000 && count <= 8 * (to.Length - toAt) && count <= 8 * (from.Length - fromAt)
    modifies to
    ensures to[..toAt] == old(to[..toAt])
    ensures BitsCopied(to[toAt..], old(to[toAt..]), SourceSeen(old(from[..]), to == from, toAt, fromAt, count),
                       CoveredBits(count))
  {
    ghost var before, source := to[toAt..], from[..];
    ghost var seen := SourceSeen(source, to == from, toAt, fromAt, count);
    var fullBytes := count / 8 % 0x100;
    var extraBits := count % 8;
    MoveBytes(to, toAt, from, fromAt, fullBytes);
    if extraBits != 0 {
      var mask: bv8 := (0xFF as bv8) >> extraBits;
      LowMaskIsShift(extraBits);
      assert from[fromAt + fullBytes] == seen[fullBytes];
      to[toAt + fullBytes] := (to[toAt + fullBytes] & mask) | (from[fromAt + fullBytes] & !mask);
    }
    CopiedBytes(to[toAt..], before, seen, fullBytes, extraBits);
  }

  lemma CopiedBytes(result: seq<bv8>, before: seq<bv8>, source: seq<bv8>, full: nat, extra: nat)
    requires |result| == |before| && extra < 8 && 8 * full + extra <= 8 * |source| && 8 * full + extra <= 8 * |result|
    requires forall k :: 0 <= k < |result| && !(k == full && extra > 0) ==>
               result[k] == if k < full then source[k] else before[k]
    requires extra > 0 ==> result[full] == (before[full] & LowMask(extra)) | (source[full] & !LowMask(extra))
    ensures BitsCopied(result, before, source, 8 * full + extra)
  {
    forall i: nat | i < 8 * |result|
      ensures Bit(result, i) == if i < 8 * full + extra then Bit(source, i) else Bit(before, i)
    {
      if i / 8 == full && extra > 0 {
        MergedBit(before[full], source[full], extra, i % 8);
      }
    }
  }

  /** The whole count is covered exactly below 2048 bits. */
  lemma CoversExactlyBelow2048(count: nat)
    ensures CoveredBits(count) == count % 2048
    ensures CoveredBits(count) == count <==> count < 2048
  {
    assert count == 8 * (count / 8) + count % 8;
  }

  /** Below 2048 bits, comparing a copy with its source over the count finds no difference. */
  lemma CopyMatchesSource(result: seq<bv8>, before: seq<bv8>, source: seq<bv8>, count: nat, n: nat)
    requires count < 2048 && count <= 8 * |source| && |result| == |before| && count <= 8 * |result|
    requires BitsCopied(result, before, source, CoveredBits(count)) && LongestPrefix(result, source, count, n)
    ensures n == count
  {
    CoversExactlyBelow2048(count);
  }

  /** Nine bits copied one byte further on: the ninth is taken from the first byte, which was moved over it. */
  lemma OverlapLosesABit()
    ensures var memory: seq<bv8> := [0x80, 0x00, 0x00];
            !Bit(memory, 8) && Bit(SourceSeen(memory, true, 1, 0, 9), 8)
  {
    var memory: seq<bv8> := [0x80, 0x00, 0x00];
    assert SourceSeen(memory, true, 1, 0, 9)[1] == 0x80;
  }
}

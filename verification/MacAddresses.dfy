/** The MAC address struct of ember-types.h, whose short and long form share their memory. */
module MacAddresses {
  import opened ByteUtilities

  const EUI64_SIZE := 8
  const MODE_SHORT: byte := 2
  const MODE_LONG: byte := 3

  /** The byte order of the host; left open, so that everything holds for both. */
  const LITTLE_ENDIAN: bool

  /** A 16-bit value in the memory of a machine. */
  function Stored16(v: u16, little: bool): (s: seq<byte>)
    ensures |s| == 2
  {
    if little then [v % 0x100, v / 0x100] else HighLow16(v)
  }

  function Fetched16(s: seq<byte>, little: bool): (v: u16)
    requires |s| >= 2
    ensures s[..2] == Stored16(v, little)
  {
    if little then FetchHighLow16([s[1], s[0]]) else FetchHighLow16(s)
  }

  /** Least significant byte first on a little-endian machine. */
  lemma ByteOrder(high: byte, low: byte)
    ensures Stored16(high as int * 0x100 + low, true) == [low, high]
    ensures Stored16(high as int * 0x100 + low, false) == [high, low]
  {
    StoreFetch16(0, [high, low]);
  }

  lemma Stored16RoundTrip(v: u16, little: bool)
    ensures Fetched16(Stored16(v, little), little) == v
  {
    StoreFetch16(v, HighLow16(v));
  }

  lemma SameBytesSameValue(s: seq<byte>, v: u16, little: bool)
    requires |s| >= 2
    ensures Fetched16(s, little) == v <==> s[..2] == Stored16(v, little)
  {
    Stored16RoundTrip(v, little);
    if s[..2] == Stored16(v, little) {
      assert s[0] == s[..2][0] && s[1] == s[..2][1];
    }
  }

  /** An address as it goes over the wire: both forms, and the mode that says which one is meant. */
  datatype Address = Address(short: u16, long: seq<byte>, mode: byte)

  /** An address in memory: as many of the union's bytes as have been stored, and the mode. */
  datatype Union = Union(bytes: seq<byte>, mode: byte)

  /** The union after the short form has been stored in it, and then the long one over it. */
  function InMemory(a: Address): (u: Union)
    requires |a.long| <= EUI64_SIZE
    ensures |u.bytes| == (if |a.long| < 2 then 2 else |a.long|) && a.long <= u.bytes && u.mode == a.mode
  {
    Union(a.long + Stored16(a.short, LITTLE_ENDIAN)[Min(2, |a.long|)..], a.mode)
  }

  function ShortOf(u: Union): u16
    requires |u.bytes| >= 2
  {
    Fetched16(u.bytes, LITTLE_ENDIAN)
  }

  /** The union holds both forms as they were on the wire. */
  predicate Holds(u: Union, a: Address) {
    u.mode == a.mode && 2 <= |u.bytes| <= EUI64_SIZE && ShortOf(u) == a.short && a.long <= u.bytes
  }

  /** Where they share memory the two forms have the same bytes. */
  predicate Agree(a: Address) {
    forall i :: 0 <= i < |a.long| && i < 2 ==> a.long[i] == Stored16(a.short, LITTLE_ENDIAN)[i]
  }

  lemma HoldsExactly(a: Address)
    requires |a.long| <= EUI64_SIZE
    ensures Holds(InMemory(a), a) <==> Agree(a)
  {
    var u, short := InMemory(a), Stored16(a.short, LITTLE_ENDIAN);
    SameBytesSameValue(u.bytes, a.short, LITTLE_ENDIAN);
    if Agree(a) {
      assert u.bytes[..2] == short;
    }
    if Holds(u, a) {
      forall i | 0 <= i < |a.long| && i < 2
        ensures a.long[i] == short[i]
      {
        assert u.bytes[..2][i] == a.long[i];
      }
    }
  }

  /**
   * The form the mode says is meant: a long one is always there, a short one only if the long form
   * stored over it agrees with it.
   */
  lemma MeantForm(a: Address)
    requires |a.long| <= EUI64_SIZE
    ensures a.mode == MODE_LONG ==> a.long <= InMemory(a).bytes
    ensures a.mode == MODE_SHORT ==> (ShortOf(InMemory(a)) == a.short <==> Agree(a))
  {
    HoldsExactly(a);
  }

  /** Both forms read out of the eight bytes of one union, as emberMacMessageSend does. */
  function FromMemory(memory: seq<byte>, mode: byte, little: bool): Address
    requires |memory| == EUI64_SIZE
  {
    Address(Fetched16(memory, little), memory, mode)
  }

  /**
   * An address written out of one union is kept exactly by a reader of the same byte order, or by any
   * if the two bytes of the short form are equal.
   */
  lemma UnionToUnion(memory: seq<byte>, mode: byte, little: bool)
    requires |memory| == EUI64_SIZE
    ensures Agree(FromMemory(memory, mode, little)) <==> little == LITTLE_ENDIAN || memory[0] == memory[1]
  {
    var a := FromMemory(memory, mode, little);
    SameBytesSameValue(memory, a.short, little);
    SameBytesSameValue(memory, a.short, LITTLE_ENDIAN);
    var s, t := Stored16(a.short, little), Stored16(a.short, LITTLE_ENDIAN);
    assert s == memory[..2] && (little != LITTLE_ENDIAN ==> t[0] == s[1] && t[1] == s[0]);
    assert memory[..2][0] == memory[0] && memory[..2][1] == memory[1];
    if Agree(a) {
      assert a.long[0] == t[0] && a.long[1] == t[1];
    }
  }

  lemma StoredOver(before: seq<byte>, short: seq<byte>, long: seq<byte>)
    requires |short| == 2 && |before| == EUI64_SIZE && |long| <= EUI64_SIZE
    ensures var bytes := long + short[Min(2, |long|)..];
            Spliced(Spliced(before, 0, short), 0, long) == bytes + before[|bytes|..]
  {
    if |long| < 2 {
      assert before[..0] + short + before[2..] == short + before[2..];
    }
  }

  /** The two stores, in the order of the handlers' formats. */
  method StoreAddress(source: array<byte>, a: Address) returns (u: Union)
    requires source.Length == EUI64_SIZE && |a.long| <= EUI64_SIZE
    modifies source
    ensures u == InMemory(a)
    ensures source[..] == u.bytes + old(source[..])[|u.bytes|..]
  {
    StoredOver(source[..], Stored16(a.short, LITTLE_ENDIAN), a.long);
    CopyInto(source, 0, Stored16(a.short, LITTLE_ENDIAN));
    CopyInto(source, 0, a.long);
    ghost var bytes := InMemory(a).bytes;
    assert source[..] == bytes + old(source[..])[|bytes|..];
    u := Union(source[..if |a.long| < 2 then 2 else |a.long|], a.mode);
    assert u.bytes == source[..][..|bytes|];
  }

  /** Short address 0x1234 with a long one of eight zero bytes: on either kind of host the short one reads as 0. */
  lemma ShortFormLost(mode: byte)
    ensures var a := Address(0x1234, Zeros(EUI64_SIZE), mode); !Agree(a) && ShortOf(InMemory(a)) == 0
  {
    var a := Address(0x1234, Zeros(EUI64_SIZE), mode);
    var u := InMemory(a);
    assert u.bytes[..2] == [0, 0];
    SameBytesSameValue(u.bytes, 0, LITTLE_ENDIAN);
    assert a.long[0] != Stored16(a.short, LITTLE_ENDIAN)[0];
  }
}

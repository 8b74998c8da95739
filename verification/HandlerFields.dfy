/** What the indication handlers of csp-command-callbacks.c share: the C fields their outputs are stored in. */
module HandlerFields {
  import opened ByteUtilities
  import opened CspFormat
  import opened MacAddresses

  const MAX_PAYLOAD := 2048
  const Value := Cell(false)

  /** The payload array of a handler: 2048 bytes, with a 16-bit length output. */
  const PayloadDest := Bytes(false, false, MAX_PAYLOAD)

  /** The long form of an address, with an 8-bit length output. */
  const LongAddressDest := Bytes(false, true, EUI64_SIZE)

  /** The longest payload an indication survives with: the handler's array, or what a short length can say. */
  function PayloadLimit(long: bool): nat {
    if long then MAX_PAYLOAD else 0xFF
  }

  function BlobArg(s: seq<byte>): Arg {
    Blob(Some(s), |s|)
  }

  function BitArg(b: bool): Arg {
    Num(if b then 1 else 0)
  }

  function ByteOf(o: Out): byte {
    if o.Number? then o.n % 0x100 else 0
  }

  function HalfOf(o: Out): u16 {
    if o.Number? then o.n % 0x1_0000 else 0
  }

  function WordOf(o: Out): u32 {
    if o.Number? then o.n else 0
  }

  function BitOf(o: Out): bool {
    ByteOf(o) != 0
  }

  /** A length field is stored twice, first as a number and last as the length of the blob behind it. */
  function FinalLength(l: Out, b: Out): u16 {
    if b.Data? then b.length else HalfOf(l)
  }

  /** The address fields fetched from output `at` on, in the order they are stored. */
  function AddressAt(o: seq<Out>, at: nat): Address
    requires at + 3 <= |o|
  {
    Address(HalfOf(o[at]), CopiedOf(o[at + 1]), ByteOf(o[at + 2]))
  }
}

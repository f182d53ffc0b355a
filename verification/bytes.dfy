/** Octets and the network (big-endian) byte order of RFC 826 fields. */
module Bytes {

  /** An octet of a captured frame. */
  newtype byte = x: int | 0 <= x < 256

  /** The largest value a 16-bit field can carry, plus one. */
  const U16Limit: nat := 0x1_0000

  /** `ntohs` on the two octets of a 16-bit field as they sit on the wire:
      the first octet is the high-order one. */
  function Be16(hi: byte, lo: byte): (v: nat)
    ensures v < U16Limit
    ensures v / 256 == hi as nat && v % 256 == lo as nat
  {
    hi as nat * 256 + lo as nat
  }

  /** `htons`: the two wire octets of a 16-bit value, high-order first. */
  function ToBe16(v: nat): (bs: seq<byte>)
    requires v < U16Limit
    ensures |bs| == 2
  {
    [(v / 256) as byte, (v % 256) as byte]
  }

  /** Decoding the encoding gives the value back. */
  lemma Be16OfToBe16(v: nat)
    requires v < U16Limit
    ensures Be16(ToBe16(v)[0], ToBe16(v)[1]) == v
  {
  }

  /** Two octets decode to `v` exactly when they are the encoding of `v`, so
      comparing a decoded field with a constant compares wire octets. */
  lemma Be16Matches(hi: byte, lo: byte, v: nat)
    requires v < U16Limit
    ensures Be16(hi, lo) == v <==> [hi, lo] == ToBe16(v)
  {
    if [hi, lo] == ToBe16(v) {
      Be16OfToBe16(v);
    }
  }
}

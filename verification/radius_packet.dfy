/** The parts of the host server's packet record that the ARP listener fills
    in or reads. The server core is RADIUS, so a captured ARP frame travels
    through it as a RADIUS packet whose raw data is the whole frame. */
module RadiusPacket {
  import opened Bytes

  /** One past the largest `size_t` value on a 64-bit host. */
  const SizeLimit: nat := 0x1_0000_0000_0000_0000

  /** A `size_t` value. */
  type SizeT = n: nat | n < SizeLimit

  /** `a - b` in `size_t` arithmetic: wraps modulo 2^64 when `b > a`. */
  function SizeSub(a: SizeT, b: SizeT): (r: SizeT)
    ensures b <= a ==> r + b == a
    ensures b > a ==> r + b == a + SizeLimit
  {
    (a - b) % SizeLimit
  }

  /** A dictionary attribute, as returned by the attribute lookup by name. */
  datatype DictAttr = DictAttr(name: string, attr: nat)

  /** A decoded attribute value attached to a packet. */
  datatype ValuePair = ValuePair(da: DictAttr, value: seq<byte>)

  /** The packet record: destination port, data length, the raw data and the
      list of decoded attribute values. */
  datatype Packet = Packet(dstPort: int, dataLen: SizeT, data: seq<byte>, vps: seq<ValuePair>)
}

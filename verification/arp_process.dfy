/** The processing callback the server core runs on a queued ARP packet. */
module ArpProcess {
  import opened Wrappers
  import opened ArpHeader
  import opened RadiusPacket

  /** The callback's return code and the ARP payload length it worked out,
      when it got that far. */
  datatype ProcessResult = ProcessResult(rcode: int, size: Option<SizeT>)

  /** `arp_process`: the ARP header starts right after the Ethernet header;
      when that start lies past the end of the data the callback returns 0,
      otherwise the payload length is the data length minus the Ethernet
      header, computed in `size_t`, and the packet goes on to the post-auth
      section (outside this model), returning 1. An ARP start exactly at the
      end is not "past" it and yields a payload of 0 bytes. */
  function Process(packet: Packet, b: Build): (r: ProcessResult)
    ensures r.rcode == 0 || r.rcode == 1
    ensures r.rcode == 0 <==> packet.dataLen < EtherLen(b)
    ensures r.size.Some? <==> r.rcode == 1
    ensures r.size.Some? ==> r.size.value + EtherLen(b) == packet.dataLen
  {
    var arpStart := EtherLen(b);
    if arpStart > packet.dataLen then ProcessResult(0, None)
    else ProcessResult(1, Some(SizeSub(packet.dataLen, arpStart)))
  }
}

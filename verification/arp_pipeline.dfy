/** How the receive, process and decode steps fit together: the decoder
    reads 28 bytes after the Ethernet header without checking the length,
    trusting the receive step's check against `sizeof(struct
    arphdr_ether_ipv4)`. That trust holds only when the struct is at least
    as long as the table the decoder walks. */
module ArpPipeline {
  import opened Wrappers
  import opened Bytes
  import opened CLayout
  import opened ArpHeader
  import opened RadiusPacket
  import opened ArpRecv
  import opened ArpProcess
  import opened ArpDecode

  /** The assumption the decoder rests on: `sizeof(struct
      arphdr_ether_ipv4)` covers the 28 bytes of `header_names`. It holds
      for the corrected declaration under any alignment, and for the
      declaration as written only when alignment pads it from 27 to 28. */
  lemma {:induction false} InBoundsAssumption(b: Build)
    ensures ArpSize(b) >= TableLen(HeaderNames) <==> b.decl.Corrected? || b.abi.Natural?
  {
    HeaderNamesLayout();
  }

  /** The four members the receive step checks sit at the same offsets with
      the same widths in the struct and in the table, whatever the
      declaration and the alignment. */
  lemma {:induction false} CheckedFieldsAgree(b: Build)
    ensures forall k :: 0 <= k < 4 ==>
      Offset(ArpStruct(b), k) == FieldOffset(HeaderNames, k) &&
      ArpStruct(b)[k].size == HeaderNames[k].len
  {
    CheckedMembers(b);
    HeaderNamesLayout();
  }

  /** Seen through the decoder's table, an accepted frame's first four
      fields are the RFC 826 values for Ethernet/IPv4: hardware type 1,
      protocol type 0x0800, address lengths 6 and 4; and a frame long enough
      for both layouts whose fields have these values is accepted. */
  lemma {:induction false} AcceptedFieldsInTable(frame: seq<byte>, b: Build)
    requires ArpSize(b) >= TableLen(HeaderNames)
    requires |frame| >= EtherLen(b) + ArpSize(b)
    ensures var fs := Split(HeaderNames, frame[EtherLen(b)..]);
      Classify(frame, b) == IsArp <==>
        && fs[0] == ToBe16(ArphrdEther)
        && fs[1] == ToBe16(ProtoIPv4)
        && fs[2] == [EtherAddrLen as byte]
        && fs[3] == [IPv4AddrLen as byte]
  {
    var arp := frame[EtherLen(b)..];
    HeaderNamesLayout();
    SplitField(HeaderNames, arp, 0);
    SplitField(HeaderNames, arp, 1);
    SplitField(HeaderNames, arp, 2);
    SplitField(HeaderNames, arp, 3);
    var fs := Split(HeaderNames, arp);
    SliceOfSuffix(frame, 14, 0, 2);
    SliceOfSuffix(frame, 14, 2, 4);
    SliceOfSuffix(frame, 14, 4, 5);
    SliceOfSuffix(frame, 14, 5, 6);
    assert fs[0] == frame[14..16];
    assert fs[1] == frame[16..18];
    assert fs[2] == [frame[18]];
    assert fs[3] == [frame[19]];
  }

  /** Every packet the receive step hands on, under the in-bounds
      assumption, holds every byte the decoder reads, and the processing
      callback accepts it with a payload of the frame less the Ethernet
      header, at least the 28 table bytes. */
  lemma {:induction false} HandedPacketFitsDecoder(next: PcapNext, b: Build, allocOk: bool, queued: bool)
    requires ValidCapture(next)
    requires b.decl.Corrected? || b.abi.Natural?
    ensures var r := Recv(next, b, allocOk, queued);
      r.handed.Some? ==>
        && |r.handed.value.data| >= EtherLen(b) + TableLen(HeaderNames)
        && Process(r.handed.value, b).rcode == 1
        && Process(r.handed.value, b).size.Some?
        && Process(r.handed.value, b).size.value + EtherLen(b) == |next.frame|
        && Process(r.handed.value, b).size.value >= TableLen(HeaderNames)
  {
    InBoundsAssumption(b);
  }

  /** The path of one capture through the listener: receive, then, when
      the core queued the packet, decode its header. Returns the packet with
      its decoded values when it got that far. */
  method Listen(next: PcapNext, b: Build, allocOk: bool, queued: bool, dict: Dictionary, decode: ValueDecoder)
    returns (decoded: Option<Packet>)
    requires ValidCapture(next)
    requires b.decl.Corrected? || b.abi.Natural?
    ensures decoded.Some? <==> Recv(next, b, allocOk, queued).rcode == 1
    ensures decoded.Some? ==>
      && next.Captured?
      && |next.frame| >= EtherLen(b) + TableLen(HeaderNames)
      && decoded.value.data == next.frame
      && decoded.value.dstPort == 1
      && decoded.value.vps == DecodeFrom(HeaderNames, Split(HeaderNames, next.frame[EtherLen(b)..]), dict, decode, 0)
  {
    var r := Recv(next, b, allocOk, queued);
    if r.rcode != 1 {
      return None;
    }
    HandedPacketFitsDecoder(next, b, allocOk, queued);
    var packet := r.handed.value;
    ghost var fields := DecodeFrom(HeaderNames, Split(HeaderNames, next.frame[EtherLen(b)..]), dict, decode, 0);
    var _, out := Decode(packet, b, dict, decode);
    assert [] + fields == fields;
    return Some(out);
  }

  /** A 41-byte frame: an Ethernet header, then an Ethernet/IPv4 ARP header
      cut one byte short of the 28 the table covers. */
  function ShortArpFrame(): (f: seq<byte>)
    ensures |f| == 41
  {
    seq(14, _ => 0 as byte) + [0, 1, 8, 0, 6, 4] + seq(21, _ => 0 as byte)
  }

  /** As written, packed: the receive step accepts the 41-byte frame, yet
      the decoder reads 42 bytes of it. */
  lemma AsWrittenPackedOverread()
    ensures var b := Build(Packed, AsWritten);
      && Classify(ShortArpFrame(), b) == IsArp
      && |ShortArpFrame()| < EtherLen(b) + TableLen(HeaderNames)
  {
    var f := ShortArpFrame();
    var b := Build(Packed, AsWritten);
    HeaderNamesLayout();
    assert ArpSize(b) == 27 && EtherLen(b) == 14;
    assert f[14..16] == [0, 1];
    assert f[16..18] == [8, 0];
    assert f[18] == 6 && f[19] == 4;
  }

  /** As written, the struct places the sender hardware address at offset 7,
      where the table (and RFC 826) has it at 8. */
  lemma AsWrittenDisagreesWithTable(abi: Abi)
    ensures Offset(ArpStruct(Build(abi, AsWritten)), 5) == 7
    ensures FieldOffset(HeaderNames, 5) == 8
  {
    ArpPrefixes(Build(abi, AsWritten));
    HeaderNamesLayout();
  }

  /** Corrected, with a 16-bit `ar_op`: the struct and the table agree on
      every field's offset and width, the struct is exactly 28 bytes under
      either alignment, and so the decoder's reads are always inside an
      accepted frame. */
  lemma {:induction false} CorrectedMatchesTable(abi: Abi)
    ensures var ms := ArpStruct(Build(abi, Corrected));
      && |ms| == |HeaderNames|
      && (forall k :: 0 <= k < |ms| ==>
            Offset(ms, k) == FieldOffset(HeaderNames, k) && ms[k].size == HeaderNames[k].len)
      && ArpSize(Build(abi, Corrected)) == TableLen(HeaderNames)
  {
    var b := Build(abi, Corrected);
    var ms := ArpStruct(b);
    ArpPrefixes(b);
    HeaderNamesLayout();
    assert Offset(ms, 4) == 6;
    assert Offset(ms, 5) == 8;
    assert Offset(ms, 6) == 14;
    assert Offset(ms, 7) == 18;
    assert Offset(ms, 8) == 24;
    assert forall k :: 0 <= k < 9 ==> Offset(ms, k) == [0, 2, 4, 5, 6, 8, 14, 18, 24][k];
  }
}

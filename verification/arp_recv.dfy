/** The listener's receive step: take the next captured frame, decide
    whether it is an Ethernet/IPv4 ARP packet, and if so wrap it in a packet
    record for the server core. */
module ArpRecv {
  import opened Wrappers
  import opened Bytes
  import opened CLayout
  import opened ArpHeader
  import opened RadiusPacket

  /** What the capture library's "next packet" call returned: no packet
      (rcode 0), an error (a negative rcode), or a frame of `caplen` bytes. */
  datatype PcapNext = NoPacket | CaptureError(code: int) | Captured(frame: seq<byte>)

  /** The capture header's `caplen` is a 32-bit field. */
  const CaplenLimit: nat := 0x1_0000_0000

  predicate ValidCapture(next: PcapNext)
  {
    next.Captured? ==> |next.frame| < CaplenLimit
  }

  /** Why a frame is ignored, in the order the checks are made, or `IsArp`
      when it passes them all. */
  datatype Verdict =
    | TooShort
    | NotEthernet
    | NotIPv4
    | BadHardwareLength
    | BadProtocolLength
    | IsArp

  /** The checks made on a captured frame. The frame must hold an
      Ethernet header and a whole `arphdr_ether_ipv4`; then the hardware
      type, protocol type and both address lengths are read through the
      struct and compared with Ethernet/IPv4 values. The first failing check
      decides the verdict. */
  function Classify(frame: seq<byte>, b: Build): (v: Verdict)
    ensures v == TooShort <==> |frame| < EtherLen(b) + ArpSize(b)
    ensures v == NotEthernet <==>
      |frame| >= EtherLen(b) + ArpSize(b) && frame[14..16] != [0, 1]
    ensures v == NotIPv4 <==>
      |frame| >= EtherLen(b) + ArpSize(b) && frame[14..16] == [0, 1] && frame[16..18] != [8, 0]
    ensures v == BadHardwareLength <==>
      |frame| >= EtherLen(b) + ArpSize(b) && frame[14..16] == [0, 1] && frame[16..18] == [8, 0]
      && frame[18] != 6
    ensures v == BadProtocolLength <==>
      |frame| >= EtherLen(b) + ArpSize(b) && frame[14..16] == [0, 1] && frame[16..18] == [8, 0]
      && frame[18] == 6 && frame[19] != 4
    ensures v == IsArp <==>
      && |frame| >= EtherLen(b) + ArpSize(b)
      && frame[14..16] == [0, 1]
      && frame[16..18] == [8, 0]
      && frame[18] == 6
      && frame[19] == 4
  {
    if |frame| < EtherLen(b) + ArpSize(b) then TooShort
    else
      var arp := frame[EtherLen(b)..];
      var hrd := MemberBytes(b, arp, 0);
      var pro := MemberBytes(b, arp, 1);
      var hln := MemberBytes(b, arp, 2);
      var pln := MemberBytes(b, arp, 3);
      WireView(frame, b);
      if Be16(hrd[0], hrd[1]) != ArphrdEther then NotEthernet
      else if Be16(pro[0], pro[1]) != ProtoIPv4 then NotIPv4
      else if hln[0] as nat != EtherAddrLen then BadHardwareLength
      else if pln[0] as nat != IPv4AddrLen then BadProtocolLength
      else IsArp
  }

  /** Reading the checked members through the struct and comparing them with
      Ethernet/IPv4 values is comparing wire bytes 14..19 of the frame. */
  lemma WireView(frame: seq<byte>, b: Build)
    requires |frame| >= EtherLen(b) + ArpSize(b)
    ensures var arp := frame[EtherLen(b)..];
      var hrd := MemberBytes(b, arp, 0);
      var pro := MemberBytes(b, arp, 1);
      && (Be16(hrd[0], hrd[1]) == ArphrdEther <==> frame[14..16] == [0, 1])
      && (Be16(pro[0], pro[1]) == ProtoIPv4 <==> frame[16..18] == [8, 0])
      && (MemberBytes(b, arp, 2)[0] as nat == EtherAddrLen <==> frame[18] == 6)
      && (MemberBytes(b, arp, 3)[0] as nat == IPv4AddrLen <==> frame[19] == 4)
  {
    var arp := frame[EtherLen(b)..];
    CheckedWireBytes(frame, b);
    Be16Wire(MemberBytes(b, arp, 0), ArphrdEther, [0, 1]);
    Be16Wire(MemberBytes(b, arp, 1), ProtoIPv4, [8, 0]);
  }

  /** The checked members of the struct laid over the frame after its
      Ethernet header are frame bytes 14..15, 16..17, 18 and 19. */
  lemma CheckedWireBytes(frame: seq<byte>, b: Build)
    requires |frame| >= EtherLen(b) + ArpSize(b)
    ensures var arp := frame[EtherLen(b)..];
      && MemberBytes(b, arp, 0) == frame[14..16]
      && MemberBytes(b, arp, 1) == frame[16..18]
      && MemberBytes(b, arp, 2) == [frame[18]]
      && MemberBytes(b, arp, 3) == [frame[19]]
  {
    var arp := frame[EtherLen(b)..];
    CheckedMemberBytes(b, arp);
    SliceOfSuffix(frame, 14, 0, 2);
    SliceOfSuffix(frame, 14, 2, 4);
    SliceOfSuffix(frame, 14, 4, 5);
    SliceOfSuffix(frame, 14, 5, 6);
    assert frame[18..19] == [frame[18]];
    assert frame[19..20] == [frame[19]];
  }

  /** A slice of a suffix is a slice of the whole. */
  lemma SliceOfSuffix(s: seq<byte>, o: nat, i: nat, j: nat)
    requires o + j <= |s| && i <= j
    ensures s[o..][i..j] == s[o + i..o + j]
  {
  }

  /** A two-byte member read with `ntohs` equals `v` exactly when its bytes
      are `w`, the network-order encoding of `v`. */
  lemma Be16Wire(pair: seq<byte>, v: nat, w: seq<byte>)
    requires |pair| == 2
    requires v < U16Limit && w == ToBe16(v)
    ensures Be16(pair[0], pair[1]) == v <==> pair == w
  {
    Be16Matches(pair[0], pair[1], v);
    assert [pair[0], pair[1]] == pair;
  }

  /** What the receive step did: its return code, and the packet record it
      handed to the server core, if it got as far as building one. */
  datatype RecvResult = RecvResult(rcode: int, handed: Option<Packet>)

  /** `arp_socket_recv`. Allocation of the packet record and the server
      core's acceptance of it are outside the listener: `allocOk` says
      whether the allocation succeeded and `queued` whether the core took
      the packet. */
  function Recv(next: PcapNext, b: Build, allocOk: bool, queued: bool): (r: RecvResult)
    requires ValidCapture(next)
    ensures r.rcode == 0 || r.rcode == 1
    ensures r.handed.Some? <==> next.Captured? && Classify(next.frame, b) == IsArp && allocOk
    ensures r.rcode == 1 <==> r.handed.Some? && queued
    ensures r.handed.Some? ==>
      && r.handed.value.dstPort == 1
      && r.handed.value.dataLen == |next.frame|
      && r.handed.value.data == next.frame
      && r.handed.value.vps == []
  {
    match next
    case NoPacket => RecvResult(0, None)
    case CaptureError(_) => RecvResult(0, None)
    case Captured(frame) =>
      if Classify(frame, b) != IsArp then RecvResult(0, None)
      else if !allocOk then RecvResult(0, None)
      else
        var packet := Packet(1, |frame|, frame, []);
        if !queued then RecvResult(0, Some(packet)) else RecvResult(1, Some(packet))
  }

  /** Acceptance depends only on the frame's length and the first six bytes
      of the ARP header: frames of equal length that agree there are
      classified alike, whatever their operation, addresses or trailer. */
  lemma ClassifyIgnoresRest(f: seq<byte>, g: seq<byte>, b: Build)
    requires |f| == |g|
    requires forall i :: 14 <= i < 20 && i < |f| ==> f[i] == g[i]
    ensures Classify(f, b) == Classify(g, b)
  {
    if |f| >= EtherLen(b) + ArpSize(b) {
      assert f[14..16] == g[14..16];
      assert f[16..18] == g[16..18];
    }
  }
}

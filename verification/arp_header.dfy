/** The fixed layout of an Ethernet/IPv4 ARP frame (RFC 826): the Ethernet
    header, the `arphdr_ether_ipv4` struct the receive step reads
    through, and the `header_names` table the decoder walks. */
module ArpHeader {
  import opened Bytes
  import opened CLayout

  /** ETHER_ADDR_LEN: octets in an Ethernet hardware address. */
  const EtherAddrLen: nat := 6
  /** ARPHRD_ETHER: the RFC 826 hardware type of Ethernet. */
  const ArphrdEther: nat := 1
  /** The protocol type of IPv4 (its EtherType). */
  const ProtoIPv4: nat := 0x0800
  /** Octets in an IPv4 protocol address. */
  const IPv4AddrLen: nat := 4

  /** How the compiler aligns `uint16_t`: to one byte (packed) or to two
      (natural alignment on common ABIs). */
  datatype Abi = Packed | Natural

  /** Which declaration of `struct arphdr_ether_ipv4` is compiled: the one
      in the source, with a one-byte `ar_op`, or the corrected one, with the
      16-bit operation field of RFC 826. */
  datatype StructDecl = AsWritten | Corrected

  /** The compile-time facts that fix `sizeof` of the two header structs. */
  datatype Build = Build(abi: Abi, decl: StructDecl)

  function U16Align(abi: Abi): (a: Alignment)
  {
    if abi.Packed? then 1 else 2
  }

  function U16(name: string, abi: Abi): (m: Member)
  {
    Member(name, 2, U16Align(abi))
  }

  function Octets(name: string, n: nat): (m: Member)
  {
    Member(name, n, 1)
  }

  /** `struct ethernet_header`: destination, source, EtherType. */
  function EthernetStruct(abi: Abi): (ms: seq<Member>)
  {
    [Octets("ether_dst", EtherAddrLen), Octets("ether_src", EtherAddrLen), U16("ether_type", abi)]
  }

  /** `struct arphdr_ether_ipv4`, member by member. */
  function ArpStruct(b: Build): (ms: seq<Member>)
  {
    [ U16("ar_hrd", b.abi), U16("ar_pro", b.abi),
      Octets("ar_hln", 1), Octets("ar_pln", 1),
      if b.decl.AsWritten? then Octets("ar_op", 1) else U16("ar_op", b.abi),
      Octets("ar_sha", EtherAddrLen), Octets("ar_spa", IPv4AddrLen),
      Octets("ar_tha", EtherAddrLen), Octets("ar_tpa", IPv4AddrLen) ]
  }

  /** `sizeof(struct ethernet_header)`: 14 under either alignment, since
      the 16-bit EtherType already starts at an even offset. */
  function EtherLen(b: Build): (r: nat)
    ensures r == 2 * EtherAddrLen + 2
  {
    EthernetEnds(b.abi);
    Size(EthernetStruct(b.abi))
  }

  lemma EthernetEnds(abi: Abi)
    ensures End(EthernetStruct(abi)) == 14
    ensures MaxAlign(EthernetStruct(abi)) == U16Align(abi)
  {
    var ms := EthernetStruct(abi);
    EndStep(ms, 0);
    EndStep(ms, 1);
    EndStep(ms, 2);
    assert ms[..3] == ms;
    assert ms[2].align == U16Align(abi);
  }

  /** `sizeof(struct arphdr_ether_ipv4)`. The declared members add up to 27
      bytes as written and 28 corrected; natural alignment pads 27 to 28. */
  function ArpSize(b: Build): (r: nat)
    ensures b.decl.AsWritten? && b.abi.Packed? ==> r == 27
    ensures !(b.decl.AsWritten? && b.abi.Packed?) ==> r == 28
  {
    ArpPrefixes(b);
    Size(ArpStruct(b))
  }

  /** The width of `ar_op`: one byte as written, two corrected. */
  function OpLen(b: Build): (n: nat)
  {
    if b.decl.AsWritten? then 1 else 2
  }

  /** The ends of the first members of the ARP struct, which fix the
      offsets of every member. */
  lemma ArpPrefixes(b: Build)
    ensures var ms := ArpStruct(b);
      var op := OpLen(b);
      && End(ms[..0]) == 0 && End(ms[..1]) == 2 && End(ms[..2]) == 4
      && End(ms[..3]) == 5 && End(ms[..4]) == 6 && End(ms[..5]) == 6 + op
      && End(ms[..6]) == 12 + op && End(ms[..7]) == 16 + op
      && End(ms[..8]) == 22 + op && End(ms) == 26 + op
      && MaxAlign(ms) == U16Align(b.abi)
  {
    ArpEndsHead(b);
    ArpEndsMiddle(b);
    ArpEndsTail(b);
    ArpMaxAlign(b);
  }

  lemma ArpEndsHead(b: Build)
    ensures var ms := ArpStruct(b);
      && End(ms[..0]) == 0 && End(ms[..1]) == 2 && End(ms[..2]) == 4 && End(ms[..3]) == 5
  {
    var ms := ArpStruct(b);
    assert ms[..0] == [];
    EndStep(ms, 0);
    U16AtEven(0, b.abi);
    EndStep(ms, 1);
    U16AtEven(2, b.abi);
    EndStep(ms, 2);
  }

  /** A 16-bit member placed at an even offset needs no padding. */
  lemma U16AtEven(n: nat, abi: Abi)
    requires n % 2 == 0
    ensures RoundUp(n, U16Align(abi)) == n
  {
    if abi.Packed? {
      assert n % 1 == 0;
    }
  }

  lemma ArpEndsMiddle(b: Build)
    ensures var ms := ArpStruct(b);
      && End(ms[..4]) == 6 && End(ms[..5]) == 6 + OpLen(b) && End(ms[..6]) == 12 + OpLen(b)
  {
    var ms := ArpStruct(b);
    ArpEndsHead(b);
    EndStep(ms, 3);
    EndStep(ms, 4);
    U16AtEven(6, b.abi);
    EndStep(ms, 5);
  }

  lemma ArpEndsTail(b: Build)
    ensures var ms := ArpStruct(b);
      && End(ms[..7]) == 16 + OpLen(b) && End(ms[..8]) == 22 + OpLen(b) && End(ms) == 26 + OpLen(b)
  {
    var ms := ArpStruct(b);
    ArpEndsMiddle(b);
    EndStep(ms, 6);
    EndStep(ms, 7);
    EndStep(ms, 8);
    assert ms[..9] == ms;
  }

  lemma ArpMaxAlign(b: Build)
    ensures MaxAlign(ArpStruct(b)) == U16Align(b.abi)
  {
    var ms := ArpStruct(b);
    assert ms[0].align == U16Align(b.abi);
    assert forall i :: 0 <= i < |ms| ==> ms[i].align == 1 || ms[i].align == U16Align(b.abi);
  }

  /** The members read by the receive step's checks sit at offsets 0, 2, 4 and 5
      with widths 2, 2, 1, 1 whatever the declaration and the alignment. */
  lemma CheckedMembers(b: Build)
    ensures var ms := ArpStruct(b);
      && Offset(ms, 0) == 0 && ms[0].size == 2
      && Offset(ms, 1) == 2 && ms[1].size == 2
      && Offset(ms, 2) == 4 && ms[2].size == 1
      && Offset(ms, 3) == 5 && ms[3].size == 1
  {
    ArpPrefixes(b);
  }

  /** The bytes of member `k` of the ARP struct laid over `arp`. */
  function MemberBytes(b: Build, arp: seq<byte>, k: nat): (r: seq<byte>)
    requires k < |ArpStruct(b)|
    requires |arp| >= ArpSize(b)
    ensures |r| == ArpStruct(b)[k].size
  {
    MemberInside(ArpStruct(b), k);
    var o := Offset(ArpStruct(b), k);
    arp[o..o + ArpStruct(b)[k].size]
  }

  /** The members the receive step checks are the wire bytes 0..1, 2..3,
      4 and 5 of the ARP header. */
  lemma CheckedMemberBytes(b: Build, arp: seq<byte>)
    requires |arp| >= ArpSize(b)
    ensures MemberBytes(b, arp, 0) == arp[0..2]
    ensures MemberBytes(b, arp, 1) == arp[2..4]
    ensures MemberBytes(b, arp, 2) == arp[4..5]
    ensures MemberBytes(b, arp, 3) == arp[5..6]
  {
    CheckedMembers(b);
  }

  /** One row of `header_names`: the attribute name and its width. */
  datatype FieldSpec = FieldSpec(name: string, len: nat)

  /** The `header_names` table, without its NULL terminator. */
  const HeaderNames: seq<FieldSpec> := [
    FieldSpec("ARP-Hardware-Format", 2),
    FieldSpec("ARP-Protocol-Format", 2),
    FieldSpec("ARP-Hardware-Address-Length", 1),
    FieldSpec("ARP-Protocol-Address-Length", 1),
    FieldSpec("ARP-Operation", 2),
    FieldSpec("ARP-Sender-Hardware-Address", 6),
    FieldSpec("ARP-Sender-Protocol-Address", 4),
    FieldSpec("ARP-Target-Hardware-Address", 6),
    FieldSpec("ARP-Target-Protocol-Address", 4)
  ]

  /** Where the decoder's pointer stands before field `i`: the sum of the
      widths of the fields before it. */
  function FieldOffset(t: seq<FieldSpec>, i: nat): (r: nat)
    requires i <= |t|
  {
    if i == 0 then 0 else FieldOffset(t, i - 1) + t[i - 1].len
  }

  /** The bytes the whole table covers. */
  function TableLen(t: seq<FieldSpec>): (n: nat)
  {
    FieldOffset(t, |t|)
  }

  /** Offsets only grow along the table. */
  lemma {:induction false} FieldOffsetMonotone(t: seq<FieldSpec>, i: nat, j: nat)
    requires i <= j <= |t|
    ensures FieldOffset(t, i) <= FieldOffset(t, j)
    decreases j - i
  {
    if i < j {
      FieldOffsetMonotone(t, i, j - 1);
    }
  }

  /** Concatenation of a sequence of byte strings, in order. */
  function Flatten(fs: seq<seq<byte>>): (r: seq<byte>)
  {
    if |fs| == 0 then [] else Flatten(fs[..|fs| - 1]) + fs[|fs| - 1]
  }

  /** Cut `header` into the table's fields: field `i` is the `t[i].len`
      bytes at the field's offset. */
  function Split(t: seq<FieldSpec>, header: seq<byte>): (fs: seq<seq<byte>>)
    requires |header| >= TableLen(t)
    ensures |fs| == |t|
    ensures forall i :: 0 <= i < |t| ==> |fs[i]| == t[i].len
  {
    FieldsInside(t);
    seq(|t|, i requires 0 <= i < |t| => header[FieldOffset(t, i)..FieldOffset(t, i) + t[i].len])
  }

  /** Field `i` of the split is the bytes between its offset and the next. */
  lemma SplitField(t: seq<FieldSpec>, header: seq<byte>, i: nat)
    requires |header| >= TableLen(t)
    requires i < |t|
    ensures FieldOffset(t, i + 1) <= TableLen(t)
    ensures Split(t, header)[i] == header[FieldOffset(t, i)..FieldOffset(t, i + 1)]
  {
    FieldsInside(t);
  }

  /** The fields are contiguous and cover the header: put back together in
      table order they are exactly its first `TableLen(t)` bytes. */
  lemma SplitFlattens(t: seq<FieldSpec>, header: seq<byte>)
    requires |header| >= TableLen(t)
    ensures Flatten(Split(t, header)) == header[..TableLen(t)]
  {
    var fs := Split(t, header);
    FlattenPrefix(t, header, |t|);
    assert fs[..|t|] == fs;
  }

  lemma {:induction false} FlattenPrefix(t: seq<FieldSpec>, header: seq<byte>, k: nat)
    requires |header| >= TableLen(t)
    requires k <= |t|
    ensures FieldOffset(t, k) <= |header|
    ensures Flatten(Split(t, header)[..k]) == header[..FieldOffset(t, k)]
  {
    FieldOffsetMonotone(t, k, |t|);
    if k > 0 {
      var fs := Split(t, header);
      var o, e := FieldOffset(t, k - 1), FieldOffset(t, k);
      FlattenPrefix(t, header, k - 1);
      FlattenLast(fs, k);
      SplitField(t, header, k - 1);
      SliceJoin(header, o, e);
      assert Flatten(fs[..k]) == header[..o] + header[o..e];
    }
  }

  /** Flattening a prefix one element longer appends that element. */
  lemma FlattenLast(fs: seq<seq<byte>>, k: nat)
    requires 0 < k <= |fs|
    ensures Flatten(fs[..k]) == Flatten(fs[..k - 1]) + fs[k - 1]
  {
    assert fs[..k][..k - 1] == fs[..k - 1];
  }

  /** Adjacent slices join up. */
  lemma SliceJoin(s: seq<byte>, o: nat, e: nat)
    requires o <= e <= |s|
    ensures s[..o] + s[o..e] == s[..e]
  {
  }

  /** Every field ends within the bytes the table covers. */
  lemma FieldsInside(t: seq<FieldSpec>)
    ensures forall i :: 0 <= i < |t| ==> FieldOffset(t, i) + t[i].len <= TableLen(t)
  {
    forall i | 0 <= i < |t| ensures FieldOffset(t, i) + t[i].len <= TableLen(t) {
      FieldOffsetMonotone(t, i + 1, |t|);
    }
  }

  /** The table's layout: nine fields of widths 2,2,1,1,2,6,4,6,4 at offsets
      0,2,4,5,6,8,14,18,24, covering 28 bytes. */
  lemma HeaderNamesLayout()
    ensures |HeaderNames| == 9
    ensures seq(9, i requires 0 <= i < 9 => HeaderNames[i].len) == [2, 2, 1, 1, 2, 6, 4, 6, 4]
    ensures seq(9, i requires 0 <= i < 9 => FieldOffset(HeaderNames, i)) == [0, 2, 4, 5, 6, 8, 14, 18, 24]
    ensures TableLen(HeaderNames) == 28
  {
    var t := HeaderNames;
    assert FieldOffset(t, 1) == 2;
    assert FieldOffset(t, 2) == 4;
    assert FieldOffset(t, 3) == 5;
    assert FieldOffset(t, 4) == 6;
    assert FieldOffset(t, 5) == 8;
    assert FieldOffset(t, 6) == 14;
    assert FieldOffset(t, 7) == 18;
    assert FieldOffset(t, 8) == 24;
    assert FieldOffset(t, 9) == 28;
  }
}

/** The listener's decode step: walk `header_names` over the ARP header and
    attach one attribute value per field to the packet. */
module ArpDecode {
  import opened Wrappers
  import opened Bytes
  import opened ArpHeader
  import opened RadiusPacket

  /** The attribute dictionary, keyed by attribute name. */
  type Dictionary = map<string, DictAttr>

  /** What the value decoder returned: the number of bytes it consumed
      (zero or negative on failure) and the value it built. */
  datatype Decoded = Decoded(len: int, vp: ValuePair)

  /** The value decoder: an attribute and the field's bytes in, a result
      out. Its workings are outside this model. */
  type ValueDecoder = (DictAttr, seq<byte>) -> Decoded

  /** The value one field decodes to: `None` when its name is not in the
      dictionary or the value decoder reports a length of zero or less. */
  function FieldValue(dict: Dictionary, decode: ValueDecoder, name: string, bytes: seq<byte>): (r: Option<ValuePair>)
  {
    if name !in dict then None
    else
      var d := decode(dict[name], bytes);
      if d.len <= 0 then None else Some(d.vp)
  }

  /** The table walk as a fold over the split fields from field `i` on: one
      value per field, in table order, stopping at the first field that
      fails. */
  function DecodeFrom(t: seq<FieldSpec>, fs: seq<seq<byte>>, dict: Dictionary, decode: ValueDecoder, i: nat): (vs: seq<ValuePair>)
    requires i <= |t| == |fs|
    ensures i + |vs| <= |t|
    decreases |t| - i
  {
    if i == |t| then []
    else
      match FieldValue(dict, decode, t[i].name, fs[i])
      case None => []
      case Some(vp) => [vp] + DecodeFrom(t, fs, dict, decode, i + 1)
  }

  /** What the fold keeps: the values of the fields from `i` on, up to the
      first field that fails, and no further. */
  lemma {:induction false} DecodeFromSpec(t: seq<FieldSpec>, fs: seq<seq<byte>>, dict: Dictionary, decode: ValueDecoder, i: nat)
    requires i <= |t| == |fs|
    ensures var vs := DecodeFrom(t, fs, dict, decode, i);
      && (forall k :: 0 <= k < |vs| ==> FieldValue(dict, decode, t[i + k].name, fs[i + k]) == Some(vs[k]))
      && (i + |vs| < |t| ==> FieldValue(dict, decode, t[i + |vs|].name, fs[i + |vs|]).None?)
    decreases |t| - i
  {
    if i < |t| && FieldValue(dict, decode, t[i].name, fs[i]).Some? {
      DecodeFromSpec(t, fs, dict, decode, i + 1);
      var rest := DecodeFrom(t, fs, dict, decode, i + 1);
      var vs := DecodeFrom(t, fs, dict, decode, i);
      assert vs == [FieldValue(dict, decode, t[i].name, fs[i]).value] + rest;
      forall k | 0 < k < |vs|
        ensures FieldValue(dict, decode, t[i + k].name, fs[i + k]) == Some(vs[k])
      {
        assert vs[k] == rest[k - 1];
        assert i + k == (i + 1) + (k - 1);
      }
    }
  }

  /** The fold from the first field, seen at field `i` once it is known to
      have got that far: it goes past `i` exactly when field `i` decodes,
      and then with that field's value. */
  lemma FoldAt(t: seq<FieldSpec>, fs: seq<seq<byte>>, dict: Dictionary, decode: ValueDecoder, i: nat)
    requires i < |t| == |fs|
    requires |DecodeFrom(t, fs, dict, decode, 0)| >= i
    ensures var full := DecodeFrom(t, fs, dict, decode, 0);
      var v := FieldValue(dict, decode, t[i].name, fs[i]);
      && (|full| > i <==> v.Some?)
      && (|full| > i ==> full[i] == v.value)
  {
    DecodeFromSpec(t, fs, dict, decode, 0);
    var full := DecodeFrom(t, fs, dict, decode, 0);
    if |full| > i {
      assert FieldValue(dict, decode, t[0 + i].name, fs[0 + i]) == Some(full[i]);
    } else {
      assert FieldValue(dict, decode, t[0 + |full|].name, fs[0 + |full|]).None?;
    }
  }

  /** One step of the fold: field `i` either stops it or puts its value in
      front of the fold from the next field. */
  lemma FoldStep(t: seq<FieldSpec>, fs: seq<seq<byte>>, dict: Dictionary, decode: ValueDecoder, i: nat)
    requires i < |t| == |fs|
    ensures var v := FieldValue(dict, decode, t[i].name, fs[i]);
      && (v.None? ==> DecodeFrom(t, fs, dict, decode, i) == [])
      && (v.Some? ==> DecodeFrom(t, fs, dict, decode, i) == [v.value] + DecodeFrom(t, fs, dict, decode, i + 1))
  {
  }

  /** One field of the walk: look the name up, then decode the bytes. */
  method DecodeField(dict: Dictionary, decode: ValueDecoder, name: string, bytes: seq<byte>)
    returns (ok: bool, vp: ValuePair)
    ensures ok <==> name in dict && decode(dict[name], bytes).len > 0
    ensures ok ==> FieldValue(dict, decode, name, bytes) == Some(vp)
    ensures !ok ==> FieldValue(dict, decode, name, bytes).None?
  {
    if name !in dict {
      return false, ValuePair(DictAttr(name, 0), bytes);
    }
    var d := decode(dict[name], bytes);
    if d.len <= 0 {
      return false, d.vp;
    }
    return true, d.vp;
  }

  /** The loop of `arp_socket_decode` over a field table: a byte position
      that starts at the ARP header and advances by each field's width; at
      each field a dictionary lookup by name, a decode of the field's bytes,
      and an append to the packet's list. The first failed lookup or decode
      ends the walk, keeping the values already appended. */
  method Walk(t: seq<FieldSpec>, packet: Packet, arp: seq<byte>, dict: Dictionary, decode: ValueDecoder)
    returns (out: Packet)
    requires |arp| >= TableLen(t)
    ensures out.dstPort == packet.dstPort && out.dataLen == packet.dataLen && out.data == packet.data
    ensures out.vps == packet.vps + DecodeFrom(t, Split(t, arp), dict, decode, 0)
  {
    ghost var fs := Split(t, arp);
    ghost var goal := packet.vps + DecodeFrom(t, fs, dict, decode, 0);
    var vps := packet.vps;
    var i := 0;
    var p := 0;
    while i < |t|
      invariant 0 <= i <= |t|
      invariant p == FieldOffset(t, i)
      invariant vps + DecodeFrom(t, fs, dict, decode, i) == goal
      decreases |t| - i
    {
      WalkPosition(t, arp, i, p);
      var bytes := arp[p..p + t[i].len];
      FoldStep(t, fs, dict, decode, i);
      var ok, vp := DecodeField(dict, decode, t[i].name, bytes);
      if !ok {
        assert vps + [] == vps;
        return packet.(vps := vps);
      }
      AppendOne(vps, vp, DecodeFrom(t, fs, dict, decode, i + 1));
      vps := vps + [vp];
      p := p + t[i].len;
      i := i + 1;
    }
    assert vps + [] == vps;
    return packet.(vps := vps);
  }

  /** At field `i` the walk's byte position is the field's offset; the
      field's bytes lie inside the header and are field `i` of the split. */
  lemma WalkPosition(t: seq<FieldSpec>, arp: seq<byte>, i: nat, p: nat)
    requires |arp| >= TableLen(t)
    requires i < |t|
    requires p == FieldOffset(t, i)
    ensures p + t[i].len == FieldOffset(t, i + 1) <= |arp|
    ensures arp[p..p + t[i].len] == Split(t, arp)[i]
  {
    SplitField(t, arp, i);
  }

  /** Appending one value and then the rest of the fold is appending the
      fold's remainder with that value in front. */
  lemma AppendOne(a: seq<ValuePair>, v: ValuePair, rest: seq<ValuePair>)
    ensures a + ([v] + rest) == (a + [v]) + rest
  {
  }

  /** `arp_socket_decode`: walk `header_names` over the ARP header, which
      starts after the Ethernet header. The return code is 0 on every path.
      The source does not check the data's length here: it relies on the
      receive step having checked it, so this method requires it. */
  method Decode(packet: Packet, b: Build, dict: Dictionary, decode: ValueDecoder)
    returns (rcode: int, out: Packet)
    requires |packet.data| >= EtherLen(b) + TableLen(HeaderNames)
    ensures rcode == 0
    ensures out.dstPort == packet.dstPort && out.dataLen == packet.dataLen && out.data == packet.data
    ensures var fs := Split(HeaderNames, packet.data[EtherLen(b)..]);
      out.vps == packet.vps + DecodeFrom(HeaderNames, fs, dict, decode, 0)
  {
    var arp := packet.data[EtherLen(b)..];
    out := Walk(HeaderNames, packet, arp, dict, decode);
    rcode := 0;
  }
}

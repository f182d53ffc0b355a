# ARP listener of the RADIUS server, modelled in Dafny

This project models the ARP listener module of the RADIUS server
(`src/modules/proto_arp/proto_arp.c`). The listener captures Ethernet frames
on one interface. It hands the Ethernet/IPv4 ARP frames to the server core
wrapped in a packet record. Later it decodes the nine fields of the ARP
header (RFC 826) into attribute values.

There are three steps:

- **Receive** (`arp_socket_recv`). A frame is accepted only when it holds an
  Ethernet header and a whole `struct arphdr_ether_ipv4`, and the struct's
  first four members say Ethernet/IPv4. Those members are the hardware type
  (1, read big-endian), the protocol type (0x0800), the hardware address
  length (6) and the protocol address length (4). An accepted frame becomes
  a packet record with destination port 1, `data_len` set to the captured
  length, and a copy of the captured bytes.
- **Process** (`arp_process`). This computes the ARP payload length, which
  is the data length less the Ethernet header. It returns 0 when the ARP
  header would start past the end of the data.
- **Decode** (`arp_socket_decode`). This walks the `header_names` table.
  The table has nine fields of widths 2,2,1,1,2,6,4,6,4 at offsets
  0,2,4,5,6,8,14,18,24. For each field the decoder looks the name up in the
  dictionary, decodes the field's bytes, and appends the value to the
  packet. The first failure ends the walk. The return code is 0 on every
  path.

The decoder does not check the data length itself. It relies on the
receive step's check against `sizeof(struct arphdr_ether_ipv4)`. The model
makes that dependence explicit:

- `CLayout` lays out a C struct: alignment padding, member offsets and
  `sizeof`.
- `ArpHeader.Build` fixes two things: the alignment of `uint16_t`, and
  whether `ar_op` is declared as one byte (as written) or as two bytes
  (corrected).
- The receive, process and decode steps all take a `Build`.

Modules:

- `Bytes`: octets and big-endian 16-bit fields (`ntohs`/`htons`).
- `CLayout`: the C struct layout rules.
- `RadiusPacket`: the packet record, `size_t` arithmetic, dictionary
  attributes and value pairs.
- `ArpHeader`: the constants, the two header structs, the `header_names`
  table and the field splitter.
- `ArpRecv`: the frame checks and the receive step.
- `ArpProcess`: the payload-size computation.
- `ArpDecode`: the table walk, as a loop and as a fold.
- `ArpPipeline`: how the steps fit together, and the `ar_op` finding.

Four definitions used by the source are not among the files modelled here:

- `struct ethernet_header` is taken to be the Ethernet II layout: two
  6-byte addresses and a 16-bit EtherType, 14 bytes under either alignment.
- `ARPHRD_ETHER` is taken to be 1, the RFC 826 hardware type of Ethernet.
- `ETHER_ADDR_LEN` (the width of `ar_sha` and `ar_tha`, and the value the
  hardware address length is checked against) is taken to be 6.
- `size_t` is taken to be 64 bits wide, so `size_t` arithmetic wraps
  modulo 2^64.

## Model

| member | source | states |
|---|---|---|
| CLayout.MembersDisjointAndInside | src/modules/proto_arp/proto_arp.c:44-54 | struct members occupy disjoint byte ranges, in declaration order, all within `sizeof` |
| CLayout.SizeCoversMembers | src/modules/proto_arp/proto_arp.c:44-54 | `sizeof` is at least the sum of the member sizes, and equals it when nothing is padded |
| Bytes.Be16 | src/modules/proto_arp/proto_arp.c:132-134 | `ntohs` of two wire octets is below 65536, and its high and low bytes are the first and second octets |
| Bytes.Be16Matches | src/modules/proto_arp/proto_arp.c:132-134 | a big-endian field equals a constant exactly when its two octets are the constant's network-order encoding |
| ArpHeader.EtherLen | src/modules/proto_arp/proto_arp.c:125 | `sizeof(struct ethernet_header)` is 14 bytes under either alignment |
| ArpHeader.ArpSize | src/modules/proto_arp/proto_arp.c:44-54 | `sizeof(struct arphdr_ether_ipv4)` is 27 bytes only for the declaration as written under packed alignment, and 28 bytes otherwise |
| ArpHeader.CheckedMembers | src/modules/proto_arp/proto_arp.c:45-48 | `ar_hrd`, `ar_pro`, `ar_hln`, `ar_pln` sit at offsets 0, 2, 4, 5 with widths 2, 2, 1, 1 for every build |
| ArpHeader.Split | src/modules/proto_arp/proto_arp.c:202-205 | the splitter yields one field per table row, each as wide as its row says |
| ArpHeader.SplitField | src/modules/proto_arp/proto_arp.c:202-205 | field `i` is the bytes from the running sum of the widths before it up to the next running sum, and it ends inside the header |
| ArpHeader.SplitFlattens | src/modules/proto_arp/proto_arp.c:174-186 | the fields are contiguous: concatenated in table order they reproduce the header's first 28 bytes |
| ArpHeader.HeaderNamesLayout | src/modules/proto_arp/proto_arp.c:174-186 | the table has nine fields of widths 2,2,1,1,2,6,4,6,4 at offsets 0,2,4,5,6,8,14,18,24, covering 28 bytes |
| ArpRecv.Classify | src/modules/proto_arp/proto_arp.c:125-138 | each rejection reason holds exactly when the length check fails or the earlier checks pass and that field is wrong; the frame is accepted exactly when it is long enough and bytes 14..19 are 00 01 08 00 06 04 |
| ArpRecv.WireView | src/modules/proto_arp/proto_arp.c:129-138 | each comparison made through the struct and `ntohs` is the same as comparing frame bytes 14..19 with the Ethernet/IPv4 values |
| ArpRecv.ClassifyIgnoresRest | src/modules/proto_arp/proto_arp.c:125-138 | acceptance depends only on the captured length and ARP header bytes 0..5: the operation, the addresses and any trailer never change the verdict |
| ArpRecv.Recv | src/modules/proto_arp/proto_arp.c:114-155 | returns 0 or 1. A packet is built exactly when a frame was captured, passes the checks and allocation succeeds. It returns 1 exactly when the core then queues that packet. The packet has destination port 1, `data_len` equal to the captured length, data equal to the captured bytes, and no values |
| RadiusPacket.SizeSub | src/modules/proto_arp/proto_arp.c:70-71 | `size_t` subtraction is exact when it cannot underflow, and wraps by 2^64 when it does |
| ArpProcess.Process | src/modules/proto_arp/proto_arp.c:64-71 | returns 0 exactly when the ARP start lies past the end of the data, and otherwise returns 1 with a size that adds back to `data_len`, so the subtraction never wraps |
| ArpDecode.DecodeFrom | src/modules/proto_arp/proto_arp.c:202-225 | the fold from field `i` yields at most one value per remaining field |
| ArpDecode.DecodeFromSpec | src/modules/proto_arp/proto_arp.c:210-224 | the fold keeps, in table order, the value of every field up to the first one whose lookup or decode fails, and stops there |
| ArpDecode.FoldAt | src/modules/proto_arp/proto_arp.c:210-224 | once the fold reaches field `i`, it goes past `i` exactly when that field decodes, and then carries that field's value |
| ArpDecode.DecodeField | src/modules/proto_arp/proto_arp.c:210-221 | a field succeeds exactly when its name is in the dictionary and the decoder reports a positive length, and then yields the fold's value for it |
| ArpDecode.WalkPosition | src/modules/proto_arp/proto_arp.c:202-205 | at field `i` the walk's byte position is the field's offset; advancing by the width reaches the next offset, and the bytes passed to the decoder are that field of the split |
| ArpDecode.Walk | src/modules/proto_arp/proto_arp.c:202-225 | the pointer walk leaves data, length and port unchanged, and appends exactly the fold's values after the packet's existing ones |
| ArpDecode.Decode | src/modules/proto_arp/proto_arp.c:188-228 | returns 0 on every path and appends the fold of `header_names` over the bytes after the Ethernet header |
| ArpPipeline.InBoundsAssumption | src/modules/proto_arp/proto_arp.c:198-205 | `sizeof(struct arphdr_ether_ipv4)` covers the 28 bytes the decoder reads exactly when `ar_op` is corrected or `uint16_t` alignment pads the struct |
| ArpPipeline.CheckedFieldsAgree | src/modules/proto_arp/proto_arp.c:174-178 | the four checked fields have the same offsets and widths in the struct and in the table, for every build |
| ArpPipeline.AcceptedFieldsInTable | src/modules/proto_arp/proto_arp.c:132-138 | seen through the table, a long enough frame is accepted exactly when its first four fields are 00 01, 08 00, 06 and 04 |
| ArpPipeline.HandedPacketFitsDecoder | src/modules/proto_arp/proto_arp.c:143-145 | under the in-bounds assumption, every packet handed on holds every byte the decoder reads; processing returns 1 with a size equal to the frame less 14 bytes, at least 28 |
| ArpPipeline.Listen | src/modules/proto_arp/proto_arp.c:140-154 | a capture yields decoded values exactly when receive returns 1; the frame then covers the decoder's reads, and the values are the fold over its ARP header |
| ArpPipeline.AsWrittenPackedOverread | src/modules/proto_arp/proto_arp.c:49 | with `ar_op` as written and packed alignment, a 41-byte frame is accepted although the decoder reads 42 bytes |
| ArpPipeline.AsWrittenDisagreesWithTable | src/modules/proto_arp/proto_arp.c:49-50 | as written, the struct puts `ar_sha` at offset 7 where the table has ARP-Sender-Hardware-Address at 8 |
| ArpPipeline.CorrectedMatchesTable | src/modules/proto_arp/proto_arp.c:174-186 | with a 16-bit `ar_op`, every struct member matches its table row in offset and width, and `sizeof` is exactly 28 under either alignment |

## Left out

- Capture I/O: the capture library's "next packet" call is a `PcapNext`
  value (no packet, error, or a frame whose length is `caplen`), and the
  interface setup, filter and privilege switching in `arp_socket_parse` are
  not modelled. They are I/O and configuration.
- ArpRecv.Recv: the copy of the captured bytes (`talloc_memdup` at
  `src/modules/proto_arp/proto_arp.c:145`) is assumed to succeed. The source
  does not check its result, so on failure it would hand on a packet with no
  data but a nonzero `data_len`; the model promises the copied bytes on
  every path instead.
- Allocation: the allocation of the packet record is the `allocOk`
  parameter of `Recv`. Freeing is not modelled. The server core's
  `request_receive` is the `queued` parameter.
- The dictionary lookup is a finite map from names to attributes. The value
  decoder is an arbitrary function parameter that may fail. Their code is
  outside the module. Debug output and the per-field debug log are left out.
- `arp_process` hands the packet to the post-auth section, whose code is
  outside the module. The model stops at the size computation and the
  return code. The computed size feeds only the disabled hexdump block,
  which is left out.
- `arp_socket_send`, `arp_socket_encode`, `arp_socket_print` and
  `arp_socket_free` are left out. They are stubs, string formatting, and
  memory release.
- The sniffer header `src/include/radsniff.h` is left out. It holds
  declarations and constants only, with no function bodies to model, and
  its latency fields are floating point.
- Unaligned access: the model reads struct members byte by byte. Whether a
  target traps on a misaligned `uint16_t` load at frame offset 14 is not
  modelled.
- ArpDecode.DecodeFrom: its own contract states only the bound on the
  number of values. What the values are is stated by
  ArpDecode.DecodeFromSpec, so that proof is a lemma and not the function's
  contract.

## Findings

| source | as written | input that shows it | evidently intended | confidence | as-written member | corrected member |
|---|---|---|---|---|---|---|
| src/modules/proto_arp/proto_arp.c:49 | `ar_op` is declared `uint8_t`, so the struct members add up to 27 bytes, while `header_names` gives ARP-Operation 2 bytes and the decoder reads 28 bytes after the Ethernet header | with packed alignment, the 41-byte frame `ArpPipeline.ShortArpFrame` (Ethernet header, then 00 01 08 00 06 04 and 21 more bytes) passes the length check at line 125, and the decoder then reads one byte past the captured data | `uint16_t ar_op`, the 16-bit operation of RFC 826; the struct is then 28 bytes under any alignment and matches the table field for field | low, not executed: with the usual 2-byte alignment of `uint16_t`, trailing padding makes the struct 28 bytes and no read goes out of bounds | ArpPipeline.AsWrittenPackedOverread | ArpPipeline.CorrectedMatchesTable |

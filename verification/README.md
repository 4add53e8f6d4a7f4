# A model of the packet path of a simple IPv4 router with NAT

This project models the packet path of a teaching router written in C. The
router answers ARP and forwards IPv4 frames. It answers ICMP on behalf of its
interfaces and, when NAT is switched on, translates ICMP and TCP traffic
between an internal network and one external address. The model also proves
what that code does to every byte of a frame and to the NAT's mapping list.

Modules, following the source:

- `Wire`: bytes, addresses and 16-bit fields in network order (`Ntohs`,
  `Htons`). It also has `memcpy` into a buffer (`CopyInto`) and the
  `malloc`-and-copy of a frame (`Clone`).
- `Frames`: the layout of the Ethernet, IPv4, ICMP, TCP and ARP headers, and
  an accessor per field.
- `Nat`: the mapping records of `sr_nat.h` and the `NatTable` class with
  `sr_nat_init`, both lookups and `sr_nat_insert_mapping`. The mapping list
  is a `seq` field that the methods reassign.
- `Platform`: what the router asks of code outside this model, given as
  parameters of type `Env`:
  - the interface list, looked up by name and by address;
  - the longest-prefix route;
  - the ARP cache;
  - the Internet checksum;
  - the external port allocator.

  It also defines the `Action` a handler ends in: send now, queue for ARP,
  hold as an unsolicited SYN, or drop.
- `ArpMessages`: `send_arpreply` and `send_arprequest`.
- `Forwarding`: the per-hop rewrite. The Ethernet addresses are replaced,
  the time-to-live is decremented and the IP header checksum is recomputed.
- `TcpChecksum`: `tcp_cksum`, over the pseudo-header of RFC 793 section 3.1.
- `IcmpReplies`: `handle_icmp`, which answers with echo replies and
  Destination Unreachable and Time Exceeded errors.
- `NatTranslation`: the ICMP and TCP branches of `handle_nat`.
- `Router`: the decision tree of `handle_ip` and the dispatch in
  `sr_handlepacket`. The dispatch includes the loop that sends the frames
  released by an ARP reply.

Frames are `array<Byte>` buffers rewritten in place, as the C code does.
Every rewriting method is proved against a function on the frame's bytes.
Those functions are written as the sequence of stores the code makes, and
lemmas then state what each stored field holds and what is left untouched.

The model follows the code where the code departs from what a NAT and a
router are usually expected to do:

- The two lookups do not filter on the record type. A TCP lookup can
  therefore return an ICMP record (`Nat.LookupIgnoresType`).
- A lookup returns the last matching record, not the first.
- An inbound NAT packet is translated without the time-to-live check that
  transit traffic gets (`Router.NatInboundSkipsTtlCheck`).
- ICMP error replies carry the whole frame length, Ethernet header included,
  as their IP total length (`IcmpReplies.ErrorReplyLength`).

## Model

| member | source | states |
|---|---|---|
| Nat.NatTable.constructor | router/sr_nat.h:71-80 | a new table holds the configured external address, next port and timeouts, and no mappings |
| Nat.NatTable.Init | router/sr_nat.c:30 | sr_nat_init leaves the mapping list empty and no other field changed |
| Nat.NatTable.LookupExternal | router/sr_nat.c:78-96 | the copy is the last record whose external port or id matches, None when no record does; the type argument is ignored and the table is not changed |
| Nat.NatTable.LookupInternal | router/sr_nat.c:100-118 | the copy is the last record whose internal address and port or id match, None when none does; the table is not changed |
| Nat.NatTable.Lookup | router/sr_nat.c:84-92 | the front-to-back walk that copies every match ends holding the last match |
| Nat.NatTable.InsertMapping | router/sr_nat.c:123-158 | the new record, stamped with the current time and with an empty connection list, is linked at the tail and every earlier record stays; the copy returned equals it |
| Nat.LastMatchNone | router/sr_nat.c:86-92 | a lookup finds nothing exactly when no record of the list matches |
| Nat.LastMatchSome | router/sr_nat.c:86-92 | what a lookup finds is a matching record of the list, and no record after it matches |
| Nat.InsertThenLookup | router/sr_nat.c:142-151 | a record just appended is what the lookup by its external port, and the lookup by its internal endpoint, return |
| Nat.InsertKeepsOtherLookups | router/sr_nat.c:142-151 | appending a record does not change what any lookup it does not match returns |
| Nat.UniqueExternalLookup | router/sr_nat.c:86-92 | when external ports are unique, the lookup by a record's external port returns that record |
| Nat.InsertKeepsExternalUnique | router/sr_nat.c:123-151 | appending a record whose external port is free keeps external ports unique |
| Nat.LookupIgnoresType | router/sr_nat.c:87 | a TCP lookup for port 5 returns a later ICMP record with id 5 |
| ArpMessages.ArpReplyFrame | router/sr_router.c:418-419 | the reply is built in a copy of the request and has its length |
| ArpMessages.ArpReplyEthernet | router/sr_router.c:421-424 | the reply goes to the requester's hardware address, from the interface's; the Ethernet type and the hardware and protocol fields are the request's |
| ArpMessages.ArpReplyOp | router/sr_router.c:431 | the operation is reply (2) |
| ArpMessages.ArpReplyTarget | router/sr_router.c:432-433 | the target hardware and protocol addresses are the requester's sender addresses (ar_hln bytes of hardware address) |
| ArpMessages.ArpReplySender | router/sr_router.c:434-435 | the sender addresses are the interface's hardware and IP addresses; bytes past the ARP header are the request's |
| ArpMessages.ArpReplyFull | router/sr_router.c:430-435 | with 6-byte hardware addresses, the sender and target fields of the request swap places and the interface becomes the sender |
| ArpMessages.ArpRequestFrame | router/sr_router.c:370-378 | the request is 42 bytes long |
| ArpMessages.ArpRequestHeader | router/sr_router.c:383-395 | the request is broadcast from the interface, with type ARP, hardware type Ethernet, protocol IPv4, lengths 6 and 4, and operation request |
| ArpMessages.ArpRequestAddresses | router/sr_router.c:396-399 | the sender is the interface, the target hardware address is zero and the target IP is the one asked for |
| ArpMessages.ArpRequestAnswered | router/sr_router.c:368-435 | the owner of the address answers a request with a reply that carries its hardware address back to the asker |
| ArpMessages.SendArpReply | router/sr_router.c:407-457 | sends, on the receiving interface, the reply built from the request |
| ArpMessages.SendArpRequest | router/sr_router.c:368-405 | sends the request for the address on the named interface |
| Forwarding.WithIpSumFields | router/sr_router.c:537-538 | storing the computed header checksum makes it right over the 20-byte header and touches no other byte |
| Forwarding.StoreIpSum | router/sr_router.c:537-538 | the frame afterwards is the frame with its computed header checksum stored |
| Forwarding.ForwardedFields | router/sr_router.c:221-226 | a forwarded frame has the given Ethernet addresses, the time-to-live one less modulo 256, and a right header checksum; every other byte is as before |
| Forwarding.HopOrderIrrelevant | router/sr_router.c:122-123 | decrementing the time-to-live before or after zeroing the checksum gives the same frame, so the two rewrite orders in the code agree |
| Forwarding.Forward | router/sr_router.c:221-226 | the frame in place becomes the forwarded frame |
| TcpChecksum.PseudoHeaderLayout | router/sr_router.c:639-644 | the pseudo-header holds source, destination, a zero byte, the protocol and the TCP length in network order |
| TcpChecksum.StoredTcpSumOk | router/sr_router.c:646-652 | the stored checksum does not enter the sum, so storing the computed value gives a right checksum |
| TcpChecksum.ForwardKeepsTcpSum | router/sr_router.c:565-571 | the hop's rewrite changes neither the summed bytes nor a right TCP checksum |
| TcpChecksum.TcpCksum | router/sr_router.c:634-658 | zeroes the segment's checksum field and returns the checksum of the pseudo-header and the frame length less 34 bytes of segment (modulo 2^16) |
| TcpChecksum.WithTcpSumFields | router/sr_router.c:571 | storing the computed TCP checksum makes it right and touches no other byte |
| TcpChecksum.StoreTcpSum | router/sr_router.c:571 | the frame afterwards is the frame with its computed TCP checksum stored |
| IcmpReplies.EchoMessage | router/sr_router.c:294-303 | an echo reply has type 0, the given code and a right checksum, and keeps the identifier, sequence, data and total length of the request |
| IcmpReplies.ErrorMessage | router/sr_router.c:304-326 | an error has the given type and code and a right checksum; its total length is the frame length; its data is the 28 bytes from the IP header on |
| IcmpReplies.OtherMessage | router/sr_router.c:292 | for any other type only the protocol byte is set |
| IcmpReplies.ReaddressedFields | router/sr_router.c:329-331 | time-to-live 100, destination the original source, source the interface address, nothing else touched |
| IcmpReplies.ResummedFields | router/sr_router.c:337-351 | the cache-hit rewrite sets the Ethernet addresses and a right checksum over the declared header length, nothing else |
| IcmpReplies.ResummedHeader | router/sr_router.c:337-351 | the cache-hit rewrite keeps the reply's addresses, Ethernet type, TTL and protocol, and sets the link addresses and a right header checksum |
| IcmpReplies.ReplyFrameFields | router/sr_router.c:292-331 | the reply frame is addressed back to the source, from the interface, with TTL 100 and protocol ICMP, and carries the ICMP part of the message |
| IcmpReplies.IcmpReplyAddressing | router/sr_router.c:263-362 | the reply leaves through the interface routing the original source; it is sent when that source is in the ARP cache, addressed to it with a right header checksum, and queued for it otherwise; it is 70 bytes when an error grew the frame and the frame's length otherwise |
| IcmpReplies.OutcomeCarriesMessage | router/sr_router.c:333-362 | the frame handed on carries the message's ICMP part and total length |
| IcmpReplies.IcmpReplyMessage | router/sr_router.c:294-326 | echo and error replies carry the requested type and code and a right ICMP checksum |
| IcmpReplies.EchoReplyEchoes | router/sr_router.c:294-303 | an echo reply gives back identifier, sequence, data and total length unchanged |
| IcmpReplies.ErrorReplyLength | router/sr_router.c:263-271 | an error reply is at least 70 bytes long and its total length field holds the frame length |
| IcmpReplies.WorkBufferQuote | router/sr_router.c:264-280 | the 28 bytes quoted by an error are the frame's from the IP header on, zero past a short frame's end |
| IcmpReplies.ErrorReplyQuotes | router/sr_router.c:278-280 | an error reply's data area quotes those 28 bytes of the offending datagram |
| IcmpReplies.BuildMessage | router/sr_router.c:292-326 | the buffer becomes the ICMP message of the requested type |
| IcmpReplies.Readdress | router/sr_router.c:329-331 | the buffer becomes the readdressed message |
| IcmpReplies.Resum | router/sr_router.c:337-351 | the buffer becomes the message with link addresses and header checksum set |
| IcmpReplies.HandleIcmp | router/sr_router.c:254-364 | the action is the reply the lemmas above describe; a grown error is built in a new buffer and leaves the caller's frame alone, any other reply is built in the caller's frame |
| NatTranslation.BindFacts | router/sr_router.c:532-535 | an outbound packet uses the mapping for its internal endpoint; one is appended, with the allocator's external endpoint, exactly when there was none |
| NatTranslation.InboundRewriteFields | router/sr_router.c:556-557 | the inbound rewrite sets the destination address and port and touches nothing else |
| NatTranslation.TcpOutboundFields | router/sr_router.c:596-629 | an outbound segment leaves from the mapping's external endpoint to its own destination, on the route's interface, with a right TCP checksum (and a right header checksum when sent at once); it is queued exactly in QUEUE mode |
| NatTranslation.IcmpOutboundFields | router/sr_router.c:516-544 | an outbound ICMP packet leaves from the mapping's external address, its ICMP part untouched; it is queued exactly in QUEUE mode, with a right header checksum when sent |
| NatTranslation.TcpInboundForward | router/sr_router.c:555-575 | a mapped inbound segment with the host in the ARP cache is sent to the internal endpoint with the TTL decremented unchecked, both checksums right, and the table unchanged |
| NatTranslation.TcpInboundQueued | router/sr_router.c:576-579 | a mapped inbound segment with the host not cached is queued for it, rewritten, with a right TCP checksum |
| NatTranslation.TcpInboundMiss | router/sr_router.c:582-592 | an unmapped segment to port 1023 or below gets a port-unreachable; any other is held untouched as an unsolicited SYN |
| NatTranslation.IcmpInboundFields | router/sr_router.c:480-514 | a mapped inbound ICMP packet goes to the internal address, sent or queued by the ARP cache; an unmapped one is answered with an echo reply; the table is unchanged |
| NatTranslation.NatTableGrowth | router/sr_router.c:459-633 | handle_nat only appends to the mapping list, at most one record, and appends exactly for an outbound packet whose internal endpoint had no mapping |
| NatTranslation.NatKeepsExternalUnique | router/sr_router.c:519-535 | with an allocator that hands out only free external ports, external ports stay unique |
| NatTranslation.TcpInboundDelivers | router/sr_router.c:553-579 | a segment to a held external port reaches that record's internal address and port, sent or queued |
| NatTranslation.TcpRoundTrip | router/sr_router.c:550-629 | a reply to the port an outbound segment left from is delivered back to the segment's internal address and port, and the table is left as the outbound segment left it |
| NatTranslation.IcmpRoundTrip | router/sr_router.c:478-544 | a reply to the identifier an outbound ICMP packet left with is delivered back to its internal host, its ICMP part untouched |
| NatTranslation.BindMapping | router/sr_router.c:532-535 | the lookup-or-insert on the table returns and leaves what Bind says |
| NatTranslation.IcmpIn | router/sr_router.c:480-514 | rewrites the frame and gives the action of the inbound ICMP branch |
| NatTranslation.IcmpOut | router/sr_router.c:519-544 | rewrites the frame, updates the table and gives the action of the outbound ICMP branch |
| NatTranslation.TcpIn | router/sr_router.c:550-593 | rewrites the frame and gives the action of the inbound TCP branch |
| NatTranslation.TcpOut | router/sr_router.c:596-630 | rewrites the frame, updates the table and gives the action of the outbound TCP branch |
| NatTranslation.HandleNat | router/sr_router.c:459-633 | the action, the frame and the mapping list afterwards are those the lemmas above describe |
| Router.IpReplies | router/sr_router.c:173-215 | host-unreachable is answered with 3/1; a packet for an interface with an echo reply if ICMP, else 3/3; TTL at most 1 in transit with 11/0; no route with 3/0; the table is unchanged |
| Router.ShortFrameAnswered | router/sr_router.c:263-280 | a frame shorter than 70 bytes that handle_ip answers with an error gets a 70-byte reply built in a grown copy; the reply quotes the frame from the IP header on, zero past its end, and the caller's frame is unchanged |
| Router.IpForwards | router/sr_router.c:218-235 | a cache hit forwards with TTL exactly one less, a right header checksum and the payload kept; it is sent directly without NAT or from the external address, and through the outbound NAT otherwise |
| Router.QueueThenFlush | router/sr_router.c:239-244 | without NAT an uncached next hop queues the frame unchanged; the frame the ARP reply then releases is the one that would have been sent had the address been cached |
| Router.NatInboundSkipsTtlCheck | router/sr_router.c:183-187 | a mapped TCP segment to the external address is forwarded even with TTL 0 or 1, which becomes 255 or 0 |
| Router.HandleIp | router/sr_router.c:156-252 | the action, the frame and the mapping list afterwards are handle_ip's outcome; only the frame and the mapping list may change |
| Router.Deliver | router/sr_router.c:182-251 | a frame the NAT does not take ends in handle_ip's outcome: answered by the interface it is addressed to, expired, or routed onward |
| Router.RouteOnward | router/sr_router.c:204-251 | the part of handle_ip after the TTL check ends in handle_ip's outcome |
| Router.QueueUnknown | router/sr_router.c:239-247 | an uncached next hop with a route ends in handle_ip's outcome |
| Router.ForwardKnown | router/sr_router.c:218-238 | a cached next hop ends in handle_ip's outcome |
| Router.Relink | router/sr_router.c:113-125 | the queued frame's rewrite, in its store order, gives the forwarded frame |
| Router.FlushQueued | router/sr_router.c:109-131 | every released frame, in queue order, is readdressed to the replied hardware address, forwarded and sent on its interface |
| Router.HandlePacket | router/sr_router.c:96-148 | an ARP request is answered, an ARP reply releases and sends the waiting frames, an IPv4 frame gets handle_ip's outcome; nothing is done with anything else |

## Left out

- Threads, the mutex and the timeout thread of `sr_nat_init`, and `sr_nat_destroy`: the model is sequential.
- Memory management (`malloc`, `free`, leaked copies): a record copy is a value.
- `printf`, `print_hdrs` and `sr_arpcache_dump`, which only print.
- `sr_send_packet`, `sr_arpcache_queuereq`, the routing table, the interface list, the ARP cache lookup and `cksum`: given as functions in `Env`. A call becomes an `Action` value, and the checksum is any function of the bytes summed.
- `sr_arpcache_insert`: the frames an ARP reply releases are a parameter of `Router.HandlePacket`. The case where it returns NULL, which the code dereferences, is not modelled.
- `sr_tcp_conn_handle` (connection tracking) is declared but not defined in the code, so the model does not cover it. TCP connection lists stay empty.
- `sr_nat_lookup_waiting_syn` and `sr_nat_delete_mapping` on the QUEUE path of outbound TCP are declared but not defined in the code. The model only inserts there.
- `sr_nat_insert_unsol_mapping` is declared but not defined. The model ends with the `HoldUnsolicited` action and the frame untouched.
- The three-argument `sr_nat_insert_mapping` that `handle_nat` calls has no definition. The model calls the defined five-argument insert with the external endpoint an `Env` allocator picks.
- The NAT's `next_port` and the three timeouts are stored but never used.
- Bytes past the end of a frame that an ICMP error grows to 70 bytes are uninitialised in the code. The model makes them zero.
- Router.HandleIp: requires the bytes each branch reads to lie inside the frame, as `Router.IpInput` and `Router.BranchReadable` state. These are the 20-byte IP header, and for ICMP the type byte, plus the code byte when the type is 3 (router/sr_router.c:173). An echo request to the router must hold the 28 bytes from the IP header on, because handle_icmp copies them first (router/sr_router.c:280). A frame handed to handle_nat must hold, for ICMP, the whole 8-byte ICMP header (42 bytes in all). The code reads that far only when an inbound lookup misses and handle_icmp copies 28 bytes from the IP header on (router/sr_router.c:509-511, 280); the other ICMP paths read no further than the identifier, at bytes 38-39 (router/sr_router.c:479, 487, 525, 536). For TCP it must hold a whole 20-byte TCP header (54 bytes in all), although the code reads and writes no further than the checksum, at bytes 50-51 (router/sr_router.c:571, 577, 609, 623). So 40-41-byte ICMP frames and 52-53-byte TCP frames, truncated headers below Ethernet's 60-byte minimum, are excluded from the NAT paths although the code would handle them. Every other branch accepts a frame from 34 bytes on, below Ethernet's 60-byte minimum too. An error for such a frame is built in a grown 70-byte copy (`Router.ShortFrameAnswered`).
- Router.HandleIp: also requires the header length the IP header declares (4 * ip_hl bytes) to fit in the frame. The code reads that many bytes only when handle_icmp sends its reply at once (router/sr_router.c:351). Other paths sum a fixed 20 bytes. So a frame whose declared header runs past its end is excluded on every path, even where the code would not read that far. `IcmpReplies.HandleIcmp` and `NatTranslation.HandleNat` require the same.
- IcmpReplies.HandleIcmp: requires 34 bytes for an error, which is grown to 70 bytes before anything past the IP header is read. Any other type needs 42 bytes, because the 28-byte copy from the IP header comes first (router/sr_router.c:263-280).
- Router.HandlePacket: an ARP frame shorter than 42 bytes is ignored. A request must declare a hardware address length of at most 6, since the code copies that many bytes. An IPv4 frame must meet the requirements of `Router.HandleIp`.
- Router.HandleIp: requires that the receiving interface exists and, with NAT, the interface owning the external address, on every path. The code dereferences the receiving interface without a check on its reply paths (router/sr_router.c:175, 212, 249, and 584 in handle_nat). It uses the interface owning the external address only when an inbound ICMP lookup misses and handle_nat answers with an echo reply from it (router/sr_router.c:510-511, then `iface->ip` at 331). The model asks for both on every path.
- NatTranslation.HandleNat: requires the same interfaces, and `Consistent(env)`, which `Router.HandleIp`, `Router.HandlePacket` and `IcmpReplies.HandleIcmp` require too. It has three conjuncts, each excluding a case the code does not handle:
  - `byName(n)` returns the interface named `n`. The interface table is keyed by name.
  - Every route names an existing interface. Otherwise `sr_get_interface` returns NULL for the route's name and the code dereferences it (router/sr_router.c:220-222, 328 and 338, and the inbound paths of `handle_nat`).
  - An address with an ARP cache entry has a route. Otherwise the cached next hop is looked up under the empty name, `sr_get_interface` returns NULL, and the code dereferences it (router/sr_router.c:220-222 and 338).
- IcmpReplies.HandleIcmp: with no route back to the source, the C code queues the reply on the interface name in `outgoing_iface`, a buffer it never zeroes (router/sr_router.c:259, 327), so the name is uninitialised. The model queues it on the empty name `""`.
- Nat.NatTable.InsertMapping: the code leaves the new record's connection list `conns` uninitialised (router/sr_nat.c:131-139). The model makes it empty.
- The header file declaring `sr_icmp_hdr_t`, `sr_icmp_t3_hdr_t`, `sr_tcp_hdr_t` and `sr_tcp_pshdr_t` is not part of this model, so their layouts are assumptions:
  - The ICMP header is taken as 8 bytes: type, code, checksum, identifier, sequence number. The code reads an `icmp_id` field (router/sr_router.c:479), which a 4-byte header would not have.
  - The grown frame of an ICMP error is 70 bytes only with this 8-byte header (router/sr_router.c:264). With a 6-byte header it would be 68 bytes, and the 28-byte copy of the quoted data (router/sr_router.c:318) would write 2 bytes past the end of the grown buffer.
  - The TCP header is taken to hold the ports at frame offsets 34 and 36 and the checksum at 50. The pseudo-header is taken as the 12 bytes of section 3.1 of RFC 793.
- NatTranslation.IcmpRoundTrip: also requires the mapping's external id to equal its internal id. The code rewrites the address but never the identifier, and nothing in it guarantees that.
- NatTranslation.TcpInboundMiss: states only which action the unmapped cases take.

/** Where the router finds each header field in a received frame: an
    Ethernet header followed by an ARP message, or by an IPv4 header with no
    options and then an ICMP message or a TCP segment. Offsets count from the
    first byte of the frame; multi-byte fields are big-endian on the wire.
    The sizes stand for the header structures the router casts the buffer
    to (sr_ethernet_hdr_t, sr_arp_hdr_t, sr_ip_hdr_t, sr_icmp_hdr_t,
    sr_icmp_t3_hdr_t, sr_tcp_hdr_t, sr_tcp_pshdr_t). The header file that
    declares them is not part of this model: the ICMP header, the TCP header
    and the pseudo-header are laid out as the fields the router reads imply
    (an ICMP identifier, TCP ports and checksum), an assumption rather than a
    copy of those declarations. */
module Frames {
  import opened Wire

  // Header sizes.
  const ETHER_HDR_LEN: nat := 14
  const IP_HDR_LEN: nat := 20
  const ICMP_HDR_LEN: nat := 8        // assumed: type, code, sum, identifier, sequence number
  const ICMP_DATA_SIZE: nat := 28     // an IP header and the first 8 bytes of its payload
  const ICMP_T3_HDR_LEN: nat := 8 + ICMP_DATA_SIZE
  const TCP_HDR_LEN: nat := 20
  const TCP_PSHDR_LEN: nat := 12
  const ARP_FRAME_LEN: nat := 42      // Ethernet header + 28-byte ARP message

  // Ethernet header.
  const ETH_DHOST: nat := 0
  const ETH_SHOST: nat := 6
  const ETH_TYPE: nat := 12

  // IPv4 header.
  const IP_OFF: nat := 14
  const IP_VHL: nat := 14
  const IP_LEN: nat := 16
  const IP_TTL: nat := 22
  const IP_PROTO: nat := 23
  const IP_SUM: nat := 24
  const IP_SRC: nat := 26
  const IP_DST: nat := 30
  const L4_OFF: nat := 34             // ICMP message or TCP segment

  // ICMP message.
  const ICMP_TYPE: nat := 34
  const ICMP_CODE: nat := 35
  const ICMP_SUM: nat := 36
  const ICMP_ID: nat := 38
  const ICMP_DATA: nat := 42          // data area of a type 3 or 11 message

  // TCP segment.
  const TCP_SPORT: nat := 34
  const TCP_DPORT: nat := 36
  const TCP_SUM: nat := 50

  // ARP message.
  const ARP_HRD: nat := 14
  const ARP_PRO: nat := 16
  const ARP_HLN: nat := 18
  const ARP_PLN: nat := 19
  const ARP_OP: nat := 20
  const ARP_SHA: nat := 22
  const ARP_SIP: nat := 28
  const ARP_THA: nat := 32
  const ARP_TIP: nat := 38

  // Field values, as numbers (the code compares them after ntohs or stores
  // them with htons).
  const ETHERTYPE_IP: U16 := 0x0800
  const ETHERTYPE_ARP: U16 := 0x0806
  const IP_PROTOCOL_ICMP: Byte := 1
  const IP_PROTOCOL_TCP: Byte := 6
  const ARP_HRD_ETHERNET: U16 := 1
  const ARP_OP_REQUEST: U16 := 1
  const ARP_OP_REPLY: U16 := 2

  /** Frame length once an ICMP Destination Unreachable or Time Exceeded
      message has room: Ethernet, IP and the type 3 header with its data. */
  const ICMP_ERROR_FRAME_LEN: nat := ETHER_HDR_LEN + IP_HDR_LEN + ICMP_HDR_LEN + ICMP_DATA_SIZE

  function EthDst(s: seq<Byte>): (r: Mac) requires |s| >= ETHER_HDR_LEN { s[ETH_DHOST..ETH_DHOST + 6] }
  function EthSrc(s: seq<Byte>): (r: Mac) requires |s| >= ETHER_HDR_LEN { s[ETH_SHOST..ETH_SHOST + 6] }
  function EthType(s: seq<Byte>): (r: Word) requires |s| >= ETHER_HDR_LEN { s[ETH_TYPE..ETH_TYPE + 2] }

  /** The IPv4 header length in 32-bit words (the low nibble of the first byte). */
  function IpIhl(s: seq<Byte>): (r: Byte) requires |s| > IP_VHL { s[IP_VHL] % 16 }
  function IpTotalLen(s: seq<Byte>): (r: Word) requires |s| >= L4_OFF { s[IP_LEN..IP_LEN + 2] }
  function IpTtl(s: seq<Byte>): (r: Byte) requires |s| >= L4_OFF { s[IP_TTL] }
  function IpProto(s: seq<Byte>): (r: Byte) requires |s| >= L4_OFF { s[IP_PROTO] }
  function IpSum(s: seq<Byte>): (r: Word) requires |s| >= L4_OFF { s[IP_SUM..IP_SUM + 2] }
  function IpSrc(s: seq<Byte>): (r: Addr) requires |s| >= L4_OFF { s[IP_SRC..IP_SRC + 4] }
  function IpDst(s: seq<Byte>): (r: Addr) requires |s| >= L4_OFF { s[IP_DST..IP_DST + 4] }

  function IcmpType(s: seq<Byte>): (r: Byte) requires |s| > ICMP_TYPE { s[ICMP_TYPE] }
  function IcmpCode(s: seq<Byte>): (r: Byte) requires |s| > ICMP_CODE { s[ICMP_CODE] }
  function IcmpSum(s: seq<Byte>): (r: Word) requires |s| >= ICMP_ID { s[ICMP_SUM..ICMP_SUM + 2] }
  function IcmpId(s: seq<Byte>): (r: Word) requires |s| >= ICMP_DATA { s[ICMP_ID..ICMP_ID + 2] }
  function IcmpData(s: seq<Byte>): (r: seq<Byte>)
    requires |s| >= ICMP_ERROR_FRAME_LEN
  {
    s[ICMP_DATA..ICMP_DATA + ICMP_DATA_SIZE]
  }

  function TcpSrcPort(s: seq<Byte>): (r: Word) requires |s| >= L4_OFF + TCP_HDR_LEN { s[TCP_SPORT..TCP_SPORT + 2] }
  function TcpDstPort(s: seq<Byte>): (r: Word) requires |s| >= L4_OFF + TCP_HDR_LEN { s[TCP_DPORT..TCP_DPORT + 2] }
  function TcpSum(s: seq<Byte>): (r: Word) requires |s| >= L4_OFF + TCP_HDR_LEN { s[TCP_SUM..TCP_SUM + 2] }

  function ArpHrd(s: seq<Byte>): (r: Word) requires |s| >= ARP_FRAME_LEN { s[ARP_HRD..ARP_HRD + 2] }
  function ArpPro(s: seq<Byte>): (r: Word) requires |s| >= ARP_FRAME_LEN { s[ARP_PRO..ARP_PRO + 2] }
  function ArpHln(s: seq<Byte>): (r: Byte) requires |s| >= ARP_FRAME_LEN { s[ARP_HLN] }
  function ArpPln(s: seq<Byte>): (r: Byte) requires |s| >= ARP_FRAME_LEN { s[ARP_PLN] }
  function ArpOp(s: seq<Byte>): (r: Word) requires |s| >= ARP_FRAME_LEN { s[ARP_OP..ARP_OP + 2] }
  function ArpSha(s: seq<Byte>): (r: Mac) requires |s| >= ARP_FRAME_LEN { s[ARP_SHA..ARP_SHA + 6] }
  function ArpSip(s: seq<Byte>): (r: Addr) requires |s| >= ARP_FRAME_LEN { s[ARP_SIP..ARP_SIP + 4] }
  function ArpTha(s: seq<Byte>): (r: Mac) requires |s| >= ARP_FRAME_LEN { s[ARP_THA..ARP_THA + 6] }
  function ArpTip(s: seq<Byte>): (r: Addr) requires |s| >= ARP_FRAME_LEN { s[ARP_TIP..ARP_TIP + 4] }

  /** The headers of an IPv4 frame the NAT works on are all inside it: the
      IP header it declares, the whole 8-byte ICMP header, the whole
      20-byte TCP header. */
  predicate IpFrameReadable(s: seq<Byte>)
  {
    && |s| >= L4_OFF
    && IP_OFF + 4 * IpIhl(s) <= |s|
    && (IpProto(s) == IP_PROTOCOL_ICMP ==> |s| >= ICMP_DATA)
    && (IpProto(s) == IP_PROTOCOL_TCP ==> |s| >= L4_OFF + TCP_HDR_LEN)
  }
}

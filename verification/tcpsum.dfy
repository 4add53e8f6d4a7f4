/** tcp_cksum: the TCP checksum over the pseudo-header of RFC 793 section
    3.1 and the segment, computed with the segment's checksum field zeroed. */
module TcpChecksum {
  import opened Wire
  import opened Frames
  import opened Forwarding

  /** The TCP length tcp_cksum uses: the frame length less the Ethernet and
      the 20-byte IP header, truncated to 16 bits as the uint16_t holding it. */
  function TcpLength(s: seq<Byte>): (r: U16)
    requires |s| >= L4_OFF
  {
    (|s| - L4_OFF) % 0x1_0000
  }

  /** The 12-byte pseudo-header: source and destination address, a zero
      byte, the protocol, and the TCP length in network order. */
  function PseudoHeader(s: seq<Byte>): (r: seq<Byte>)
    requires |s| >= L4_OFF
    ensures |r| == TCP_PSHDR_LEN
  {
    IpSrc(s) + IpDst(s) + [0, IpProto(s)] + Htons(TcpLength(s))
  }

  /** What tcp_cksum sums: the pseudo-header followed by TcpLength bytes of
      segment, the checksum field among them zeroed. */
  function TcpSumInput(s: seq<Byte>): (r: seq<Byte>)
    requires |s| >= L4_OFF + TCP_HDR_LEN
    ensures |r| == TCP_PSHDR_LEN + TcpLength(s)
  {
    PseudoHeader(s) + Overwrite(s, TCP_SUM, ZERO_WORD)[L4_OFF..L4_OFF + TcpLength(s)]
  }

  /** The segment's checksum field holds the checksum of its pseudo-header
      and contents. */
  predicate TcpSumOk(s: seq<Byte>, ck: seq<Byte> -> Word)
    requires |s| >= L4_OFF + TCP_HDR_LEN
  {
    TcpSum(s) == ck(TcpSumInput(s))
  }

  /** The pseudo-header carries the addresses, a zero, the protocol and the
      segment length as RFC 793 section 3.1 lays them out. */
  lemma PseudoHeaderLayout(s: seq<Byte>)
    requires |s| >= L4_OFF
    ensures var p := PseudoHeader(s);
      && p[0..4] == IpSrc(s) && p[4..8] == IpDst(s) && p[8] == 0 && p[9] == IpProto(s)
      && Ntohs(p[10..12]) == TcpLength(s)
  {
    var p := PseudoHeader(s);
    assert p[10..12] == Htons(TcpLength(s));
  }

  /** The value in the checksum field does not enter the sum, so storing the
      computed sum leaves a segment whose checksum is right. */
  lemma StoredTcpSumOk(s: seq<Byte>, ck: seq<Byte> -> Word)
    requires |s| >= L4_OFF + TCP_HDR_LEN
    ensures TcpSumOk(Overwrite(s, TCP_SUM, ck(TcpSumInput(s))), ck)
  {
    var r := Overwrite(s, TCP_SUM, ck(TcpSumInput(s)));
    assert Overwrite(r, TCP_SUM, ZERO_WORD) == Overwrite(s, TCP_SUM, ZERO_WORD);
    assert PseudoHeader(r) == PseudoHeader(s) by {
      assert IpSrc(r) == IpSrc(s) && IpDst(r) == IpDst(s);
    }
  }

  /** Forwarding a frame one hop touches neither the pseudo-header nor the
      segment, so a right TCP checksum stays right. */
  lemma ForwardKeepsTcpSum(s: seq<Byte>, dst: Mac, src: Mac, ck: seq<Byte> -> Word)
    requires |s| >= L4_OFF + TCP_HDR_LEN
    ensures TcpSumInput(Forwarded(s, dst, src, ck)) == TcpSumInput(s)
    ensures TcpSumOk(s, ck) ==> TcpSumOk(Forwarded(s, dst, src, ck), ck)
  {
    var r := Forwarded(s, dst, src, ck);
    ForwardedFields(s, dst, src, ck);
    assert r[IP_SRC..] == s[IP_SRC..];
    assert IpSrc(r) == IpSrc(s) && IpDst(r) == IpDst(s);
    assert r[L4_OFF..] == s[L4_OFF..];
    assert Overwrite(r, TCP_SUM, ZERO_WORD)[L4_OFF..] == Overwrite(s, TCP_SUM, ZERO_WORD)[L4_OFF..];
  }

  /** tcp_cksum: zeroes the checksum field of the frame in `b` and returns
      the checksum of the pseudo-header and segment. */
  method TcpCksum(b: array<Byte>, ck: seq<Byte> -> Word) returns (sum: Word)
    requires b.Length >= L4_OFF + TCP_HDR_LEN
    modifies b
    ensures b[..] == Overwrite(old(b[..]), TCP_SUM, ZERO_WORD)
    ensures sum == ck(TcpSumInput(old(b[..])))
  {
    var pshdr := new Byte[TCP_PSHDR_LEN](_ => 0);
    CopyInto(pshdr, 0, b[IP_SRC..IP_SRC + 4]);
    CopyInto(pshdr, 4, b[IP_DST..IP_DST + 4]);
    pshdr[9] := b[IP_PROTO];
    var tcpLength: U16 := (b.Length - L4_OFF) % 0x1_0000;
    CopyInto(pshdr, 10, Htons(tcpLength));
    assert pshdr[..] == PseudoHeader(old(b[..]));
    CopyInto(b, TCP_SUM, ZERO_WORD);
    var total := new Byte[TCP_PSHDR_LEN + tcpLength](_ => 0);
    CopyInto(total, 0, pshdr[..]);
    CopyInto(total, TCP_PSHDR_LEN, b[L4_OFF..L4_OFF + tcpLength]);
    assert total[..] == TcpSumInput(old(b[..]));
    sum := ck(total[..]);
  }

  /** `tcp_header->checksum = tcp_cksum(packet, len)`: the frame with the
      computed TCP checksum stored. */
  function WithTcpSum(s: seq<Byte>, ck: seq<Byte> -> Word): (r: seq<Byte>)
    requires |s| >= L4_OFF + TCP_HDR_LEN
    ensures |r| == |s|
  {
    Overwrite(s, TCP_SUM, ck(TcpSumInput(s)))
  }

  /** Storing the computed checksum makes it right and touches no other byte. */
  lemma WithTcpSumFields(s: seq<Byte>, ck: seq<Byte> -> Word)
    requires |s| >= L4_OFF + TCP_HDR_LEN
    ensures var r := WithTcpSum(s, ck);
      && TcpSumOk(r, ck)
      && r[..TCP_SUM] == s[..TCP_SUM] && r[TCP_SUM + 2..] == s[TCP_SUM + 2..]
  {
    StoredTcpSumOk(s, ck);
  }

  /** The checksum computed and stored into the frame in `b`. */
  method StoreTcpSum(b: array<Byte>, ck: seq<Byte> -> Word)
    requires b.Length >= L4_OFF + TCP_HDR_LEN
    modifies b
    ensures b[..] == WithTcpSum(old(b[..]), ck)
  {
    var sum := TcpCksum(b, ck);
    CopyInto(b, TCP_SUM, sum);
    assert Overwrite(Overwrite(old(b[..]), TCP_SUM, ZERO_WORD), TCP_SUM, sum) == Overwrite(old(b[..]), TCP_SUM, sum);
  }
}

/** handle_nat: address and port translation of ICMP and TCP traffic
    between the internal network and the NAT's external address. A packet
    to the external address is translated back to the internal endpoint its
    mapping names; any other packet gets its source rewritten to the
    external endpoint of the mapping for its internal endpoint, which is
    created when there is none. */
module NatTranslation {
  import opened Wire
  import opened Frames
  import opened Platform
  import opened Forwarding
  import opened TcpChecksum
  import opened IcmpReplies
  import opened Nat

  /** What handle_ip asks of handle_nat for an outbound packet: send it now,
      its next hop being in the ARP cache (FORWARD), or queue it for an ARP
      request (QUEUE). */
  datatype Mode = ForwardNow | QueueForArp

  /** What a call of handle_nat leaves behind: the action taken, the bytes
      of the caller's frame buffer, and the mapping list. */
  datatype NatResult = NatResult(act: Action, frame: seq<Byte>, mappings: seq<Mapping>)

  /** The mapping an outbound packet from (`ip`, `aux`) uses: the one the
      lookup by that internal endpoint finds, or else a new one appended at
      the tail with the external endpoint the allocator chooses. */
  function Bind(env: Env, ms: seq<Mapping>, kind: MappingType, ip: Addr, aux: U16, now: int): (Mapping, seq<Mapping>)
  {
    match LastMatch(ms, Internal(ip, aux))
    case Some(m) => (m, ms)
    case None =>
      var ep := env.allocate(kind, ip, aux);
      var m := Mapping(kind, ip, ep.ip, aux, ep.aux, now, []);
      (m, ms + [m])
  }

  /** An inbound ICMP packet: with a mapping for its identifier it goes to
      the internal host, forwarded at once when the host is in the ARP
      cache and queued otherwise; without one the router answers it with an
      echo reply from its external interface `extIface`. */
  function IcmpInbound(env: Env, ms: seq<Mapping>, s: seq<Byte>, extIface: Iface): (r: NatResult)
    requires Consistent(env) && IpFrameReadable(s) && IpProto(s) == IP_PROTOCOL_ICMP
  {
    match LastMatch(ms, External(Ntohs(IcmpId(s))))
    case Some(m) =>
      var s1 := Overwrite(s, IP_DST, m.ipInt);
      var out := RouteName(env, m.ipInt);
      (match env.arp(m.ipInt)
       case Some(mac) =>
         var f := Forwarded(s1, mac, env.byName(out).value.mac, env.cksum);
         NatResult(Send(f, out), f, ms)
       case None => NatResult(Queue(m.ipInt, s1, out), s1, ms))
    case None =>
      var act := IcmpOutcome(env, s, extIface, 0, 0);
      NatResult(act, act.frame, ms)
  }

  /** An outbound ICMP packet: its source address becomes the mapping's
      external address (the identifier is left as it is); queued for its
      destination, or with the header checksum recomputed sent at once. */
  function IcmpOutbound(env: Env, ms: seq<Mapping>, s: seq<Byte>, mode: Mode, now: int): (r: NatResult)
    requires IpFrameReadable(s) && IpProto(s) == IP_PROTOCOL_ICMP
  {
    var (m, ms') := Bind(env, ms, IcmpMapping, IpSrc(s), Ntohs(IcmpId(s)), now);
    var s1 := Overwrite(s, IP_SRC, m.ipExt);
    var out := RouteName(env, IpDst(s));
    match mode
    case QueueForArp => NatResult(Queue(IpDst(s), s1, out), s1, ms')
    case ForwardNow =>
      var f := WithIpSum(s1, env.cksum);
      NatResult(Send(f, out), f, ms')
  }

  /** An inbound TCP segment: with a mapping for its destination port the
      destination address and port become the internal endpoint and the TCP
      checksum is recomputed, then it is forwarded or queued as for ICMP;
      without one, a segment to a well-known port (at most 1023) is answered
      with a port-unreachable error from the receiving interface `rxIface`,
      and any other is held as an unsolicited SYN. */
  function TcpInbound(env: Env, ms: seq<Mapping>, s: seq<Byte>, rxIface: Iface): (r: NatResult)
    requires Consistent(env) && IpFrameReadable(s) && IpProto(s) == IP_PROTOCOL_TCP
  {
    var aux := Ntohs(TcpDstPort(s));
    match LastMatch(ms, External(aux))
    case Some(m) =>
      var s1 := Overwrite(Overwrite(s, IP_DST, m.ipInt), TCP_DPORT, Htons(m.auxInt));
      var out := RouteName(env, m.ipInt);
      (match env.arp(m.ipInt)
       case Some(mac) =>
         var f := WithTcpSum(Forwarded(s1, mac, env.byName(out).value.mac, env.cksum), env.cksum);
         NatResult(Send(f, out), f, ms)
       case None =>
         var f := WithTcpSum(s1, env.cksum);
         NatResult(Queue(m.ipInt, f, out), f, ms))
    case None =>
      if aux <= 1023 then
        var act := IcmpOutcome(env, s, rxIface, 3, 3);
        NatResult(act, if Grows(s, 3) then s else act.frame, ms)
      else
        NatResult(HoldUnsolicited, s, ms)
  }

  /** An outbound TCP segment: its source address and port become the
      mapping's external endpoint and the TCP checksum is recomputed; queued
      for its destination, or with the header checksum recomputed as well
      sent at once. */
  function TcpOutbound(env: Env, ms: seq<Mapping>, s: seq<Byte>, mode: Mode, now: int): (r: NatResult)
    requires IpFrameReadable(s) && IpProto(s) == IP_PROTOCOL_TCP
  {
    var (m, ms') := Bind(env, ms, TcpMapping, IpSrc(s), Ntohs(TcpSrcPort(s)), now);
    var out := RouteName(env, IpDst(s));
    match mode
    case QueueForArp =>
      var f := WithTcpSum(Overwrite(Overwrite(s, IP_SRC, m.ipExt), TCP_SPORT, Htons(m.auxExt)), env.cksum);
      NatResult(Queue(IpDst(s), f, out), f, ms')
    case ForwardNow =>
      var f := WithTcpSum(Overwrite(WithIpSum(Overwrite(s, IP_SRC, m.ipExt), env.cksum), TCP_SPORT, Htons(m.auxExt)), env.cksum);
      NatResult(Send(f, out), f, ms')
  }

  /** The interfaces handle_nat hands to handle_icmp exist: the one owning
      the external address for an inbound ICMP packet, the receiving one
      `rxName` for an inbound TCP segment. */
  predicate IfacesPresent(env: Env, ipExt: Addr, s: seq<Byte>, rxName: string)
    requires |s| >= L4_OFF
  {
    && (IpProto(s) == IP_PROTOCOL_ICMP && IpDst(s) == ipExt ==> env.byIp(ipExt).Some?)
    && (IpProto(s) == IP_PROTOCOL_TCP && IpDst(s) == ipExt ==> env.byName(rxName).Some?)
  }

  /** handle_nat on frame `s` received on `rxName`, with mapping list `ms`
      and external address `ipExt`: ICMP and TCP are translated, inbound when
      addressed to the external address and outbound otherwise; any other
      protocol is dropped. */
  function NatOutcome(env: Env, ms: seq<Mapping>, ipExt: Addr, s: seq<Byte>, rxName: string, mode: Mode, now: int): (r: NatResult)
    requires Consistent(env) && IpFrameReadable(s) && IfacesPresent(env, ipExt, s, rxName)
  {
    if IpProto(s) == IP_PROTOCOL_ICMP then
      if IpDst(s) == ipExt then IcmpInbound(env, ms, s, env.byIp(ipExt).value)
      else IcmpOutbound(env, ms, s, mode, now)
    else if IpProto(s) == IP_PROTOCOL_TCP then
      if IpDst(s) == ipExt then TcpInbound(env, ms, s, env.byName(rxName).value)
      else TcpOutbound(env, ms, s, mode, now)
    else
      NatResult(Drop, s, ms)
  }

  /** The mapping an outbound packet uses is one for its internal endpoint,
      and the lookup by that endpoint finds it in the new list; the list
      grows by that one record exactly when there was none, and is left
      alone otherwise. */
  lemma BindFacts(env: Env, ms: seq<Mapping>, kind: MappingType, ip: Addr, aux: U16, now: int)
    ensures var (m, ms') := Bind(env, ms, kind, ip, aux, now);
      && m.ipInt == ip && m.auxInt == aux
      && LastMatch(ms', Internal(ip, aux)) == Some(m)
      && (LastMatch(ms, Internal(ip, aux)).Some? ==> ms' == ms)
      && (LastMatch(ms, Internal(ip, aux)).None? ==>
            ms' == ms + [m] && m.kind == kind && m.lastUpdated == now && m.conns == []
            && m.ipExt == env.allocate(kind, ip, aux).ip && m.auxExt == env.allocate(kind, ip, aux).aux)
      && exists i :: 0 <= i < |ms'| && ms'[i] == m
  {
    var (m, ms') := Bind(env, ms, kind, ip, aux, now);
    match LastMatch(ms, Internal(ip, aux))
    case Some(_) =>
      LastMatchSome(ms, Internal(ip, aux));
    case None =>
      InsertThenLookup(ms, m);
      assert ms'[|ms|] == m;
  }

  /** The rewrite of an inbound segment's destination touches nothing but
      the destination address and port. */
  lemma InboundRewriteFields(s: seq<Byte>, ipInt: Addr, auxInt: U16)
    requires |s| >= L4_OFF + TCP_HDR_LEN
    ensures var s1 := Overwrite(Overwrite(s, IP_DST, ipInt), TCP_DPORT, Htons(auxInt));
      && IpDst(s1) == ipInt && TcpDstPort(s1) == Htons(auxInt)
      && s1[..IP_DST] == s[..IP_DST] && TcpSrcPort(s1) == TcpSrcPort(s)
      && s1[TCP_DPORT + 2..] == s[TCP_DPORT + 2..]
  {
    var s0 := Overwrite(s, IP_DST, ipInt);
    OverwritePlaces(s, IP_DST, ipInt);
    OverwriteKeeps(s0, TCP_DPORT, Htons(auxInt), IP_DST, L4_OFF);
  }

  /** The last two stores of the outbound TCP path: the source port, then
      the TCP checksum; the IP header is left as it was. */
  lemma SourcePortFields(h: seq<Byte>, auxExt: U16, ck: seq<Byte> -> Word)
    requires |h| >= L4_OFF + TCP_HDR_LEN
    ensures var f := WithTcpSum(Overwrite(h, TCP_SPORT, Htons(auxExt)), ck);
      && f[..L4_OFF] == h[..L4_OFF]
      && Ntohs(TcpSrcPort(f)) == auxExt && TcpDstPort(f) == TcpDstPort(h)
      && TcpSumOk(f, ck)
  {
    var g2 := Overwrite(h, TCP_SPORT, Htons(auxExt));
    var f := WithTcpSum(g2, ck);
    OverwriteKeeps(h, TCP_SPORT, Htons(auxExt), 0, L4_OFF);
    WithTcpSumFields(g2, ck);
    PrefixRange(f, g2, TCP_SUM, 0, L4_OFF);
    PrefixRange(f, g2, TCP_SUM, TCP_SPORT, TCP_SPORT + 2);
    PrefixRange(f, g2, TCP_SUM, TCP_DPORT, TCP_DPORT + 2);
  }

  /** The outbound rewrite of the IP header: the source address replaced,
      then, for a packet sent at once, the header checksum recomputed. The
      destination, the protocol and everything after the header are kept. */
  lemma SourceAddressFields(s: seq<Byte>, ip: Addr, ck: seq<Byte> -> Word)
    requires |s| >= L4_OFF
    ensures var g := Overwrite(s, IP_SRC, ip);
      && IpSrc(g) == ip && IpDst(g) == IpDst(s) && IpProto(g) == IpProto(s)
      && g[L4_OFF..] == s[L4_OFF..]
    ensures var h := WithIpSum(Overwrite(s, IP_SRC, ip), ck);
      && IpSrc(h) == ip && IpDst(h) == IpDst(s) && IpProto(h) == IpProto(s)
      && h[L4_OFF..] == s[L4_OFF..] && IpSumOver(h, IP_HDR_LEN, ck)
  {
    var g := Overwrite(s, IP_SRC, ip);
    var h := WithIpSum(g, ck);
    OverwritePlaces(s, IP_SRC, ip);
    OverwriteKeeps(s, IP_SRC, ip, IP_PROTO, IP_PROTO + 1);
    OverwriteKeeps(s, IP_SRC, ip, IP_DST, L4_OFF);
    OverwriteKeeps(s, IP_SRC, ip, L4_OFF, |s|);
    assert IpProto(g) == IpProto(s) by {
      assert g[IP_PROTO] == g[IP_PROTO..IP_PROTO + 1][0];
      assert s[IP_PROTO] == s[IP_PROTO..IP_PROTO + 1][0];
    }
    WithIpSumFields(g, ck);
    PrefixRange(h, g, IP_SUM, IP_PROTO, IP_PROTO + 1);
    SuffixRange(h, g, IP_SRC, IP_SRC, IP_DST);
    SuffixRange(h, g, IP_SRC, IP_DST, L4_OFF);
    SuffixRange(h, g, IP_SRC, L4_OFF, |s|);
    assert IpProto(h) == IpProto(g) by {
      assert h[IP_PROTO] == h[IP_PROTO..IP_PROTO + 1][0];
      assert g[IP_PROTO] == g[IP_PROTO..IP_PROTO + 1][0];
    }
  }

  /** An outbound segment leaves from the mapping's external endpoint,
      still to its destination, with a right TCP checksum (and, sent at
      once, a right header checksum); it goes where the route to its
      destination leads, queued for that destination in QUEUE mode. */
  lemma TcpOutboundFields(env: Env, ms: seq<Mapping>, s: seq<Byte>, mode: Mode, now: int)
    requires IpFrameReadable(s) && IpProto(s) == IP_PROTOCOL_TCP
    ensures var (m, ms') := Bind(env, ms, TcpMapping, IpSrc(s), Ntohs(TcpSrcPort(s)), now);
      var r := TcpOutbound(env, ms, s, mode, now);
      && r.mappings == ms'
      && (r.act.Send? || r.act.Queue?) && r.act.frame == r.frame && |r.frame| == |s|
      && r.act.iface == RouteName(env, IpDst(s))
      && (r.act.Queue? <==> mode == QueueForArp)
      && (r.act.Queue? ==> r.act.nextHop == IpDst(s))
      && IpSrc(r.frame) == m.ipExt && Ntohs(TcpSrcPort(r.frame)) == m.auxExt
      && IpDst(r.frame) == IpDst(s) && TcpDstPort(r.frame) == TcpDstPort(s)
      && IpProto(r.frame) == IP_PROTOCOL_TCP
      && TcpSumOk(r.frame, env.cksum)
      && (mode == ForwardNow ==> IpSumOver(r.frame, IP_HDR_LEN, env.cksum))
  {
    var (m, ms') := Bind(env, ms, TcpMapping, IpSrc(s), Ntohs(TcpSrcPort(s)), now);
    var f := TcpOutbound(env, ms, s, mode, now).frame;
    var g1 := Overwrite(s, IP_SRC, m.ipExt);
    var h := if mode == ForwardNow then WithIpSum(g1, env.cksum) else g1;
    SourceAddressFields(s, m.ipExt, env.cksum);
    assert IpSrc(h) == m.ipExt && IpDst(h) == IpDst(s) && IpProto(h) == IP_PROTOCOL_TCP;
    assert h[L4_OFF..] == s[L4_OFF..];
    SuffixRange(h, s, L4_OFF, TCP_DPORT, TCP_DPORT + 2);
    assert f == WithTcpSum(Overwrite(h, TCP_SPORT, Htons(m.auxExt)), env.cksum);
    SourcePortFields(h, m.auxExt, env.cksum);
    PrefixRange(f, h, L4_OFF, IP_SRC, IP_SRC + 4);
    PrefixRange(f, h, L4_OFF, IP_DST, IP_DST + 4);
    assert IpProto(f) == IpProto(h) by {
      assert f[IP_PROTO] == f[..L4_OFF][IP_PROTO];
      assert h[IP_PROTO] == h[..L4_OFF][IP_PROTO];
    }
    if mode == ForwardNow {
      IpSumOverPrefix(f, h, env.cksum);
    }
  }

  /** An outbound ICMP packet leaves from the mapping's external address,
      still to its destination, with the ICMP message (identifier included)
      untouched, and sent at once with a right header checksum; it goes
      where the route to its destination leads, queued for that destination
      in QUEUE mode. */
  lemma IcmpOutboundFields(env: Env, ms: seq<Mapping>, s: seq<Byte>, mode: Mode, now: int)
    requires IpFrameReadable(s) && IpProto(s) == IP_PROTOCOL_ICMP
    ensures var (m, ms') := Bind(env, ms, IcmpMapping, IpSrc(s), Ntohs(IcmpId(s)), now);
      var r := IcmpOutbound(env, ms, s, mode, now);
      && r.mappings == ms'
      && (r.act.Send? || r.act.Queue?) && r.act.frame == r.frame && |r.frame| == |s|
      && r.act.iface == RouteName(env, IpDst(s))
      && (r.act.Queue? <==> mode == QueueForArp)
      && (r.act.Queue? ==> r.act.nextHop == IpDst(s))
      && IpSrc(r.frame) == m.ipExt && IpDst(r.frame) == IpDst(s)
      && IpProto(r.frame) == IP_PROTOCOL_ICMP
      && r.frame[L4_OFF..] == s[L4_OFF..] && IcmpId(r.frame) == IcmpId(s)
      && (mode == ForwardNow ==> IpSumOver(r.frame, IP_HDR_LEN, env.cksum))
  {
    var (m, ms') := Bind(env, ms, IcmpMapping, IpSrc(s), Ntohs(IcmpId(s)), now);
    var f := IcmpOutbound(env, ms, s, mode, now).frame;
    SourceAddressFields(s, m.ipExt, env.cksum);
    assert f[L4_OFF..] == s[L4_OFF..];
    SuffixRange(f, s, L4_OFF, ICMP_ID, ICMP_ID + 2);
  }

  /** An inbound segment sent on at once: the hop's rewrite, then the TCP
      checksum; the addresses and ports are those of `s1`. */
  lemma InboundSendFields(s1: seq<Byte>, dst: Mac, src: Mac, ck: seq<Byte> -> Word)
    requires |s1| >= L4_OFF + TCP_HDR_LEN
    ensures var f := WithTcpSum(Forwarded(s1, dst, src, ck), ck);
      && EthDst(f) == dst && EthSrc(f) == src
      && IpTtl(f) == DecTtl(IpTtl(s1)) && IpSumOver(f, IP_HDR_LEN, ck)
      && f[IP_SRC..TCP_SUM] == s1[IP_SRC..TCP_SUM]
      && TcpSumOk(f, ck)
  {
    var g := Forwarded(s1, dst, src, ck);
    var f := WithTcpSum(g, ck);
    ForwardedFields(s1, dst, src, ck);
    WithTcpSumFields(g, ck);
    PrefixRange(f, g, TCP_SUM, 0, L4_OFF);
    assert f[..L4_OFF] == g[..L4_OFF];
    IpSumOverPrefix(f, g, ck);
    PrefixRange(f, g, TCP_SUM, IP_SRC, TCP_SUM);
    SuffixRange(g, s1, IP_SRC, IP_SRC, TCP_SUM);
  }

  /** An inbound segment whose destination port has a mapping goes to the
      mapping's internal endpoint: destination address and port rewritten,
      source untouched, TCP checksum right; it leaves through the interface
      routing the internal host. When the host is in the ARP cache it is
      sent on at once, addressed to it, with the time-to-live counted down
      (unchecked, modulo 256) and a right header checksum. The table is not
      changed. */
  lemma TcpInboundForward(env: Env, ms: seq<Mapping>, s: seq<Byte>, rxIface: Iface)
    requires Consistent(env) && IpFrameReadable(s) && IpProto(s) == IP_PROTOCOL_TCP
    requires LastMatch(ms, External(Ntohs(TcpDstPort(s)))).Some?
    requires env.arp(LastMatch(ms, External(Ntohs(TcpDstPort(s)))).value.ipInt).Some?
    ensures var m := LastMatch(ms, External(Ntohs(TcpDstPort(s)))).value;
      var r := TcpInbound(env, ms, s, rxIface);
      && r.mappings == ms
      && r.act == Send(r.frame, RouteName(env, m.ipInt)) && |r.frame| == |s|
      && IpDst(r.frame) == m.ipInt && Ntohs(TcpDstPort(r.frame)) == m.auxInt
      && IpSrc(r.frame) == IpSrc(s) && TcpSrcPort(r.frame) == TcpSrcPort(s)
      && TcpSumOk(r.frame, env.cksum)
      && EthDst(r.frame) == env.arp(m.ipInt).value
      && IpTtl(r.frame) == DecTtl(IpTtl(s))
      && IpSumOver(r.frame, IP_HDR_LEN, env.cksum)
  {
    var m := LastMatch(ms, External(Ntohs(TcpDstPort(s)))).value;
    var s1 := Overwrite(Overwrite(s, IP_DST, m.ipInt), TCP_DPORT, Htons(m.auxInt));
    InboundRewriteFields(s, m.ipInt, m.auxInt);
    var f := TcpInbound(env, ms, s, rxIface).frame;
    var mac := env.arp(m.ipInt).value;
    assert f == WithTcpSum(Forwarded(s1, mac, env.byName(RouteName(env, m.ipInt)).value.mac, env.cksum), env.cksum);
    InboundSendFields(s1, mac, env.byName(RouteName(env, m.ipInt)).value.mac, env.cksum);
    PrefixRange(s1, s, IP_DST, IP_TTL, IP_TTL + 1);
    InnerRange(f, s1, IP_SRC, TCP_SUM, IP_SRC, IP_SRC + 4);
    InnerRange(f, s1, IP_SRC, TCP_SUM, IP_DST, IP_DST + 4);
    InnerRange(f, s1, IP_SRC, TCP_SUM, TCP_SPORT, TCP_SPORT + 2);
    InnerRange(f, s1, IP_SRC, TCP_SUM, TCP_DPORT, TCP_DPORT + 2);
  }

  /** An inbound segment whose destination port has a mapping, when the
      internal host is not in the ARP cache: rewritten to the internal
      endpoint with a right TCP checksum and queued for the host on the
      interface routing it. The table is not changed. */
  lemma TcpInboundQueued(env: Env, ms: seq<Mapping>, s: seq<Byte>, rxIface: Iface)
    requires Consistent(env) && IpFrameReadable(s) && IpProto(s) == IP_PROTOCOL_TCP
    requires LastMatch(ms, External(Ntohs(TcpDstPort(s)))).Some?
    requires env.arp(LastMatch(ms, External(Ntohs(TcpDstPort(s)))).value.ipInt).None?
    ensures var m := LastMatch(ms, External(Ntohs(TcpDstPort(s)))).value;
      var r := TcpInbound(env, ms, s, rxIface);
      && r.mappings == ms
      && r.act == Queue(m.ipInt, r.frame, RouteName(env, m.ipInt)) && |r.frame| == |s|
      && IpDst(r.frame) == m.ipInt && Ntohs(TcpDstPort(r.frame)) == m.auxInt
      && IpSrc(r.frame) == IpSrc(s) && TcpSrcPort(r.frame) == TcpSrcPort(s)
      && TcpSumOk(r.frame, env.cksum)
  {
    var m := LastMatch(ms, External(Ntohs(TcpDstPort(s)))).value;
    var s1 := Overwrite(Overwrite(s, IP_DST, m.ipInt), TCP_DPORT, Htons(m.auxInt));
    InboundRewriteFields(s, m.ipInt, m.auxInt);
    var f := TcpInbound(env, ms, s, rxIface).frame;
    assert f == WithTcpSum(s1, env.cksum);
    WithTcpSumFields(s1, env.cksum);
    PrefixRange(f, s1, TCP_SUM, IP_SRC, IP_SRC + 4);
    PrefixRange(f, s1, TCP_SUM, IP_DST, IP_DST + 4);
    PrefixRange(f, s1, TCP_SUM, TCP_SPORT, TCP_SPORT + 2);
    PrefixRange(f, s1, TCP_SUM, TCP_DPORT, TCP_DPORT + 2);
    PrefixRange(s1, s, IP_DST, IP_SRC, IP_SRC + 4);
  }

  /** An inbound segment without a mapping: one to a well-known port (at
      most 1023) is answered with ICMP port unreachable (type 3, code 3)
      from the receiving interface; any other is held as an unsolicited SYN
      and the frame is not touched. The table is not changed. */
  lemma TcpInboundMiss(env: Env, ms: seq<Mapping>, s: seq<Byte>, rxIface: Iface)
    requires Consistent(env) && IpFrameReadable(s) && IpProto(s) == IP_PROTOCOL_TCP
    requires LastMatch(ms, External(Ntohs(TcpDstPort(s)))).None?
    ensures var r := TcpInbound(env, ms, s, rxIface);
      && r.mappings == ms
      && (Ntohs(TcpDstPort(s)) <= 1023 ==> r.act == IcmpOutcome(env, s, rxIface, 3, 3))
      && (Ntohs(TcpDstPort(s)) > 1023 ==> r.act == HoldUnsolicited && r.frame == s)
  {
  }

  /** An inbound ICMP packet whose identifier has a mapping goes to the
      mapping's internal address, the rest of the packet untouched but for
      the hop's rewrite; without a mapping the router answers with an echo
      reply. The table is not changed. */
  lemma IcmpInboundFields(env: Env, ms: seq<Mapping>, s: seq<Byte>, extIface: Iface)
    requires Consistent(env) && IpFrameReadable(s) && IpProto(s) == IP_PROTOCOL_ICMP
    ensures var r := IcmpInbound(env, ms, s, extIface);
      && r.mappings == ms
      && match LastMatch(ms, External(Ntohs(IcmpId(s))))
         case None => r.act == IcmpOutcome(env, s, extIface, 0, 0)
         case Some(m) =>
           && (r.act.Send? || r.act.Queue?) && r.act.frame == r.frame && |r.frame| == |s|
           && r.act.iface == RouteName(env, m.ipInt)
           && IpDst(r.frame) == m.ipInt && IpSrc(r.frame) == IpSrc(s)
           && r.frame[L4_OFF..] == s[L4_OFF..]
           && (r.act.Queue? <==> env.arp(m.ipInt).None?)
           && (r.act.Queue? ==> r.act.nextHop == m.ipInt)
           && (r.act.Send? ==>
                 && EthDst(r.frame) == env.arp(m.ipInt).value
                 && IpTtl(r.frame) == DecTtl(IpTtl(s))
                 && IpSumOver(r.frame, IP_HDR_LEN, env.cksum))
  {
    match LastMatch(ms, External(Ntohs(IcmpId(s))))
    case None =>
    case Some(m) =>
      var s1 := Overwrite(s, IP_DST, m.ipInt);
      OverwritePlaces(s, IP_DST, m.ipInt);
      OverwriteKeeps(s, IP_DST, m.ipInt, 0, IP_DST);
      OverwriteKeeps(s, IP_DST, m.ipInt, L4_OFF, |s|);
      PrefixRange(s1, s, IP_DST, IP_SRC, IP_SRC + 4);
      PrefixRange(s1, s, IP_DST, IP_TTL, IP_TTL + 1);
      match env.arp(m.ipInt)
      case Some(mac) =>
        var f := IcmpInbound(env, ms, s, extIface).frame;
        ForwardedFields(s1, mac, env.byName(RouteName(env, m.ipInt)).value.mac, env.cksum);
        SuffixRange(f, s1, IP_SRC, IP_SRC, IP_SRC + 4);
        SuffixRange(f, s1, IP_SRC, IP_DST, IP_DST + 4);
        SuffixRange(f, s1, IP_SRC, L4_OFF, |s|);
      case None =>
  }

  /** A packet handle_nat translates outbound: ICMP or TCP not addressed
      to the external address. */
  predicate IsOutbound(s: seq<Byte>, ipExt: Addr)
    requires |s| >= L4_OFF
  {
    (IpProto(s) == IP_PROTOCOL_ICMP || IpProto(s) == IP_PROTOCOL_TCP) && IpDst(s) != ipExt
  }

  /** The internal port or identifier of an outbound packet. */
  function SourceAux(s: seq<Byte>): (r: U16)
    requires IpFrameReadable(s) && (IpProto(s) == IP_PROTOCOL_ICMP || IpProto(s) == IP_PROTOCOL_TCP)
  {
    if IpProto(s) == IP_PROTOCOL_ICMP then Ntohs(IcmpId(s)) else Ntohs(TcpSrcPort(s))
  }

  /** handle_nat only ever appends to the mapping list, and appends one
      record exactly when it translates an outbound packet whose internal
      endpoint has no mapping yet; inbound packets and other protocols
      leave the list as it was. */
  lemma NatTableGrowth(env: Env, ms: seq<Mapping>, ipExt: Addr, s: seq<Byte>, rxName: string, mode: Mode, now: int)
    requires Consistent(env) && IpFrameReadable(s) && IfacesPresent(env, ipExt, s, rxName)
    ensures var r := NatOutcome(env, ms, ipExt, s, rxName, mode, now);
      && ms <= r.mappings && |r.mappings| <= |ms| + 1
      && (|r.mappings| == |ms| + 1 <==>
            IsOutbound(s, ipExt) && LastMatch(ms, Internal(IpSrc(s), SourceAux(s))).None?)
  {
    if IsOutbound(s, ipExt) {
      var kind := if IpProto(s) == IP_PROTOCOL_ICMP then IcmpMapping else TcpMapping;
      BindFacts(env, ms, kind, IpSrc(s), SourceAux(s), now);
      if IpProto(s) == IP_PROTOCOL_ICMP {
        IcmpOutboundFields(env, ms, s, mode, now);
      } else {
        TcpOutboundFields(env, ms, s, mode, now);
      }
    } else if IpProto(s) == IP_PROTOCOL_ICMP {
      IcmpInboundFields(env, ms, s, env.byIp(ipExt).value);
    }
  }

  /** When the allocator only hands out external ports no record holds,
      handle_nat keeps the external ports of the table unique. */
  lemma NatKeepsExternalUnique(env: Env, ms: seq<Mapping>, ipExt: Addr, s: seq<Byte>, rxName: string, mode: Mode, now: int)
    requires Consistent(env) && IpFrameReadable(s) && IfacesPresent(env, ipExt, s, rxName)
    requires ExternalUnique(ms)
    requires forall kind, ip, aux :: LastMatch(ms, External(env.allocate(kind, ip, aux).aux)).None?
    ensures ExternalUnique(NatOutcome(env, ms, ipExt, s, rxName, mode, now).mappings)
  {
    NatTableGrowth(env, ms, ipExt, s, rxName, mode, now);
    if IsOutbound(s, ipExt) && LastMatch(ms, Internal(IpSrc(s), SourceAux(s))).None? {
      var kind := if IpProto(s) == IP_PROTOCOL_ICMP then IcmpMapping else TcpMapping;
      BindFacts(env, ms, kind, IpSrc(s), SourceAux(s), now);
      var (m, ms') := Bind(env, ms, kind, IpSrc(s), SourceAux(s), now);
      InsertKeepsExternalUnique(ms, m);
    }
  }

  /** Two 16-bit fields holding the same number hold the same bytes. */
  lemma NtohsInjective(a: Word, b: Word)
    requires Ntohs(a) == Ntohs(b)
    ensures a == b
  {
    HtonsNtohs(a);
    HtonsNtohs(b);
  }

  /** A TCP segment to an external port some record holds is delivered to
      that record's internal endpoint, whether it is sent now or queued. */
  lemma TcpInboundDelivers(env: Env, ms: seq<Mapping>, s: seq<Byte>, rxIface: Iface, m: Mapping)
    requires Consistent(env) && IpFrameReadable(s) && IpProto(s) == IP_PROTOCOL_TCP
    requires LastMatch(ms, External(Ntohs(TcpDstPort(s)))) == Some(m)
    ensures var r := TcpInbound(env, ms, s, rxIface);
      && r.mappings == ms && (r.act.Send? || r.act.Queue?)
      && IpDst(r.frame) == m.ipInt && Ntohs(TcpDstPort(r.frame)) == m.auxInt
  {
    if env.arp(m.ipInt).Some? {
      TcpInboundForward(env, ms, s, rxIface);
    } else {
      TcpInboundQueued(env, ms, s, rxIface);
    }
  }

  /** The TCP round trip through the two branches of handle_nat: a segment
      from internal endpoint (A, p) goes out from (external address, P); a
      segment that comes back to port P of the external address is
      delivered to (A, p), sent now or queued, as long as the external
      ports of the table are unique. */
  lemma TcpRoundTrip(env: Env, ms: seq<Mapping>, out: seq<Byte>, back: seq<Byte>,
                     rxBack: Iface, modeOut: Mode, now: int)
    requires Consistent(env) && IpFrameReadable(out) && IpProto(out) == IP_PROTOCOL_TCP
    requires ExternalUnique(TcpOutbound(env, ms, out, modeOut, now).mappings)
    requires IpFrameReadable(back) && IpProto(back) == IP_PROTOCOL_TCP
    requires TcpDstPort(back) == TcpSrcPort(TcpOutbound(env, ms, out, modeOut, now).frame)
    ensures var r1 := TcpOutbound(env, ms, out, modeOut, now);
      var r2 := TcpInbound(env, r1.mappings, back, rxBack);
      && r2.mappings == r1.mappings
      && (r2.act.Send? || r2.act.Queue?)
      && IpDst(r2.frame) == IpSrc(out) && TcpDstPort(r2.frame) == TcpSrcPort(out)
  {
    TcpOutboundFields(env, ms, out, modeOut, now);
    BindFacts(env, ms, TcpMapping, IpSrc(out), Ntohs(TcpSrcPort(out)), now);
    var (m, ms') := Bind(env, ms, TcpMapping, IpSrc(out), Ntohs(TcpSrcPort(out)), now);
    var i :| 0 <= i < |ms'| && ms'[i] == m;
    UniqueExternalLookup(ms', i);
    TcpInboundDelivers(env, ms', back, rxBack, m);
    var r2 := TcpInbound(env, ms', back, rxBack);
    NtohsInjective(TcpDstPort(r2.frame), TcpSrcPort(out));
  }

  /** The ICMP round trip: an echo request from internal host A goes out
      from the external address with its identifier unchanged; a packet
      coming back to the external address with that identifier is
      delivered to A, its ICMP message untouched, provided the external
      identifier of the mapping used equals the internal one and the
      external identifiers of the table are unique. */
  lemma IcmpRoundTrip(env: Env, ms: seq<Mapping>, ipExt: Addr, out: seq<Byte>, back: seq<Byte>,
                      rxOut: string, rxBack: string, modeOut: Mode, modeBack: Mode, now: int, later: int)
    requires Consistent(env) && IpFrameReadable(out) && IpProto(out) == IP_PROTOCOL_ICMP && IpDst(out) != ipExt
    requires ExternalUnique(NatOutcome(env, ms, ipExt, out, rxOut, modeOut, now).mappings)
    requires var m := Bind(env, ms, IcmpMapping, IpSrc(out), Ntohs(IcmpId(out)), now).0;
      m.auxExt == m.auxInt
    requires IpFrameReadable(back) && IpProto(back) == IP_PROTOCOL_ICMP && IpDst(back) == ipExt
    requires env.byIp(ipExt).Some?
    requires IcmpId(back) == IcmpId(NatOutcome(env, ms, ipExt, out, rxOut, modeOut, now).frame)
    ensures var r1 := NatOutcome(env, ms, ipExt, out, rxOut, modeOut, now);
      var r2 := NatOutcome(env, r1.mappings, ipExt, back, rxBack, modeBack, later);
      && r2.mappings == r1.mappings
      && (r2.act.Send? || r2.act.Queue?)
      && IpDst(r2.frame) == IpSrc(out) && r2.frame[L4_OFF..] == back[L4_OFF..]
  {
    var r1 := NatOutcome(env, ms, ipExt, out, rxOut, modeOut, now);
    IcmpOutboundFields(env, ms, out, modeOut, now);
    BindFacts(env, ms, IcmpMapping, IpSrc(out), Ntohs(IcmpId(out)), now);
    var (m, ms') := Bind(env, ms, IcmpMapping, IpSrc(out), Ntohs(IcmpId(out)), now);
    var i :| 0 <= i < |ms'| && ms'[i] == m;
    UniqueExternalLookup(ms', i);
    assert LastMatch(r1.mappings, External(Ntohs(IcmpId(back)))) == Some(m);
    IcmpInboundFields(env, r1.mappings, back, env.byIp(ipExt).value);
  }

  /** The lookup-or-insert both outbound paths make on the table. */
  method BindMapping(table: NatTable, env: Env, kind: MappingType, ip: Addr, aux: U16, now: int) returns (m: Mapping)
    modifies table`mappings
    ensures (m, table.mappings) == Bind(env, old(table.mappings), kind, ip, aux, now)
  {
    var copy := table.LookupInternal(ip, aux, kind);
    if copy.None? {
      var ep := env.allocate(kind, ip, aux);
      m := table.InsertMapping(ip, ep.ip, aux, ep.aux, kind, now);
    } else {
      m := copy.value;
    }
  }

  /** The inbound ICMP path, in the frame `b`. */
  method IcmpIn(env: Env, b: array<Byte>, table: NatTable, extIface: Iface) returns (act: Action)
    requires Consistent(env) && IpFrameReadable(b[..]) && IpProto(b[..]) == IP_PROTOCOL_ICMP
    modifies b
    ensures var r := IcmpInbound(env, table.mappings, old(b[..]), extIface);
      act == r.act && b[..] == r.frame
  {
    var copy := table.LookupExternal(Ntohs(b[ICMP_ID..ICMP_ID + 2]), IcmpMapping);
    match copy {
      case Some(m) =>
        CopyInto(b, IP_DST, m.ipInt);
        var out := RouteName(env, m.ipInt);
        match env.arp(m.ipInt) {
          case Some(mac) =>
            Forward(b, mac, env.byName(out).value.mac, env.cksum);
            act := Send(b[..], out);
          case None =>
            act := Queue(m.ipInt, b[..], out);
        }
      case None =>
        act := HandleIcmp(env, b, extIface, 0, 0);
    }
  }

  /** The outbound ICMP path, in the frame `b`. */
  method IcmpOut(env: Env, b: array<Byte>, table: NatTable, mode: Mode, now: int) returns (act: Action)
    requires IpFrameReadable(b[..]) && IpProto(b[..]) == IP_PROTOCOL_ICMP
    modifies b, table`mappings
    ensures var r := IcmpOutbound(env, old(table.mappings), old(b[..]), mode, now);
      act == r.act && b[..] == r.frame && table.mappings == r.mappings
  {
    var src: Addr := b[IP_SRC..IP_SRC + 4];
    var dst: Addr := b[IP_DST..IP_DST + 4];
    var m := BindMapping(table, env, IcmpMapping, src, Ntohs(b[ICMP_ID..ICMP_ID + 2]), now);
    CopyInto(b, IP_SRC, m.ipExt);
    var out := RouteName(env, dst);
    match mode {
      case QueueForArp =>
        act := Queue(dst, b[..], out);
      case ForwardNow =>
        StoreIpSum(b, env.cksum);
        act := Send(b[..], out);
    }
  }

  /** The inbound TCP path, in the frame `b`; an error reply that needs a
      larger buffer leaves `b` as it was. */
  method TcpIn(env: Env, b: array<Byte>, table: NatTable, rxIface: Iface) returns (act: Action)
    requires Consistent(env) && IpFrameReadable(b[..]) && IpProto(b[..]) == IP_PROTOCOL_TCP
    modifies b
    ensures var r := TcpInbound(env, table.mappings, old(b[..]), rxIface);
      act == r.act && b[..] == r.frame
  {
    var aux := Ntohs(b[TCP_DPORT..TCP_DPORT + 2]);
    var copy := table.LookupExternal(aux, TcpMapping);
    match copy {
      case Some(m) =>
        CopyInto(b, IP_DST, m.ipInt);
        CopyInto(b, TCP_DPORT, Htons(m.auxInt));
        var out := RouteName(env, m.ipInt);
        match env.arp(m.ipInt) {
          case Some(mac) =>
            Forward(b, mac, env.byName(out).value.mac, env.cksum);
            StoreTcpSum(b, env.cksum);
            act := Send(b[..], out);
          case None =>
            StoreTcpSum(b, env.cksum);
            act := Queue(m.ipInt, b[..], out);
        }
      case None =>
        if aux <= 1023 {
          act := HandleIcmp(env, b, rxIface, 3, 3);
        } else {
          act := HoldUnsolicited;
        }
    }
  }

  /** The outbound TCP path, in the frame `b`. */
  method TcpOut(env: Env, b: array<Byte>, table: NatTable, mode: Mode, now: int) returns (act: Action)
    requires IpFrameReadable(b[..]) && IpProto(b[..]) == IP_PROTOCOL_TCP
    modifies b, table`mappings
    ensures var r := TcpOutbound(env, old(table.mappings), old(b[..]), mode, now);
      act == r.act && b[..] == r.frame && table.mappings == r.mappings
  {
    var src: Addr := b[IP_SRC..IP_SRC + 4];
    var dst: Addr := b[IP_DST..IP_DST + 4];
    var m := BindMapping(table, env, TcpMapping, src, Ntohs(b[TCP_SPORT..TCP_SPORT + 2]), now);
    var out := RouteName(env, dst);
    match mode {
      case QueueForArp =>
        CopyInto(b, IP_SRC, m.ipExt);
        CopyInto(b, TCP_SPORT, Htons(m.auxExt));
        StoreTcpSum(b, env.cksum);
        act := Queue(dst, b[..], out);
      case ForwardNow =>
        CopyInto(b, IP_SRC, m.ipExt);
        StoreIpSum(b, env.cksum);
        CopyInto(b, TCP_SPORT, Htons(m.auxExt));
        StoreTcpSum(b, env.cksum);
        act := Send(b[..], out);
    }
  }

  /** handle_nat on the frame in `frame`, received on `rxName`, with the
      translation state `table`. */
  method HandleNat(env: Env, frame: array<Byte>, table: NatTable, rxName: string, mode: Mode, now: int) returns (act: Action)
    requires Consistent(env) && IpFrameReadable(frame[..]) && IfacesPresent(env, table.ipExt, frame[..], rxName)
    modifies frame, table`mappings
    ensures var r := NatOutcome(env, old(table.mappings), table.ipExt, old(frame[..]), rxName, mode, now);
      act == r.act && frame[..] == r.frame && table.mappings == r.mappings
  {
    var dst: Addr := frame[IP_DST..IP_DST + 4];
    if frame[IP_PROTO] == IP_PROTOCOL_ICMP {
      if dst == table.ipExt {
        act := IcmpIn(env, frame, table, env.byIp(table.ipExt).value);
      } else {
        act := IcmpOut(env, frame, table, mode, now);
      }
    } else if frame[IP_PROTO] == IP_PROTOCOL_TCP {
      if dst == table.ipExt {
        act := TcpIn(env, frame, table, env.byName(rxName).value);
      } else {
        act := TcpOut(env, frame, table, mode, now);
      }
    } else {
      act := Drop;
    }
  }
}

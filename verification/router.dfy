/** handle_ip and the ARP-reply branch of sr_handlepacket: what the router
    does with an IPv4 frame it receives (answer it with an ICMP message,
    hand it to the NAT, forward it, queue it for an ARP request), and how
    the frames waiting for a next hop's hardware address are sent once an
    ARP reply brings it. */
module Router {
  import opened Wire
  import opened Frames
  import opened Platform
  import opened Forwarding
  import opened IcmpReplies
  import opened ArpMessages
  import opened NatTranslation
  import opened Nat

  /** The branch handle_ip takes, in the order it tests for them. */
  datatype Verdict =
    | Unreachable1         // an ICMP host-unreachable: answered 3/1 from the receiving interface
    | ToNat                // addressed to the NAT's external address: handle_nat FORWARD
    | Local(ifc: Iface)    // addressed to interface `ifc` of the router
    | Expired              // in transit with a time-to-live of at most 1
    | NextHopKnown(mac: Mac) // in transit, the destination in the ARP cache
    | NextHopUnknown       // in transit, a route but no ARP entry
    | NoRoute              // in transit, no route

  /** What handle_ip reads before it branches lies inside the frame: the IP
      header, including the header length it declares, and for ICMP the type
      byte, and the code byte after a type of 3. */
  predicate IpInput(s: seq<Byte>)
  {
    && |s| >= L4_OFF && IP_OFF + 4 * IpIhl(s) <= |s|
    && (IpProto(s) == IP_PROTOCOL_ICMP ==> |s| > ICMP_TYPE && (IcmpType(s) == 3 ==> |s| > ICMP_CODE))
  }

  /** The interfaces handle_ip looks up by name or address and then uses
      exist: the receiving one, and with a NAT the one owning its external
      address. */
  predicate RouterReady(env: Env, natExt: Option<Addr>, rxName: string)
  {
    env.byName(rxName).Some? && (natExt.Some? ==> env.byIp(natExt.value).Some?)
  }

  /** The branch of handle_ip for frame `s`; `natExt` is the NAT's external
      address, None when the router runs without NAT. */
  function Classify(env: Env, natExt: Option<Addr>, s: seq<Byte>): (r: Verdict)
    requires IpInput(s)
  {
    if IpProto(s) == IP_PROTOCOL_ICMP && IcmpType(s) == 3 && IcmpCode(s) == 1 then Unreachable1
    else if natExt.Some? && IpDst(s) == natExt.value then ToNat
    else if env.byIp(IpDst(s)).Some? then Local(env.byIp(IpDst(s)).value)
    else if IpTtl(s) <= 1 then Expired
    else if env.arp(IpDst(s)).Some? then NextHopKnown(env.arp(IpDst(s)).value)
    else if RouteName(env, IpDst(s)) != "" then NextHopUnknown
    else NoRoute
  }

  /** handle_ip hands `s` to handle_nat: it is for the NAT's external
      address, or in transit from another source with a route. */
  predicate ReachesNat(env: Env, natExt: Option<Addr>, s: seq<Byte>)
    requires IpInput(s)
  {
    && natExt.Some?
    && match Classify(env, natExt, s)
       case ToNat => true
       case NextHopKnown(_) => natExt.value != IpSrc(s)
       case NextHopUnknown => true
       case _ => false
  }

  /** The branch handle_ip takes reads only inside the frame: an echo
      request to the router holds the 28 bytes from the IP header on that
      handle_icmp copies, and a frame handed to handle_nat the headers
      handle_nat reads. Every other branch reads no further than IpInput. */
  predicate BranchReadable(env: Env, natExt: Option<Addr>, s: seq<Byte>)
    requires IpInput(s)
  {
    && (Classify(env, natExt, s).Local? && IpProto(s) == IP_PROTOCOL_ICMP ==> |s| >= ICMP_DATA)
    && (ReachesNat(env, natExt, s) ==> IpFrameReadable(s))
  }

  /** handle_icmp called on `s`: its action, and the caller's buffer, which
      keeps its bytes when the error message needs a bigger one. */
  function Replied(env: Env, ms: seq<Mapping>, s: seq<Byte>, ifc: Iface, icmpType: Byte, code: Byte): (r: NatResult)
    requires Consistent(env) && IcmpInput(s, icmpType)
    ensures r.mappings == ms && r.act == IcmpOutcome(env, s, ifc, icmpType, code)
  {
    var act := IcmpOutcome(env, s, ifc, icmpType, code);
    NatResult(act, if Grows(s, icmpType) then s else act.frame, ms)
  }

  /** Forwarding leaves the headers the router reads where they were. */
  lemma ForwardedShape(s: seq<Byte>, dst: Mac, src: Mac, ck: seq<Byte> -> Word)
    requires IpInput(s)
    ensures var f := Forwarded(s, dst, src, ck);
      && IpInput(f) && IpProto(f) == IpProto(s) && IpSrc(f) == IpSrc(s) && IpDst(f) == IpDst(s)
      && (IpFrameReadable(s) ==> IpFrameReadable(f))
  {
    var f := Forwarded(s, dst, src, ck);
    ForwardedFields(s, dst, src, ck);
    assert f[IP_VHL] == f[ETH_TYPE..IP_TTL][IP_VHL - ETH_TYPE];
    assert s[IP_VHL] == s[ETH_TYPE..IP_TTL][IP_VHL - ETH_TYPE];
    assert IpSrc(f) == f[IP_SRC..][0..4] && IpSrc(s) == s[IP_SRC..][0..4];
    assert IpDst(f) == f[IP_SRC..][4..8] && IpDst(s) == s[IP_SRC..][4..8];
  }

  /** handle_ip on frame `s` received on interface `rxName`, with NAT
      external address `natExt` and mapping list `ms`. */
  function IpOutcome(env: Env, natExt: Option<Addr>, ms: seq<Mapping>, s: seq<Byte>, rxName: string, now: int): (r: NatResult)
    requires Consistent(env) && IpInput(s) && RouterReady(env, natExt, rxName)
    requires BranchReadable(env, natExt, s)
  {
    var rx := env.byName(rxName).value;
    match Classify(env, natExt, s)
    case Unreachable1 => Replied(env, ms, s, rx, 3, 1)
    case ToNat => NatOutcome(env, ms, natExt.value, s, rxName, ForwardNow, now)
    case Local(ifc) =>
      if IpProto(s) == IP_PROTOCOL_ICMP then Replied(env, ms, s, ifc, 0, 0)
      else Replied(env, ms, s, ifc, 3, 3)
    case Expired => Replied(env, ms, s, rx, 11, 0)
    case NextHopKnown(mac) =>
      var out := RouteName(env, IpDst(s));
      var f := Forwarded(s, mac, env.byName(out).value.mac, env.cksum);
      ForwardedShape(s, mac, env.byName(out).value.mac, env.cksum);
      if natExt.Some? && natExt.value != IpSrc(f) then NatOutcome(env, ms, natExt.value, f, rxName, ForwardNow, now)
      else NatResult(Send(f, out), f, ms)
    case NextHopUnknown =>
      if natExt.Some? then NatOutcome(env, ms, natExt.value, s, rxName, QueueForArp, now)
      else NatResult(Queue(IpDst(s), s, RouteName(env, IpDst(s))), s, ms)
    case NoRoute => Replied(env, ms, s, rx, 3, 0)
  }

  /** `act` sends or queues an ICMP message of type `t` and code `c` back to
      the source of `s`, from address `src`, with a time-to-live of 100 and
      a right ICMP checksum. */
  predicate Answers(act: Action, s: seq<Byte>, src: Addr, t: Byte, c: Byte, ck: seq<Byte> -> Word)
  {
    && (act.Send? || act.Queue?) && |act.frame| >= ICMP_DATA && |s| >= L4_OFF
    && IpDst(act.frame) == IpSrc(s) && IpSrc(act.frame) == src
    && IpTtl(act.frame) == 100 && IpProto(act.frame) == IP_PROTOCOL_ICMP
    && IcmpType(act.frame) == t && IcmpCode(act.frame) == c && IcmpSumOk(act.frame, ck)
  }

  /** handle_icmp answers a frame the way Answers describes. */
  lemma RepliedAnswers(env: Env, s: seq<Byte>, ifc: Iface, t: Byte, c: Byte)
    requires Consistent(env) && IcmpInput(s, t) && (t == 0 || IsError(t))
    ensures Answers(IcmpOutcome(env, s, ifc, t, c), s, ifc.ip, t, c, env.cksum)
  {
    IcmpReplyAddressing(env, s, ifc, t, c);
    IcmpReplyMessage(env, s, ifc, t, c);
  }

  /** The frames handle_ip answers itself: every ICMP host-unreachable
      (3/1) is answered with a host-unreachable from the receiving
      interface; a frame for an interface of the router with an echo reply
      from that interface when it is ICMP and with a port-unreachable (3/3)
      otherwise; a frame in transit whose time-to-live is at most 1 with a
      time-exceeded (11/0), so that it is not forwarded; a frame with no
      route with a net-unreachable (3/0). The mapping list is not touched. */
  lemma IpReplies(env: Env, natExt: Option<Addr>, ms: seq<Mapping>, s: seq<Byte>, rxName: string, now: int)
    requires Consistent(env) && IpInput(s) && RouterReady(env, natExt, rxName)
    requires var v := Classify(env, natExt, s); v.Unreachable1? || v.Local? || v.Expired? || v.NoRoute?
    requires BranchReadable(env, natExt, s)
    ensures var v := Classify(env, natExt, s);
      var r := IpOutcome(env, natExt, ms, s, rxName, now);
      var rx := env.byName(rxName).value;
      var ck := env.cksum;
      && r.mappings == ms
      && (v.Unreachable1? ==> Answers(r.act, s, rx.ip, 3, 1, ck))
      && (v.Local? && IpProto(s) == IP_PROTOCOL_ICMP ==> Answers(r.act, s, v.ifc.ip, 0, 0, ck))
      && (v.Local? && IpProto(s) != IP_PROTOCOL_ICMP ==> Answers(r.act, s, v.ifc.ip, 3, 3, ck))
      && (v.Expired? ==> Answers(r.act, s, rx.ip, 11, 0, ck))
      && (v.NoRoute? ==> Answers(r.act, s, rx.ip, 3, 0, ck))
  {
    var v := Classify(env, natExt, s);
    var rx := env.byName(rxName).value;
    var ifc, t, code := rx, 3, 0;
    if v.Unreachable1? {
      code := 1;
    } else if v.Local? {
      ifc := v.ifc;
      t, code := if IpProto(s) == IP_PROTOCOL_ICMP then 0 else 3, if IpProto(s) == IP_PROTOCOL_ICMP then 0 else 3;
    } else if v.Expired? {
      t := 11;
    }
    assert IpOutcome(env, natExt, ms, s, rxName, now) == Replied(env, ms, s, ifc, t, code);
    RepliedAnswers(env, s, ifc, t, code);
  }

  /** A frame handle_ip answers with an error although it is shorter than
      the 70-byte error message (as short as a bare IP header) is answered
      from a grown copy: the reply is 70 bytes, quotes the frame's bytes from
      the IP header on, and holds zeros where the frame had none. The
      caller's frame is left as it came. */
  lemma ShortFrameAnswered(env: Env, natExt: Option<Addr>, ms: seq<Mapping>, s: seq<Byte>, rxName: string, now: int)
    requires Consistent(env) && IpInput(s) && RouterReady(env, natExt, rxName)
    requires var v := Classify(env, natExt, s);
      v.Unreachable1? || (v.Local? && IpProto(s) != IP_PROTOCOL_ICMP) || v.Expired? || v.NoRoute?
    requires |s| < ICMP_ERROR_FRAME_LEN
    ensures BranchReadable(env, natExt, s)
    ensures var r := IpOutcome(env, natExt, ms, s, rxName, now);
      && (r.act.Send? || r.act.Queue?) && |r.act.frame| == ICMP_ERROR_FRAME_LEN
      && r.frame == s && r.mappings == ms
      && forall k :: 0 <= k < ICMP_DATA_SIZE ==>
           IcmpData(r.act.frame)[k] == (if IP_OFF + k < |s| then s[IP_OFF + k] else 0)
  {
    var v := Classify(env, natExt, s);
    var rx := env.byName(rxName).value;
    var ifc, t, code := rx, 3, 0;
    if v.Unreachable1? {
      code := 1;
    } else if v.Local? {
      ifc, code := v.ifc, 3;
    } else if v.Expired? {
      t := 11;
    }
    assert IpOutcome(env, natExt, ms, s, rxName, now) == Replied(env, ms, s, ifc, t, code);
    ErrorReplyLength(env, s, ifc, t, code);
    ErrorReplyQuotes(env, s, ifc, t, code);
  }

  /** A frame in transit whose next hop is in the ARP cache is forwarded as
      section 5.3.1 of RFC 1812 asks: addressed to the cached hardware
      address from the outgoing interface, its time-to-live exactly one
      less (it is at least 2 here), its header checksum recomputed, the rest
      of the frame as it was. Without NAT, or when its source is the NAT's
      external address, it is sent on the route's interface; otherwise the
      forwarded frame goes to handle_nat as an outbound packet. */
  lemma IpForwards(env: Env, natExt: Option<Addr>, ms: seq<Mapping>, s: seq<Byte>, rxName: string, now: int)
    requires Consistent(env) && IpInput(s) && RouterReady(env, natExt, rxName)
    requires Classify(env, natExt, s).NextHopKnown? && BranchReadable(env, natExt, s)
    ensures var mac := Classify(env, natExt, s).mac;
      var out := RouteName(env, IpDst(s));
      var f := Forwarded(s, mac, env.byName(out).value.mac, env.cksum);
      var r := IpOutcome(env, natExt, ms, s, rxName, now);
      && IpInput(f)
      && EthDst(f) == mac && EthSrc(f) == env.byName(out).value.mac
      && IpTtl(f) == IpTtl(s) - 1 && IpSumOver(f, IP_HDR_LEN, env.cksum)
      && IpSrc(f) == IpSrc(s) && IpDst(f) == IpDst(s) && IpProto(f) == IpProto(s)
      && f[L4_OFF..] == s[L4_OFF..]
      && (natExt.None? || natExt.value == IpSrc(s) ==> r == NatResult(Send(f, out), f, ms))
      && (natExt.Some? && natExt.value != IpSrc(s) ==>
            IsOutbound(f, natExt.value) == IsOutbound(s, natExt.value)
            && r == NatOutcome(env, ms, natExt.value, f, rxName, ForwardNow, now))
  {
    var mac := Classify(env, natExt, s).mac;
    var out := RouteName(env, IpDst(s));
    var f := Forwarded(s, mac, env.byName(out).value.mac, env.cksum);
    ForwardedFields(s, mac, env.byName(out).value.mac, env.cksum);
    ForwardedShape(s, mac, env.byName(out).value.mac, env.cksum);
    SuffixRange(f, s, IP_SRC, L4_OFF, |s|);
  }

  /** Without NAT, a frame in transit with a route but no ARP entry is
      queued unchanged for its destination on the route's interface; when
      the ARP reply then brings hardware address `sha`, the queued frame is
      sent as FlushQueued rewrites it, which is the frame handle_ip would
      have sent at once had `sha` already been in the cache. */
  lemma QueueThenFlush(env: Env, ms: seq<Mapping>, s: seq<Byte>, rxName: string, now: int, sha: Mac)
    requires Consistent(env) && IpInput(s) && RouterReady(env, None, rxName)
    requires Classify(env, None, s).NextHopUnknown?
    ensures var out := RouteName(env, IpDst(s));
      var r := IpOutcome(env, None, ms, s, rxName, now);
      var cached := env.(arp := (ip: Addr) => if ip == IpDst(s) then Some(sha) else env.arp(ip));
      && r == NatResult(Queue(IpDst(s), s, out), s, ms) && out != ""
      && env.byName(out).Some? && Consistent(cached)
      && IpOutcome(cached, None, ms, s, rxName, now)
         == NatResult(Send(Forwarded(s, sha, env.byName(out).value.mac, env.cksum), out),
                      Forwarded(s, sha, env.byName(out).value.mac, env.cksum), ms)
  {
    var cached := env.(arp := (ip: Addr) => if ip == IpDst(s) then Some(sha) else env.arp(ip));
    assert Consistent(cached);
    assert Classify(cached, None, s) == NextHopKnown(sha);
  }

  /** The NAT path skips the time-to-live check: a TCP segment for the
      external address whose mapping's host is in the ARP cache is forwarded
      even with a time-to-live of 0 or 1, which wraps to 255 or falls to 0. */
  lemma NatInboundSkipsTtlCheck(env: Env, ext: Addr, ms: seq<Mapping>, s: seq<Byte>, rxName: string, now: int)
    requires Consistent(env) && IpFrameReadable(s) && RouterReady(env, Some(ext), rxName)
    requires IpProto(s) == IP_PROTOCOL_TCP && IpDst(s) == ext && IpTtl(s) <= 1
    requires LastMatch(ms, External(Ntohs(TcpDstPort(s)))).Some?
    requires env.arp(LastMatch(ms, External(Ntohs(TcpDstPort(s)))).value.ipInt).Some?
    ensures var r := IpOutcome(env, Some(ext), ms, s, rxName, now);
      && r.act.Send? && |r.frame| == |s| && r.mappings == ms
      && IpTtl(r.frame) == (if IpTtl(s) == 0 then 255 else 0)
  {
    TcpInboundForward(env, ms, s, env.byName(rxName).value);
  }

  /** The NAT's external address, None when the router runs without one. */
  function NatExt(table: NatTable?): (r: Option<Addr>)
    reads table
  {
    if table == null then None else Some(table.ipExt)
  }

  /** The NAT's mapping list, empty when the router runs without one. */
  function NatMappings(table: NatTable?): (r: seq<Mapping>)
    reads table
  {
    if table == null then [] else table.mappings
  }

  /** handle_ip: the frame in `frame`, received on interface `rxName`, is
      answered, translated, forwarded or queued in place; `table` is the
      NAT, null when there is none. */
  method HandleIp(env: Env, frame: array<Byte>, table: NatTable?, rxName: string, now: int) returns (act: Action)
    requires Consistent(env) && IpInput(frame[..]) && RouterReady(env, NatExt(table), rxName)
    requires BranchReadable(env, NatExt(table), frame[..])
    modifies frame, (if table == null then {} else {table})`mappings
    ensures var r := IpOutcome(env, old(NatExt(table)), old(NatMappings(table)), old(frame[..]), rxName, now);
      && act == r.act && frame[..] == r.frame
      && (table != null ==> table.mappings == r.mappings)
  {
    ghost var v := Classify(env, NatExt(table), frame[..]);
    if frame[IP_PROTO] == IP_PROTOCOL_ICMP && frame[ICMP_TYPE] == 3 && frame[ICMP_CODE] == 1 {
      assert v == Unreachable1;
      act := HandleIcmp(env, frame, env.byName(rxName).value, 3, 1);
      return;
    }
    var dst: Addr := frame[IP_DST..IP_DST + 4];
    if table != null && dst == table.ipExt {
      assert v == ToNat;
      act := HandleNat(env, frame, table, rxName, ForwardNow, now);
    } else {
      act := Deliver(env, frame, table, rxName, now);
    }
  }

  /** handle_ip for a frame the NAT does not take: answered when addressed
      to one of the router's interfaces, answered time-exceeded when its
      time-to-live runs out, routed onward otherwise. */
  method Deliver(env: Env, frame: array<Byte>, table: NatTable?, rxName: string, now: int) returns (act: Action)
    requires Consistent(env) && IpInput(frame[..]) && RouterReady(env, NatExt(table), rxName)
    requires BranchReadable(env, NatExt(table), frame[..])
    requires var v := Classify(env, NatExt(table), frame[..]); !v.Unreachable1? && !v.ToNat?
    modifies frame, (if table == null then {} else {table})`mappings
    ensures var r := IpOutcome(env, old(NatExt(table)), old(NatMappings(table)), old(frame[..]), rxName, now);
      && act == r.act && frame[..] == r.frame
      && (table != null ==> table.mappings == r.mappings)
  {
    ghost var v := Classify(env, NatExt(table), frame[..]);
    var dst: Addr := frame[IP_DST..IP_DST + 4];
    var iface := env.byIp(dst);
    if iface.Some? {
      assert v == Local(iface.value);
      if frame[IP_PROTO] == IP_PROTOCOL_ICMP {
        act := HandleIcmp(env, frame, iface.value, 0, 0);
      } else {
        act := HandleIcmp(env, frame, iface.value, 3, 3);
      }
    } else if frame[IP_TTL] <= 1 {
      assert v == Expired;
      act := HandleIcmp(env, frame, env.byName(rxName).value, 11, 0);
    } else {
      act := RouteOnward(env, frame, table, rxName, now);
    }
  }

  /** handle_ip past the time-to-live test: forward on an ARP cache hit,
      queue when there is a route, answer net-unreachable when there is none. */
  method RouteOnward(env: Env, frame: array<Byte>, table: NatTable?, rxName: string, now: int) returns (act: Action)
    requires Consistent(env) && IpInput(frame[..]) && RouterReady(env, NatExt(table), rxName)
    requires BranchReadable(env, NatExt(table), frame[..])
    requires var v := Classify(env, NatExt(table), frame[..]); v.NextHopKnown? || v.NextHopUnknown? || v.NoRoute?
    modifies frame, (if table == null then {} else {table})`mappings
    ensures var r := IpOutcome(env, old(NatExt(table)), old(NatMappings(table)), old(frame[..]), rxName, now);
      && act == r.act && frame[..] == r.frame
      && (table != null ==> table.mappings == r.mappings)
  {
    ghost var s := frame[..];
    ghost var ms := NatMappings(table);
    ghost var ext := NatExt(table);
    ghost var v := Classify(env, ext, s);
    var dst: Addr := frame[IP_DST..IP_DST + 4];
    if env.arp(dst).Some? {
      assert v.NextHopKnown?;
      act := ForwardKnown(env, frame, table, rxName, now);
    } else if RouteName(env, dst) != "" {
      assert v.NextHopUnknown?;
      act := QueueUnknown(env, frame, table, rxName, now);
    } else {
      assert v == NoRoute;
      var rx := env.byName(rxName).value;
      assert IpOutcome(env, ext, ms, s, rxName, now) == Replied(env, ms, s, rx, 3, 0);
      act := HandleIcmp(env, frame, rx, 3, 0);
    }
  }

  /** The branch of handle_ip for a route without an ARP entry: the frame
      is queued for an ARP request, through handle_nat when the NAT is on. */
  method QueueUnknown(env: Env, frame: array<Byte>, table: NatTable?, rxName: string, now: int) returns (act: Action)
    requires Consistent(env) && IpInput(frame[..]) && RouterReady(env, NatExt(table), rxName)
    requires BranchReadable(env, NatExt(table), frame[..])
    requires Classify(env, NatExt(table), frame[..]).NextHopUnknown?
    modifies frame, (if table == null then {} else {table})`mappings
    ensures var r := IpOutcome(env, old(NatExt(table)), old(NatMappings(table)), old(frame[..]), rxName, now);
      && act == r.act && frame[..] == r.frame
      && (table != null ==> table.mappings == r.mappings)
  {
    ghost var s := frame[..];
    ghost var ms := NatMappings(table);
    ghost var ext := NatExt(table);
    var dst: Addr := frame[IP_DST..IP_DST + 4];
    if table != null {
      assert IpOutcome(env, ext, ms, s, rxName, now) == NatOutcome(env, ms, table.ipExt, s, rxName, QueueForArp, now);
      act := HandleNat(env, frame, table, rxName, QueueForArp, now);
    } else {
      assert IpOutcome(env, ext, ms, s, rxName, now) == NatResult(Queue(dst, s, RouteName(env, dst)), s, ms);
      act := Queue(dst, frame[..], RouteName(env, dst));
    }
  }

  /** The ARP-cache-hit branch of handle_ip: the frame is rewritten for the
      next hop, then sent, or handed to handle_nat when the NAT is on and
      the source is not its external address. */
  method ForwardKnown(env: Env, frame: array<Byte>, table: NatTable?, rxName: string, now: int) returns (act: Action)
    requires Consistent(env) && IpInput(frame[..]) && RouterReady(env, NatExt(table), rxName)
    requires BranchReadable(env, NatExt(table), frame[..])
    requires Classify(env, NatExt(table), frame[..]).NextHopKnown?
    modifies frame, (if table == null then {} else {table})`mappings
    ensures var r := IpOutcome(env, old(NatExt(table)), old(NatMappings(table)), old(frame[..]), rxName, now);
      && act == r.act && frame[..] == r.frame
      && (table != null ==> table.mappings == r.mappings)
  {
    ghost var s := frame[..];
    ghost var ms := NatMappings(table);
    ghost var ext := NatExt(table);
    var dst: Addr := frame[IP_DST..IP_DST + 4];
    var mac := env.arp(dst).value;
    var out := RouteName(env, dst);
    var outIface := env.byName(out).value;
    ghost var f := Forwarded(s, mac, outIface.mac, env.cksum);
    ForwardedShape(s, mac, outIface.mac, env.cksum);
    Forward(frame, mac, outIface.mac, env.cksum);
    if table != null && table.ipExt != frame[IP_SRC..IP_SRC + 4] {
      assert IpOutcome(env, ext, ms, s, rxName, now) == NatOutcome(env, ms, table.ipExt, f, rxName, ForwardNow, now);
      act := HandleNat(env, frame, table, rxName, ForwardNow, now);
    } else {
      assert IpOutcome(env, ext, ms, s, rxName, now) == NatResult(Send(f, out), f, ms);
      act := Send(frame[..], out);
    }
  }

  /** A frame waiting in the ARP cache's request queue for its next hop's
      hardware address, with the name of the interface it is to leave by. */
  datatype Pending = Pending(buf: array<Byte>, iface: string)

  /** The rewrite sr_handlepacket makes of one waiting frame, in its order
      of stores: addresses, time-to-live decremented, checksum zeroed, then
      recomputed over the 20-byte header. The bytes are those handle_ip
      forwards on an ARP cache hit. */
  method Relink(b: array<Byte>, dst: Mac, src: Mac, ck: seq<Byte> -> Word)
    requires b.Length >= L4_OFF
    modifies b
    ensures b[..] == Forwarded(old(b[..]), dst, src, ck)
  {
    ghost var s := b[..];
    CopyInto(b, ETH_DHOST, dst);
    CopyInto(b, ETH_SHOST, src);
    CopyInto(b, IP_TTL, [DecTtl(b[IP_TTL])]);
    CopyInto(b, IP_SUM, ZERO_WORD);
    var sum := ck(b[IP_OFF..L4_OFF]);
    CopyInto(b, IP_SUM, sum);
    HopOrderIrrelevant(s, dst, src, ck);
  }

  /** The loop over the frames an ARP reply releases: each, in queue order,
      is addressed to the hardware address `sha` the reply brings from its
      interface's address, has its time-to-live decremented and its header
      checksum recomputed, and is sent on its interface. */
  method FlushQueued(env: Env, pending: seq<Pending>, sha: Mac) returns (acts: seq<Action>)
    requires forall i :: 0 <= i < |pending| ==>
      pending[i].buf.Length >= L4_OFF && env.byName(pending[i].iface).Some?
    requires forall i, j :: 0 <= i < j < |pending| ==> pending[i].buf != pending[j].buf
    modifies set i | 0 <= i < |pending| :: pending[i].buf
    ensures |acts| == |pending|
    ensures forall i :: 0 <= i < |pending| ==>
      && pending[i].buf[..] == Forwarded(old(pending[i].buf[..]), sha, env.byName(pending[i].iface).value.mac, env.cksum)
      && acts[i] == Send(pending[i].buf[..], pending[i].iface)
  {
    acts := [];
    var k := 0;
    while k < |pending|
      invariant 0 <= k <= |pending| && |acts| == k
      invariant forall i :: 0 <= i < k ==>
        && pending[i].buf[..] == Forwarded(old(pending[i].buf[..]), sha, env.byName(pending[i].iface).value.mac, env.cksum)
        && acts[i] == Send(pending[i].buf[..], pending[i].iface)
      invariant forall i :: k <= i < |pending| ==> pending[i].buf[..] == old(pending[i].buf[..])
    {
      var p := pending[k];
      var outIface := env.byName(p.iface).value;
      Relink(p.buf, sha, outIface.mac, env.cksum);
      acts := acts + [Send(p.buf[..], p.iface)];
      k := k + 1;
    }
  }

  /** The frames an ARP reply releases can be rewritten and sent: each holds
      an IP header, names an existing interface, and has a buffer of its own. */
  predicate Releasable(env: Env, pending: seq<Pending>)
  {
    && (forall i :: 0 <= i < |pending| ==>
          pending[i].buf.Length >= L4_OFF && env.byName(pending[i].iface).Some?)
    && (forall i, j :: 0 <= i < j < |pending| ==> pending[i].buf != pending[j].buf)
  }

  /** An ARP frame with operation `op`. */
  predicate IsArp(s: seq<Byte>, op: U16)
  {
    |s| >= ARP_FRAME_LEN && Ntohs(EthType(s)) == ETHERTYPE_ARP && ArpOp(s) == Htons(op)
  }

  /** sr_handlepacket: an ARP request is answered from the receiving
      interface; an ARP reply releases `pending`, the frames
      sr_arpcache_insert hands back as waiting for the reply's sender; an
      IPv4 frame goes to handle_ip; nothing is done with anything else.
      `acts` lists what happens, in order. */
  method HandlePacket(env: Env, frame: array<Byte>, table: NatTable?, rxName: string, now: int, pending: seq<Pending>)
    returns (acts: seq<Action>)
    requires Consistent(env) && frame.Length >= ETHER_HDR_LEN
    requires IsArp(frame[..], ARP_OP_REQUEST) ==> ArpHln(frame[..]) <= 6 && env.byName(rxName).Some?
    requires IsArp(frame[..], ARP_OP_REPLY) ==> Releasable(env, pending)
    requires Ntohs(EthType(frame[..])) == ETHERTYPE_IP ==>
      IpInput(frame[..]) && RouterReady(env, NatExt(table), rxName) && BranchReadable(env, NatExt(table), frame[..])
    requires forall i :: 0 <= i < |pending| ==> pending[i].buf != frame
    modifies frame, (if table == null then {} else {table})`mappings, set i | 0 <= i < |pending| :: pending[i].buf
    ensures var s := old(frame[..]);
      IsArp(s, ARP_OP_REQUEST) ==>
        acts == [Send(ArpReplyFrame(s, env.byName(rxName).value), rxName)]
    ensures var s := old(frame[..]);
      IsArp(s, ARP_OP_REPLY) ==>
        && |acts| == |pending|
        && forall i :: 0 <= i < |pending| ==>
             && pending[i].buf[..] == Forwarded(old(pending[i].buf[..]), ArpSha(s), env.byName(pending[i].iface).value.mac, env.cksum)
             && acts[i] == Send(pending[i].buf[..], pending[i].iface)
    ensures var s := old(frame[..]);
      Ntohs(EthType(s)) == ETHERTYPE_IP ==>
        var r := IpOutcome(env, old(NatExt(table)), old(NatMappings(table)), s, rxName, now);
        && acts == [r.act] && frame[..] == r.frame
        && (table != null ==> table.mappings == r.mappings)
    ensures Ntohs(EthType(old(frame[..]))) != ETHERTYPE_IP ==>
      frame[..] == old(frame[..]) && (table != null ==> table.mappings == old(table.mappings))
    ensures Ntohs(EthType(old(frame[..]))) != ETHERTYPE_ARP && Ntohs(EthType(old(frame[..]))) != ETHERTYPE_IP ==>
      acts == []
    ensures var s := old(frame[..]);
      Ntohs(EthType(s)) == ETHERTYPE_ARP && !IsArp(s, ARP_OP_REQUEST) && !IsArp(s, ARP_OP_REPLY) ==>
        acts == []
    ensures !IsArp(old(frame[..]), ARP_OP_REPLY) ==>
      forall i :: 0 <= i < |pending| ==> pending[i].buf[..] == old(pending[i].buf[..])
  {
    var ethType := Ntohs(frame[ETH_TYPE..ETH_TYPE + 2]);
    if ethType == ETHERTYPE_ARP {
      if frame.Length >= ARP_FRAME_LEN && frame[ARP_OP..ARP_OP + 2] == Htons(ARP_OP_REQUEST) {
        var act := SendArpReply(env, frame, rxName);
        acts := [act];
      } else if frame.Length >= ARP_FRAME_LEN && frame[ARP_OP..ARP_OP + 2] == Htons(ARP_OP_REPLY) {
        var sha: Mac := frame[ARP_SHA..ARP_SHA + 6];
        acts := FlushQueued(env, pending, sha);
      } else {
        acts := [];
      }
    } else if ethType == ETHERTYPE_IP {
      var act := HandleIp(env, frame, table, rxName, now);
      acts := [act];
    } else {
      acts := [];
    }
  }
}

/** handle_icmp: the ICMP message (RFC 792) the router sends back to the
    source of a frame: an Echo Reply (type 0), or a Destination Unreachable
    (type 3) or Time Exceeded (type 11) error quoting the start of the
    offending datagram. The message is built in the frame's own buffer, or
    in a grown copy when an error does not fit. */
module IcmpReplies {
  import opened Wire
  import opened Frames
  import opened Platform
  import opened Forwarding

  /** Types handle_icmp builds an error message for. */
  predicate IsError(icmpType: Byte)
  {
    icmpType == 3 || icmpType == 11
  }

  /** Whether handle_icmp moves to a new 70-byte buffer. */
  predicate Grows(s: seq<Byte>, icmpType: Byte)
  {
    IsError(icmpType) && ICMP_ERROR_FRAME_LEN > |s|
  }

  /** The buffer handle_icmp works on: a copy grown to 70 bytes when an
      error does not fit in the frame, the frame itself otherwise. */
  function WorkBuffer(s: seq<Byte>, icmpType: Byte): (g: seq<Byte>)
    ensures |g| >= |s| && (IsError(icmpType) ==> |g| >= ICMP_ERROR_FRAME_LEN)
    ensures g[..|s|] == s
  {
    if Grows(s, icmpType) then Grown(s, ICMP_ERROR_FRAME_LEN) else s
  }

  /** The ICMP part of the reply, over the work buffer `g`: the protocol set
      to ICMP; for an echo reply the type and code set and the checksum
      recomputed; for an error also the IP total length set to the buffer
      length and the data area filled with the 28 bytes that started at the
      IP header before any store. */
  function IcmpMessage(g: seq<Byte>, icmpType: Byte, code: Byte, ck: seq<Byte> -> Word): (r: seq<Byte>)
    requires |g| >= ICMP_DATA && (IsError(icmpType) ==> |g| >= ICMP_ERROR_FRAME_LEN)
    ensures |r| == |g|
  {
    var payload := g[IP_OFF..IP_OFF + ICMP_DATA_SIZE];
    var g1 := Overwrite(g, IP_PROTO, [IP_PROTOCOL_ICMP]);
    if icmpType == 0 then
      var g2 := Overwrite(Overwrite(Overwrite(g1, ICMP_TYPE, [icmpType]), ICMP_CODE, [code]), ICMP_SUM, ZERO_WORD);
      Overwrite(g2, ICMP_SUM, ck(g2[L4_OFF..]))
    else if IsError(icmpType) then
      var g2 := Overwrite(g1, IP_LEN, Htons(|g| % 0x1_0000));
      var g3 := Overwrite(Overwrite(Overwrite(g2, ICMP_TYPE, [icmpType]), ICMP_CODE, [code]), ICMP_SUM, ZERO_WORD);
      var g4 := Overwrite(g3, ICMP_DATA, payload);
      Overwrite(g4, ICMP_SUM, ck(g4[L4_OFF..]))
    else
      g1
  }

  /** The reply sent back: time-to-live 100, to the original source
      `origin`, from the interface address. */
  function Readdressed(m: seq<Byte>, origin: Addr, ifc: Iface): (r: seq<Byte>)
    requires |m| >= L4_OFF
    ensures |r| == |m|
  {
    Overwrite(Overwrite(Overwrite(m, IP_TTL, [100]), IP_DST, origin), IP_SRC, ifc.ip)
  }

  /** The hit path's link-layer rewrite, then the header checksum over the
      4 * ip_hl header bytes the header declares. */
  function Resummed(r: seq<Byte>, dst: Mac, src: Mac, ck: seq<Byte> -> Word): (t: seq<Byte>)
    requires |r| >= L4_OFF && IP_OFF + 4 * IpIhl(r) <= |r|
    ensures |t| == |r|
  {
    var h := Overwrite(Relinked(r, dst, src), IP_SUM, ZERO_WORD);
    Overwrite(h, IP_SUM, ck(h[IP_OFF..IP_OFF + 4 * IpIhl(r)]))
  }

  /** What handle_icmp reads of the frame it is given lies inside it: the
      IP header, including the header length it declares, and, for a reply
      that is built in the frame itself rather than in a grown copy, the 28
      bytes from the IP header on that it copies before any store. An error
      frame shorter than that is grown first, so it needs only its IP header. */
  predicate IcmpInput(s: seq<Byte>, icmpType: Byte)
  {
    && |s| >= L4_OFF && IP_OFF + 4 * IpIhl(s) <= |s|
    && (IsError(icmpType) || |s| >= ICMP_DATA)
  }

  /** The ICMP checksum field holds the checksum of the whole ICMP message
      (everything after the 20-byte IP header) taken with that field zeroed. */
  predicate IcmpSumOk(s: seq<Byte>, ck: seq<Byte> -> Word)
    requires |s| >= ICMP_ID
  {
    IcmpSum(s) == ck(Overwrite(s, ICMP_SUM, ZERO_WORD)[L4_OFF..])
  }

  /** Storing the checksum of a message whose checksum field is zero makes
      the field right. */
  lemma StoredIcmpSumOk(s: seq<Byte>, ck: seq<Byte> -> Word)
    requires |s| >= ICMP_ID && IcmpSum(s) == ZERO_WORD
    ensures IcmpSumOk(Overwrite(s, ICMP_SUM, ck(s[L4_OFF..])), ck)
  {
    var r := Overwrite(s, ICMP_SUM, ck(s[L4_OFF..]));
    assert Overwrite(r, ICMP_SUM, ZERO_WORD) == s;
  }

  /** Whatever the type, the message is marked as ICMP and the Ethernet
      header, the IP header up to the total length and the addresses are
      left as they were. */
  lemma {:induction false} MessageKeepsHeaders(g: seq<Byte>, icmpType: Byte, code: Byte, ck: seq<Byte> -> Word)
    requires |g| >= ICMP_DATA && (IsError(icmpType) ==> |g| >= ICMP_ERROR_FRAME_LEN)
    ensures var m := IcmpMessage(g, icmpType, code, ck);
      && IpProto(m) == IP_PROTOCOL_ICMP
      && m[..IP_LEN] == g[..IP_LEN]
      && m[IP_TTL] == g[IP_TTL]
      && m[IP_SUM..L4_OFF] == g[IP_SUM..L4_OFF]
  {
  }

  /** An echo reply: type 0 with the given code, a right checksum, and the
      identifier, sequence number and data of the request echoed unchanged,
      as is the IP total length. */
  lemma EchoMessage(g: seq<Byte>, code: Byte, ck: seq<Byte> -> Word)
    requires |g| >= ICMP_DATA
    ensures var m := IcmpMessage(g, 0, code, ck);
      && IcmpType(m) == 0 && IcmpCode(m) == code && IcmpSumOk(m, ck)
      && IpTotalLen(m) == IpTotalLen(g)
      && m[ICMP_ID..] == g[ICMP_ID..]
  {
    var g1 := Overwrite(g, IP_PROTO, [IP_PROTOCOL_ICMP]);
    var g2 := Overwrite(Overwrite(Overwrite(g1, ICMP_TYPE, [0]), ICMP_CODE, [code]), ICMP_SUM, ZERO_WORD);
    assert IcmpSum(g2) == ZERO_WORD;
    StoredIcmpSumOk(g2, ck);
  }

  /** An error message: the given type and code, a right checksum, the IP
      total length set to the frame length (as a 16-bit number), and the
      data area holding the first 28 bytes that started at the IP header. */
  lemma ErrorMessage(g: seq<Byte>, icmpType: Byte, code: Byte, ck: seq<Byte> -> Word)
    requires IsError(icmpType) && |g| >= ICMP_ERROR_FRAME_LEN
    ensures var m := IcmpMessage(g, icmpType, code, ck);
      && IcmpType(m) == icmpType && IcmpCode(m) == code && IcmpSumOk(m, ck)
      && Ntohs(IpTotalLen(m)) == |g| % 0x1_0000
      && IcmpData(m) == g[IP_OFF..IP_OFF + ICMP_DATA_SIZE]
  {
    var payload := g[IP_OFF..IP_OFF + ICMP_DATA_SIZE];
    var g1 := Overwrite(g, IP_PROTO, [IP_PROTOCOL_ICMP]);
    var g2 := Overwrite(g1, IP_LEN, Htons(|g| % 0x1_0000));
    var g3 := Overwrite(Overwrite(Overwrite(g2, ICMP_TYPE, [icmpType]), ICMP_CODE, [code]), ICMP_SUM, ZERO_WORD);
    var g4 := Overwrite(g3, ICMP_DATA, payload);
    assert IcmpSum(g4) == ZERO_WORD;
    StoredIcmpSumOk(g4, ck);
    var m := Overwrite(g4, ICMP_SUM, ck(g4[L4_OFF..]));
    assert IpTotalLen(m) == Htons(|g| % 0x1_0000);
    OverwritePlaces(g3, ICMP_DATA, payload);
    OverwriteKeeps(g4, ICMP_SUM, ck(g4[L4_OFF..]), ICMP_DATA, ICMP_DATA + ICMP_DATA_SIZE);
  }

  /** Any other type: only the protocol byte is set, the rest of the frame
      is sent back as it came. */
  lemma OtherMessage(g: seq<Byte>, icmpType: Byte, code: Byte, ck: seq<Byte> -> Word)
    requires icmpType != 0 && !IsError(icmpType) && |g| >= ICMP_DATA
    ensures var m := IcmpMessage(g, icmpType, code, ck);
      && m[..IP_PROTO] == g[..IP_PROTO] && m[IP_PROTO + 1..] == g[IP_PROTO + 1..]
  {
  }

  /** Readdressing touches only the time-to-live and the two addresses. */
  lemma ReaddressedFields(m: seq<Byte>, origin: Addr, ifc: Iface)
    requires |m| >= L4_OFF
    ensures var r := Readdressed(m, origin, ifc);
      && IpTtl(r) == 100 && IpDst(r) == origin && IpSrc(r) == ifc.ip
      && r[..IP_TTL] == m[..IP_TTL] && IpTotalLen(r) == IpTotalLen(m)
      && r[IP_PROTO..IP_SRC] == m[IP_PROTO..IP_SRC]
      && r[L4_OFF..] == m[L4_OFF..]
  {
    var r1 := Overwrite(m, IP_TTL, [100]);
    var r2 := Overwrite(r1, IP_DST, origin);
    OverwritePlaces(r1, IP_DST, origin);
    OverwriteKeeps(r2, IP_SRC, ifc.ip, IP_DST, L4_OFF);
  }

  /** The hit path's rewrite: the Ethernet addresses replaced, the header
      checksum right over the declared header length, and nothing else
      touched. */
  lemma ResummedFields(r: seq<Byte>, dst: Mac, src: Mac, ck: seq<Byte> -> Word)
    requires |r| >= L4_OFF && IP_OFF + 4 * IpIhl(r) <= |r|
    ensures var t := Resummed(r, dst, src, ck);
      && EthDst(t) == dst && EthSrc(t) == src
      && t[ETH_TYPE..IP_SUM] == r[ETH_TYPE..IP_SUM] && IpTotalLen(t) == IpTotalLen(r)
      && t[IP_SRC..] == r[IP_SRC..]
      && IpSumOver(t, 4 * IpIhl(r), ck)
  {
    var r2 := Relinked(r, dst, src);
    var n := 4 * IpIhl(r);
    var h := Overwrite(r2, IP_SUM, ZERO_WORD);
    var w := ck(h[IP_OFF..IP_OFF + n]);
    var t := Overwrite(h, IP_SUM, w);
    RelinkedFields(r, dst, src);
    assert IpSum(h) == ZERO_WORD;
    StoredIpSumOk(h, n, ck);
    // The two checksum stores leave every other byte of r2 alone.
    OverwriteKeeps(r2, IP_SUM, ZERO_WORD, 0, IP_SUM);
    OverwriteKeeps(h, IP_SUM, w, 0, IP_SUM);
    OverwriteKeeps(r2, IP_SUM, ZERO_WORD, IP_SRC, |r|);
    OverwriteKeeps(h, IP_SUM, w, IP_SRC, |r|);
    InnerRange(t, r2, 0, IP_SUM, ETH_DHOST, ETH_SHOST);
    InnerRange(t, r2, 0, IP_SUM, ETH_SHOST, ETH_TYPE);
    InnerRange(t, r2, 0, IP_SUM, ETH_TYPE, IP_SUM);
    SuffixRange(r2, r, ETH_TYPE, ETH_TYPE, IP_SUM);
    SuffixRange(r2, r, ETH_TYPE, IP_SRC, |r|);
    InnerRange(t, r, ETH_TYPE, IP_SUM, IP_LEN, IP_LEN + 2);
  }

  /** The work buffer holds the frame's bytes and zeros after them. */
  lemma WorkBufferBytes(s: seq<Byte>, icmpType: Byte)
    ensures var g := WorkBuffer(s, icmpType);
      forall j :: 0 <= j < |g| ==> g[j] == if j < |s| then s[j] else 0
  {
    var g := WorkBuffer(s, icmpType);
    forall j | 0 <= j < |s|
      ensures g[j] == s[j]
    {
      assert g[..|s|][j] == s[j];
    }
  }

  /** The ICMP checksum depends only on the bytes after the IP header. */
  lemma IcmpSumOkOfMessage(a: seq<Byte>, b: seq<Byte>, ck: seq<Byte> -> Word)
    requires |a| >= ICMP_ID && |b| == |a| && a[L4_OFF..] == b[L4_OFF..]
    ensures IcmpSumOk(a, ck) <==> IcmpSumOk(b, ck)
  {
    forall k | L4_OFF <= k < |a|
      ensures a[k] == b[k]
    {
      assert a[k] == a[L4_OFF..][k - L4_OFF];
    }
    assert IcmpSum(a) == IcmpSum(b);
    assert Overwrite(a, ICMP_SUM, ZERO_WORD)[L4_OFF..] == Overwrite(b, ICMP_SUM, ZERO_WORD)[L4_OFF..];
  }

  /** The reply frame before the link layer is known: the ICMP message
      built in the work buffer, sent back to the original source from the
      interface address with time-to-live 100. */
  function ReplyFrame(s: seq<Byte>, ifc: Iface, icmpType: Byte, code: Byte, ck: seq<Byte> -> Word): (r: seq<Byte>)
    requires IcmpInput(s, icmpType)
    ensures |r| == |WorkBuffer(s, icmpType)| && |r| >= ICMP_DATA
    ensures r[IP_VHL] == s[IP_VHL] && IP_OFF + 4 * IpIhl(r) <= |r|
  {
    var g := WorkBuffer(s, icmpType);
    assert g[IP_VHL] == g[..|s|][IP_VHL];
    var m := IcmpMessage(g, icmpType, code, ck);
    MessageKeepsHeaders(g, icmpType, code, ck);
    ReaddressedFields(m, IpSrc(s), ifc);
    assert m[IP_VHL] == m[..IP_LEN][IP_VHL];
    var r := Readdressed(m, IpSrc(s), ifc);
    assert r[IP_VHL] == r[..IP_TTL][IP_VHL];
    r
  }

  /** The reply frame's addressing, and its ICMP part and IP total length
      as the message step left them. */
  lemma ReplyFrameFields(s: seq<Byte>, ifc: Iface, icmpType: Byte, code: Byte, ck: seq<Byte> -> Word)
    requires IcmpInput(s, icmpType)
    ensures var m := IcmpMessage(WorkBuffer(s, icmpType), icmpType, code, ck);
      var r := ReplyFrame(s, ifc, icmpType, code, ck);
      && IpDst(r) == IpSrc(s) && IpSrc(r) == ifc.ip
      && IpTtl(r) == 100 && IpProto(r) == IP_PROTOCOL_ICMP
      && r[..IP_LEN] == s[..IP_LEN]
      && IpTotalLen(r) == IpTotalLen(m)
      && r[L4_OFF..] == m[L4_OFF..]
  {
    var g := WorkBuffer(s, icmpType);
    assert g[..IP_LEN] == s[..IP_LEN] by { assert g[..|s|] == s; }
    var m := IcmpMessage(g, icmpType, code, ck);
    MessageKeepsHeaders(g, icmpType, code, ck);
    ReaddressedFields(m, IpSrc(s), ifc);
    var r := Readdressed(m, IpSrc(s), ifc);
    assert r[..IP_LEN] == r[..IP_TTL][..IP_LEN];
    assert m[..IP_LEN] == m[..IP_TTL][..IP_LEN];
  }

  /** What handle_icmp does with frame `s` on behalf of interface `ifc`:
      the reply leaves through the interface routing the original source,
      at once when that source is in the ARP cache, else queued for it. */
  function IcmpOutcome(env: Env, s: seq<Byte>, ifc: Iface, icmpType: Byte, code: Byte): (act: Action)
    requires Consistent(env) && IcmpInput(s, icmpType)
  {
    var r := ReplyFrame(s, ifc, icmpType, code, env.cksum);
    var out := RouteName(env, IpSrc(s));
    match env.arp(IpSrc(s))
    case Some(mac) => Send(Resummed(r, mac, env.byName(out).value.mac, env.cksum), out)
    case None => Queue(IpSrc(s), r, out)
  }

  /** Where every reply goes and how it is addressed: back to the original
      source, from the address of the interface the frame came in on, with
      time-to-live 100, through the interface that routes the source; sent
      at once exactly when the source is in the ARP cache (with Ethernet
      addresses of that neighbour and of the outgoing interface and a right
      header checksum), queued for the source otherwise. The reply is the
      frame's length, or 70 bytes when an error needs more room. */
  lemma IcmpReplyAddressing(env: Env, s: seq<Byte>, ifc: Iface, icmpType: Byte, code: Byte)
    requires Consistent(env) && IcmpInput(s, icmpType)
    ensures var act := IcmpOutcome(env, s, ifc, icmpType, code);
      && (act.Send? || act.Queue?)
      && act.iface == RouteName(env, IpSrc(s))
      && |act.frame| == (if Grows(s, icmpType) then ICMP_ERROR_FRAME_LEN else |s|)
      && IpDst(act.frame) == IpSrc(s) && IpSrc(act.frame) == ifc.ip
      && IpTtl(act.frame) == 100 && IpProto(act.frame) == IP_PROTOCOL_ICMP
      && EthType(act.frame) == EthType(s)
      && (act.Queue? <==> env.arp(IpSrc(s)).None?)
      && (act.Queue? ==> act.nextHop == IpSrc(s))
      && (act.Send? ==>
            && EthDst(act.frame) == env.arp(IpSrc(s)).value
            && EthSrc(act.frame) == env.byName(act.iface).value.mac
            && IpSumOver(act.frame, 4 * IpIhl(s), env.cksum))
  {
    var r := ReplyFrame(s, ifc, icmpType, code, env.cksum);
    ReplyFrameFields(s, ifc, icmpType, code, env.cksum);
    assert EthType(r) == r[..IP_LEN][ETH_TYPE..ETH_TYPE + 2];
    assert EthType(s) == s[..IP_LEN][ETH_TYPE..ETH_TYPE + 2];
    if env.arp(IpSrc(s)).Some? {
      ResummedHeader(r, env.arp(IpSrc(s)).value, env.byName(RouteName(env, IpSrc(s))).value.mac, env.cksum);
    }
  }

  /** The hit path's rewrite keeps the fields the reply was addressed with. */
  lemma ResummedHeader(r: seq<Byte>, dst: Mac, src: Mac, ck: seq<Byte> -> Word)
    requires |r| >= L4_OFF && IP_OFF + 4 * IpIhl(r) <= |r|
    ensures var t := Resummed(r, dst, src, ck);
      && EthDst(t) == dst && EthSrc(t) == src && IpSumOver(t, 4 * IpIhl(r), ck)
      && IpDst(t) == IpDst(r) && IpSrc(t) == IpSrc(r) && EthType(t) == EthType(r)
      && IpTtl(t) == IpTtl(r) && IpProto(t) == IpProto(r)
  {
    var t := Resummed(r, dst, src, ck);
    ResummedFields(r, dst, src, ck);
    assert IpDst(t) == t[IP_SRC..][4..8] && IpDst(r) == r[IP_SRC..][4..8];
    assert IpSrc(t) == t[IP_SRC..][0..4] && IpSrc(r) == r[IP_SRC..][0..4];
    assert EthType(t) == t[ETH_TYPE..IP_SUM][0..2] && EthType(r) == r[ETH_TYPE..IP_SUM][0..2];
    assert IpTtl(t) == t[ETH_TYPE..IP_SUM][IP_TTL - ETH_TYPE];
    assert IpProto(t) == t[ETH_TYPE..IP_SUM][IP_PROTO - ETH_TYPE];
  }

  /** The frame handed on carries the ICMP part and IP total length of the
      reply frame: the hit path touches neither. */
  lemma OutcomeCarriesMessage(env: Env, s: seq<Byte>, ifc: Iface, icmpType: Byte, code: Byte)
    requires Consistent(env) && IcmpInput(s, icmpType)
    ensures var act := IcmpOutcome(env, s, ifc, icmpType, code);
      var m := IcmpMessage(WorkBuffer(s, icmpType), icmpType, code, env.cksum);
      && (act.Send? || act.Queue?)
      && |act.frame| == |m|
      && act.frame[L4_OFF..] == m[L4_OFF..]
      && (forall j :: L4_OFF <= j < |m| ==> act.frame[j] == m[j])
      && IpTotalLen(act.frame) == IpTotalLen(m)
  {
    var r := ReplyFrame(s, ifc, icmpType, code, env.cksum);
    ReplyFrameFields(s, ifc, icmpType, code, env.cksum);
    var m := IcmpMessage(WorkBuffer(s, icmpType), icmpType, code, env.cksum);
    var f := IcmpOutcome(env, s, ifc, icmpType, code).frame;
    if env.arp(IpSrc(s)).Some? {
      ResummedFields(r, env.arp(IpSrc(s)).value, env.byName(RouteName(env, IpSrc(s))).value.mac, env.cksum);
      SuffixRange(f, r, IP_SRC, L4_OFF, |r|);
    }
    assert f[L4_OFF..] == m[L4_OFF..];
    forall j | L4_OFF <= j < |m|
      ensures f[j] == m[j]
    {
      assert f[j] == f[L4_OFF..][j - L4_OFF] && m[j] == m[L4_OFF..][j - L4_OFF];
    }
  }

  /** Echo, Destination Unreachable and Time Exceeded replies carry the
      requested type and code and a right ICMP checksum. */
  lemma IcmpReplyMessage(env: Env, s: seq<Byte>, ifc: Iface, icmpType: Byte, code: Byte)
    requires Consistent(env) && IcmpInput(s, icmpType)
    requires icmpType == 0 || IsError(icmpType)
    ensures var act := IcmpOutcome(env, s, ifc, icmpType, code);
      && (act.Send? || act.Queue?)
      && IcmpType(act.frame) == icmpType && IcmpCode(act.frame) == code
      && IcmpSumOk(act.frame, env.cksum)
  {
    var g := WorkBuffer(s, icmpType);
    var m := IcmpMessage(g, icmpType, code, env.cksum);
    var act := IcmpOutcome(env, s, ifc, icmpType, code);
    OutcomeCarriesMessage(env, s, ifc, icmpType, code);
    if icmpType == 0 {
      EchoMessage(g, code, env.cksum);
    } else {
      ErrorMessage(g, icmpType, code, env.cksum);
    }
    IcmpSumOkOfMessage(m, act.frame, env.cksum);
  }

  /** An echo reply gives back the identifier, sequence number and data of
      the request, and its IP total length, unchanged. */
  lemma EchoReplyEchoes(env: Env, s: seq<Byte>, ifc: Iface, code: Byte)
    requires Consistent(env) && IcmpInput(s, 0)
    ensures var act := IcmpOutcome(env, s, ifc, 0, code);
      && (act.Send? || act.Queue?)
      && |act.frame| == |s|
      && act.frame[ICMP_ID..] == s[ICMP_ID..]
      && IpTotalLen(act.frame) == IpTotalLen(s)
  {
    var m := IcmpMessage(s, 0, code, env.cksum);
    var act := IcmpOutcome(env, s, ifc, 0, code);
    OutcomeCarriesMessage(env, s, ifc, 0, code);
    EchoMessage(s, code, env.cksum);
    assert act.frame[ICMP_ID..] == act.frame[L4_OFF..][ICMP_ID - L4_OFF..];
    assert m[ICMP_ID..] == m[L4_OFF..][ICMP_ID - L4_OFF..];
  }

  /** An error reply is at least 70 bytes long, and its IP total length
      is its length as a 16-bit number. */
  lemma ErrorReplyLength(env: Env, s: seq<Byte>, ifc: Iface, icmpType: Byte, code: Byte)
    requires Consistent(env) && IcmpInput(s, icmpType) && IsError(icmpType)
    ensures var act := IcmpOutcome(env, s, ifc, icmpType, code);
      && (act.Send? || act.Queue?)
      && |act.frame| == (if |s| < ICMP_ERROR_FRAME_LEN then ICMP_ERROR_FRAME_LEN else |s|)
      && Ntohs(IpTotalLen(act.frame)) == |act.frame| % 0x1_0000
  {
    OutcomeCarriesMessage(env, s, ifc, icmpType, code);
    ErrorMessage(WorkBuffer(s, icmpType), icmpType, code, env.cksum);
  }

  /** The 28 bytes from the IP header on of an error's work buffer: the
      frame's, then zeros past its end. */
  lemma WorkBufferQuote(s: seq<Byte>, icmpType: Byte)
    requires IsError(icmpType)
    ensures var q := WorkBuffer(s, icmpType)[IP_OFF..IP_OFF + ICMP_DATA_SIZE];
      forall k :: 0 <= k < ICMP_DATA_SIZE ==> q[k] == if IP_OFF + k < |s| then s[IP_OFF + k] else 0
  {
    WorkBufferBytes(s, icmpType);
  }

  /** An error quotes the offending datagram: its data area holds the 28
      bytes that started at the IP header (the header and the first 8 bytes
      after it), zero past the end of a short frame. */
  lemma ErrorReplyQuotes(env: Env, s: seq<Byte>, ifc: Iface, icmpType: Byte, code: Byte)
    requires Consistent(env) && IcmpInput(s, icmpType) && IsError(icmpType)
    ensures var act := IcmpOutcome(env, s, ifc, icmpType, code);
      && (act.Send? || act.Queue?) && |act.frame| >= ICMP_ERROR_FRAME_LEN
      && forall k :: 0 <= k < ICMP_DATA_SIZE ==>
           IcmpData(act.frame)[k] == (if IP_OFF + k < |s| then s[IP_OFF + k] else 0)
  {
    var g := WorkBuffer(s, icmpType);
    var m := IcmpMessage(g, icmpType, code, env.cksum);
    var f := IcmpOutcome(env, s, ifc, icmpType, code).frame;
    OutcomeCarriesMessage(env, s, ifc, icmpType, code);
    ErrorMessage(g, icmpType, code, env.cksum);
    WorkBufferQuote(s, icmpType);
    assert IcmpData(f) == IcmpData(m);
  }

  /** The ICMP stores of handle_icmp, made in `b`. */
  method BuildMessage(b: array<Byte>, icmpType: Byte, code: Byte, ck: seq<Byte> -> Word)
    requires b.Length >= ICMP_DATA && (IsError(icmpType) ==> b.Length >= ICMP_ERROR_FRAME_LEN)
    modifies b
    ensures b[..] == IcmpMessage(old(b[..]), icmpType, code, ck)
  {
    var payload := b[IP_OFF..IP_OFF + ICMP_DATA_SIZE];
    CopyInto(b, IP_PROTO, [IP_PROTOCOL_ICMP]);
    if icmpType == 0 {
      CopyInto(b, ICMP_TYPE, [icmpType]);
      CopyInto(b, ICMP_CODE, [code]);
      CopyInto(b, ICMP_SUM, ZERO_WORD);
      var sum := ck(b[L4_OFF..]);
      CopyInto(b, ICMP_SUM, sum);
    } else if IsError(icmpType) {
      CopyInto(b, IP_LEN, Htons(b.Length % 0x1_0000));
      CopyInto(b, ICMP_TYPE, [icmpType]);
      CopyInto(b, ICMP_CODE, [code]);
      CopyInto(b, ICMP_SUM, ZERO_WORD);
      CopyInto(b, ICMP_DATA, payload);
      var sum := ck(b[L4_OFF..]);
      CopyInto(b, ICMP_SUM, sum);
    }
  }

  /** The addressing stores of handle_icmp, made in `b`. */
  method Readdress(b: array<Byte>, origin: Addr, ifc: Iface)
    requires b.Length >= L4_OFF
    modifies b
    ensures b[..] == Readdressed(old(b[..]), origin, ifc)
  {
    CopyInto(b, IP_TTL, [100]);
    CopyInto(b, IP_DST, origin);
    CopyInto(b, IP_SRC, ifc.ip);
  }

  /** The hit path's stores, made in `b`. */
  method Resum(b: array<Byte>, dst: Mac, src: Mac, ck: seq<Byte> -> Word)
    requires b.Length >= L4_OFF && IP_OFF + 4 * IpIhl(b[..]) <= b.Length
    modifies b
    ensures b[..] == Resummed(old(b[..]), dst, src, ck)
  {
    ghost var r := b[..];
    CopyInto(b, ETH_DHOST, dst);
    CopyInto(b, ETH_SHOST, src);
    CopyInto(b, IP_SUM, ZERO_WORD);
    assert b[IP_VHL] == r[IP_VHL];
    var sum := ck(b[IP_OFF..IP_OFF + 4 * (b[IP_VHL] % 16)]);
    CopyInto(b, IP_SUM, sum);
  }

  /** handle_icmp, store by store. An error that does not fit is built in a
      new 70-byte buffer and the caller's frame is left alone; otherwise the
      reply is built in the caller's frame. */
  method HandleIcmp(env: Env, frame: array<Byte>, ifc: Iface, icmpType: Byte, code: Byte) returns (act: Action)
    requires Consistent(env) && IcmpInput(frame[..], icmpType)
    modifies frame
    ensures act == IcmpOutcome(env, old(frame[..]), ifc, icmpType, code)
    ensures Grows(old(frame[..]), icmpType) ==> frame[..] == old(frame[..])
    ensures !Grows(old(frame[..]), icmpType) ==> frame[..] == act.frame
  {
    ghost var s := frame[..];
    var b := frame;
    if IsError(icmpType) && ICMP_ERROR_FRAME_LEN > frame.Length {
      b := Clone(frame, ICMP_ERROR_FRAME_LEN);
    }
    assert b[..] == WorkBuffer(s, icmpType);
    assert b[..][..|s|] == s;
    var origin: Addr := b[IP_SRC..IP_SRC + 4];
    assert origin == IpSrc(s) by { assert b[..][..L4_OFF] == s[..L4_OFF]; }
    var entry := env.arp(origin);
    BuildMessage(b, icmpType, code, env.cksum);
    var out := RouteName(env, origin);
    Readdress(b, origin, ifc);
    assert b[..] == ReplyFrame(s, ifc, icmpType, code, env.cksum);
    match entry {
      case Some(mac) =>
        var outIface := env.byName(out).value;
        Resum(b, mac, outIface.mac, env.cksum);
        act := Send(b[..], out);
      case None =>
        act := Queue(origin, b[..], out);
    }
  }
}

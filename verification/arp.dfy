/** ARP messages the router emits (RFC 826): the reply to a request for one
    of its addresses, built over a copy of the request, and the broadcast
    request for a next hop whose hardware address is unknown. */
module ArpMessages {
  import opened Wire
  import opened Frames
  import opened Platform

  /** The frame send_arpreply sends for the request `s` received on `ifc`,
      store by store in the order the code makes them. The hardware
      addresses are copied `ar_hln` bytes at a time, as the request declares. */
  function ArpReplyFrame(s: seq<Byte>, ifc: Iface): (r: seq<Byte>)
    requires |s| >= ARP_FRAME_LEN && ArpHln(s) <= 6
    ensures |r| == |s|
  {
    var hln := ArpHln(s);
    var s1 := Overwrite(s, ETH_DHOST, s[ETH_SHOST..ETH_SHOST + 6]);
    var s2 := Overwrite(s1, ETH_SHOST, ifc.mac);
    var s3 := Overwrite(s2, ARP_OP, Htons(ARP_OP_REPLY));
    var s4 := Overwrite(s3, ARP_THA, s3[ARP_SHA..ARP_SHA + hln]);
    var s5 := Overwrite(s4, ARP_TIP, s4[ARP_SIP..ARP_SIP + 4]);
    var s6 := Overwrite(s5, ARP_SHA, ifc.mac[..hln]);
    Overwrite(s6, ARP_SIP, ifc.ip)
  }

  /** The reply goes back to the requester's hardware address from the
      interface's; the Ethernet type and the ARP hardware and protocol fields
      are the request's. */
  lemma ArpReplyEthernet(s: seq<Byte>, ifc: Iface)
    requires |s| >= ARP_FRAME_LEN && ArpHln(s) <= 6
    ensures var r := ArpReplyFrame(s, ifc);
      && EthDst(r) == EthSrc(s) && EthSrc(r) == ifc.mac
      && r[ETH_TYPE..ARP_OP] == s[ETH_TYPE..ARP_OP]
  {
    var hln := ArpHln(s);
    var s1 := Overwrite(s, ETH_DHOST, s[ETH_SHOST..ETH_SHOST + 6]);
    var s2 := Overwrite(s1, ETH_SHOST, ifc.mac);
    var s3 := Overwrite(s2, ARP_OP, Htons(ARP_OP_REPLY));
    var s4 := Overwrite(s3, ARP_THA, s3[ARP_SHA..ARP_SHA + hln]);
    var s5 := Overwrite(s4, ARP_TIP, s4[ARP_SIP..ARP_SIP + 4]);
    var s6 := Overwrite(s5, ARP_SHA, ifc.mac[..hln]);
    var r := Overwrite(s6, ARP_SIP, ifc.ip);
    OverwriteKeeps(s6, ARP_SIP, ifc.ip, 0, ARP_OP);
    OverwriteKeeps(s5, ARP_SHA, ifc.mac[..hln], 0, ARP_OP);
    OverwriteKeeps(s4, ARP_TIP, s4[ARP_SIP..ARP_SIP + 4], 0, ARP_OP);
    OverwriteKeeps(s3, ARP_THA, s3[ARP_SHA..ARP_SHA + hln], 0, ARP_OP);
    OverwriteKeeps(s2, ARP_OP, Htons(ARP_OP_REPLY), 0, ARP_OP);
    assert r[..ARP_OP] == s2[..ARP_OP];
  }

  /** The reply's opcode is "reply". */
  lemma ArpReplyOp(s: seq<Byte>, ifc: Iface)
    requires |s| >= ARP_FRAME_LEN && ArpHln(s) <= 6
    ensures Ntohs(ArpOp(ArpReplyFrame(s, ifc))) == ARP_OP_REPLY
  {
    var hln := ArpHln(s) as nat;
    var s1 := Overwrite(s, ETH_DHOST, s[ETH_SHOST..ETH_SHOST + 6]);
    var s2 := Overwrite(s1, ETH_SHOST, ifc.mac);
    var s3 := Overwrite(s2, ARP_OP, Htons(ARP_OP_REPLY));
    var s4 := Overwrite(s3, ARP_THA, s3[ARP_SHA..ARP_SHA + hln]);
    var s5 := Overwrite(s4, ARP_TIP, s4[ARP_SIP..ARP_SIP + 4]);
    var s6 := Overwrite(s5, ARP_SHA, ifc.mac[..hln]);
    var r := Overwrite(s6, ARP_SIP, ifc.ip);
    OverwritePlaces(s2, ARP_OP, Htons(ARP_OP_REPLY));
    OverwriteKeeps(s3, ARP_THA, s3[ARP_SHA..ARP_SHA + hln], ARP_OP, ARP_SHA);
    OverwriteKeeps(s4, ARP_TIP, s4[ARP_SIP..ARP_SIP + 4], ARP_OP, ARP_SHA);
    OverwriteKeeps(s5, ARP_SHA, ifc.mac[..hln], ARP_OP, ARP_SHA);
    OverwriteKeeps(s6, ARP_SIP, ifc.ip, ARP_OP, ARP_SHA);
    assert ArpOp(r) == Htons(ARP_OP_REPLY)[0..2] == Htons(ARP_OP_REPLY);
  }

  /** The reply's target is the request's sender: the first `ar_hln` bytes
      of its hardware address, and its IP address. */
  lemma ArpReplyTarget(s: seq<Byte>, ifc: Iface)
    requires |s| >= ARP_FRAME_LEN && ArpHln(s) <= 6
    ensures var r := ArpReplyFrame(s, ifc); var hln := ArpHln(s) as nat;
      && r[ARP_THA..ARP_THA + hln] == s[ARP_SHA..ARP_SHA + hln]
      && ArpTip(r) == ArpSip(s)
  {
    var hln := ArpHln(s) as nat;
    var tha := s[ARP_SHA..ARP_SHA + hln];
    var s1 := Overwrite(s, ETH_DHOST, s[ETH_SHOST..ETH_SHOST + 6]);
    var s2 := Overwrite(s1, ETH_SHOST, ifc.mac);
    var s3 := Overwrite(s2, ARP_OP, Htons(ARP_OP_REPLY));
    var s4 := Overwrite(s3, ARP_THA, s3[ARP_SHA..ARP_SHA + hln]);
    var s5 := Overwrite(s4, ARP_TIP, s4[ARP_SIP..ARP_SIP + 4]);
    var s6 := Overwrite(s5, ARP_SHA, ifc.mac[..hln]);
    var r := Overwrite(s6, ARP_SIP, ifc.ip);
    // The request's sender fields survive the first three stores.
    OverwriteKeeps(s, ETH_DHOST, s[ETH_SHOST..ETH_SHOST + 6], ARP_SHA, ARP_THA);
    OverwriteKeeps(s1, ETH_SHOST, ifc.mac, ARP_SHA, ARP_THA);
    OverwriteKeeps(s2, ARP_OP, Htons(ARP_OP_REPLY), ARP_SHA, ARP_THA);
    assert s3[ARP_SHA..ARP_SHA + hln] == tha by {
      InnerRange(s3, s, ARP_SHA, ARP_THA, ARP_SHA, ARP_SHA + hln);
    }
    assert s4[ARP_SIP..ARP_SIP + 4] == ArpSip(s) by {
      InnerRange(s3, s, ARP_SHA, ARP_THA, ARP_SIP, ARP_THA);
      OverwriteKeeps(s3, ARP_THA, tha, ARP_SIP, ARP_THA);
    }
    // The copied target hardware address survives the last three stores.
    OverwritePlaces(s3, ARP_THA, tha);
    OverwriteKeeps(s4, ARP_TIP, ArpSip(s), ARP_THA, ARP_THA + hln);
    OverwriteKeeps(s5, ARP_SHA, ifc.mac[..hln], ARP_THA, ARP_THA + hln);
    OverwriteKeeps(s6, ARP_SIP, ifc.ip, ARP_THA, ARP_THA + hln);
    // So does the copied target protocol address.
    OverwritePlaces(s4, ARP_TIP, ArpSip(s));
    OverwriteKeeps(s5, ARP_SHA, ifc.mac[..hln], ARP_TIP, ARP_FRAME_LEN);
    OverwriteKeeps(s6, ARP_SIP, ifc.ip, ARP_TIP, ARP_FRAME_LEN);
  }

  /** The reply's sender is the interface (the first `ar_hln` bytes of its
      hardware address, and its IP address), and bytes past the ARP message
      are the request's. */
  lemma ArpReplySender(s: seq<Byte>, ifc: Iface)
    requires |s| >= ARP_FRAME_LEN && ArpHln(s) <= 6
    ensures var r := ArpReplyFrame(s, ifc); var hln := ArpHln(s);
      && r[ARP_SHA..ARP_SHA + hln] == ifc.mac[..hln]
      && ArpSip(r) == ifc.ip
      && r[ARP_FRAME_LEN..] == s[ARP_FRAME_LEN..]
  {
    var hln := ArpHln(s);
    var s1 := Overwrite(s, ETH_DHOST, s[ETH_SHOST..ETH_SHOST + 6]);
    var s2 := Overwrite(s1, ETH_SHOST, ifc.mac);
    var s3 := Overwrite(s2, ARP_OP, Htons(ARP_OP_REPLY));
    var s4 := Overwrite(s3, ARP_THA, s3[ARP_SHA..ARP_SHA + hln]);
    var s5 := Overwrite(s4, ARP_TIP, s4[ARP_SIP..ARP_SIP + 4]);
    var s6 := Overwrite(s5, ARP_SHA, ifc.mac[..hln]);
    var r := Overwrite(s6, ARP_SIP, ifc.ip);
    OverwritePlaces(s5, ARP_SHA, ifc.mac[..hln]);
    OverwriteKeeps(s6, ARP_SIP, ifc.ip, ARP_SHA, ARP_SHA + hln);
    OverwritePlaces(s6, ARP_SIP, ifc.ip);
    OverwriteKeeps(s, ETH_DHOST, s[ETH_SHOST..ETH_SHOST + 6], ARP_FRAME_LEN, |s|);
    OverwriteKeeps(s1, ETH_SHOST, ifc.mac, ARP_FRAME_LEN, |s|);
    OverwriteKeeps(s2, ARP_OP, Htons(ARP_OP_REPLY), ARP_FRAME_LEN, |s|);
    OverwriteKeeps(s3, ARP_THA, s3[ARP_SHA..ARP_SHA + hln], ARP_FRAME_LEN, |s|);
    OverwriteKeeps(s4, ARP_TIP, s4[ARP_SIP..ARP_SIP + 4], ARP_FRAME_LEN, |s|);
    OverwriteKeeps(s5, ARP_SHA, ifc.mac[..hln], ARP_FRAME_LEN, |s|);
    OverwriteKeeps(s6, ARP_SIP, ifc.ip, ARP_FRAME_LEN, |s|);
  }

  /** With Ethernet-sized hardware addresses, the whole target and sender
      fields are swapped in as RFC 826 prescribes. */
  lemma ArpReplyFull(s: seq<Byte>, ifc: Iface)
    requires |s| >= ARP_FRAME_LEN && ArpHln(s) == 6
    ensures var r := ArpReplyFrame(s, ifc);
      ArpTha(r) == ArpSha(s) && ArpSha(r) == ifc.mac && ArpTip(r) == ArpSip(s) && ArpSip(r) == ifc.ip
  {
    ArpReplyTarget(s, ifc);
    ArpReplySender(s, ifc);
  }

  /** The field stores send_arprequest makes, in its order, to broadcast
      from `ifc` a request for the hardware address of `ip`. */
  function ArpRequestPatches(ifc: Iface, ip: Addr): (r: seq<Patch>)
  {
    [ Patch(ETH_DHOST, BROADCAST), Patch(ETH_SHOST, ifc.mac), Patch(ETH_TYPE, Htons(ETHERTYPE_ARP)),
      Patch(ARP_HRD, Htons(ARP_HRD_ETHERNET)), Patch(ARP_PRO, Htons(ETHERTYPE_IP)),
      Patch(ARP_HLN, [6]), Patch(ARP_PLN, [4]), Patch(ARP_OP, Htons(ARP_OP_REQUEST)),
      Patch(ARP_SHA, ifc.mac), Patch(ARP_SIP, ifc.ip), Patch(ARP_THA, Zeros(6)),
      Patch(ARP_TIP, ip) ]
  }

  /** The 42-byte request frame: the stores over a zeroed buffer. */
  function ArpRequestFrame(ifc: Iface, ip: Addr): (r: seq<Byte>)
    ensures |r| == ARP_FRAME_LEN
  {
    assert Fits(ArpRequestPatches(ifc, ip), ARP_FRAME_LEN);
    Patched(Zeros(ARP_FRAME_LEN), ArpRequestPatches(ifc, ip))
  }

  /** The request's stores fit its 42 bytes and never overlap. */
  lemma ArpRequestPatchesDisjoint(ifc: Iface, ip: Addr)
    ensures Fits(ArpRequestPatches(ifc, ip), ARP_FRAME_LEN)
    ensures Disjoint(ArpRequestPatches(ifc, ip))
  {
    var ps := ArpRequestPatches(ifc, ip);
    assert |ps| == 12;
    forall i | 0 <= i < |ps| - 1
      ensures ps[i].off + |ps[i].bytes| <= ps[i + 1].off
    {
      assert |ps[i].bytes| == [6, 6, 2, 2, 2, 1, 1, 2, 6, 4, 6, 4][i];
    }
    AscendingDisjoint(ps);
  }

  /** A broadcast ARP request for Ethernet and IPv4 from the interface. */
  lemma ArpRequestHeader(ifc: Iface, ip: Addr)
    ensures var r := ArpRequestFrame(ifc, ip);
      && EthDst(r) == BROADCAST && EthSrc(r) == ifc.mac && Ntohs(EthType(r)) == ETHERTYPE_ARP
      && Ntohs(ArpHrd(r)) == ARP_HRD_ETHERNET && Ntohs(ArpPro(r)) == ETHERTYPE_IP
      && ArpHln(r) == 6 && ArpPln(r) == 4 && Ntohs(ArpOp(r)) == ARP_OP_REQUEST
  {
    var ps := ArpRequestPatches(ifc, ip);
    var z := Zeros(ARP_FRAME_LEN);
    ArpRequestPatchesDisjoint(ifc, ip);
    PatchedField(z, ps, 0);
    PatchedField(z, ps, 1);
    PatchedField(z, ps, 2);
    PatchedField(z, ps, 3);
    PatchedField(z, ps, 4);
    PatchedField(z, ps, 5);
    PatchedField(z, ps, 6);
    PatchedField(z, ps, 7);
    var r := ArpRequestFrame(ifc, ip);
    assert r[ARP_HLN] == r[ARP_HLN..ARP_HLN + 1][0] && r[ARP_PLN] == r[ARP_PLN..ARP_PLN + 1][0];
  }

  /** The sender is the interface; the target hardware address is unknown
      (zero) and the target IP address is the one asked for. */
  lemma ArpRequestAddresses(ifc: Iface, ip: Addr)
    ensures var r := ArpRequestFrame(ifc, ip);
      && ArpSha(r) == ifc.mac && ArpSip(r) == ifc.ip
      && ArpTha(r) == Zeros(6) && ArpTip(r) == ip
  {
    var ps := ArpRequestPatches(ifc, ip);
    var z := Zeros(ARP_FRAME_LEN);
    ArpRequestPatchesDisjoint(ifc, ip);
    PatchedField(z, ps, 8);
    PatchedField(z, ps, 9);
    PatchedField(z, ps, 10);
    PatchedField(z, ps, 11);
  }

  /** A request from `asker` for the address of `owner`, answered by `owner`,
      comes back addressed to the asker and tells it the owner's hardware
      address. */
  lemma ArpRequestAnswered(asker: Iface, owner: Iface)
    ensures var q := ArpRequestFrame(asker, owner.ip);
      ArpHln(q) == 6 &&
      var r := ArpReplyFrame(q, owner);
      && EthDst(r) == asker.mac && Ntohs(ArpOp(r)) == ARP_OP_REPLY
      && ArpSha(r) == owner.mac && ArpSip(r) == owner.ip
      && ArpTha(r) == asker.mac && ArpTip(r) == asker.ip
  {
    var q := ArpRequestFrame(asker, owner.ip);
    ArpRequestHeader(asker, owner.ip);
    ArpRequestAddresses(asker, owner.ip);
    ArpReplyEthernet(q, owner);
    ArpReplyOp(q, owner);
    ArpReplyFull(q, owner);
  }

  /** send_arpreply: answers the request in `frame`, received on interface
      `name`, with a reply built over a copy of it. `frame` is left alone. */
  method SendArpReply(env: Env, frame: array<Byte>, name: string) returns (act: Action)
    requires frame.Length >= ARP_FRAME_LEN && ArpHln(frame[..]) <= 6
    requires env.byName(name).Some?
    ensures act == Send(ArpReplyFrame(frame[..], env.byName(name).value), name)
  {
    var b := Clone(frame, frame.Length);
    assert b[..] == frame[..];
    var hln := b[ARP_HLN];
    CopyInto(b, ETH_DHOST, b[ETH_SHOST..ETH_SHOST + 6]);
    var ifc := env.byName(name).value;
    CopyInto(b, ETH_SHOST, ifc.mac);
    CopyInto(b, ARP_OP, Htons(ARP_OP_REPLY));
    CopyInto(b, ARP_THA, b[ARP_SHA..ARP_SHA + hln]);
    CopyInto(b, ARP_TIP, b[ARP_SIP..ARP_SIP + 4]);
    CopyInto(b, ARP_SHA, ifc.mac[..hln]);
    CopyInto(b, ARP_SIP, ifc.ip);
    act := Send(b[..], name);
  }

  /** Store number `k` of the stores `ps`, into a buffer that holds `base`
      after the ones before it; `p` names the store. */
  method Store(b: array<Byte>, ghost base: seq<Byte>, ghost ps: seq<Patch>, k: nat, p: Patch)
    requires |base| == b.Length && Fits(ps, |base|) && k < |ps| && ps[k] == p
    requires b[..] == Patched(base, ps[..k])
    modifies b
    ensures b[..] == Patched(base, ps[..k + 1])
  {
    assert ps[..k + 1] == ps[..k] + [p];
    assert Fits(ps[..k], |base|);
    PatchedSnoc(base, ps[..k], p);
    CopyInto(b, p.off, p.bytes);
  }

  /** send_arprequest's Ethernet header: broadcast from the interface, carrying ARP. */
  method FillEthernet(b: array<Byte>, ifc: Iface, ip: Addr)
    requires b.Length == ARP_FRAME_LEN
    requires b[..] == Patched(Zeros(ARP_FRAME_LEN), ArpRequestPatches(ifc, ip)[..0])
    modifies b
    ensures b[..] == Patched(Zeros(ARP_FRAME_LEN), ArpRequestPatches(ifc, ip)[..3])
  {
    ghost var ps := ArpRequestPatches(ifc, ip);
    ArpRequestPatchesDisjoint(ifc, ip);
    Store(b, Zeros(ARP_FRAME_LEN), ps, 0, Patch(ETH_DHOST, BROADCAST));
    Store(b, Zeros(ARP_FRAME_LEN), ps, 1, Patch(ETH_SHOST, ifc.mac));
    Store(b, Zeros(ARP_FRAME_LEN), ps, 2, Patch(ETH_TYPE, Htons(ETHERTYPE_ARP)));
  }

  /** send_arprequest's ARP header: Ethernet hardware, IPv4 protocol, a request. */
  method FillArpHeader(b: array<Byte>, ifc: Iface, ip: Addr)
    requires b.Length == ARP_FRAME_LEN
    requires b[..] == Patched(Zeros(ARP_FRAME_LEN), ArpRequestPatches(ifc, ip)[..3])
    modifies b
    ensures b[..] == Patched(Zeros(ARP_FRAME_LEN), ArpRequestPatches(ifc, ip)[..8])
  {
    ghost var ps := ArpRequestPatches(ifc, ip);
    ArpRequestPatchesDisjoint(ifc, ip);
    Store(b, Zeros(ARP_FRAME_LEN), ps, 3, Patch(ARP_HRD, Htons(ARP_HRD_ETHERNET)));
    Store(b, Zeros(ARP_FRAME_LEN), ps, 4, Patch(ARP_PRO, Htons(ETHERTYPE_IP)));
    Store(b, Zeros(ARP_FRAME_LEN), ps, 5, Patch(ARP_HLN, [6]));
    Store(b, Zeros(ARP_FRAME_LEN), ps, 6, Patch(ARP_PLN, [4]));
    Store(b, Zeros(ARP_FRAME_LEN), ps, 7, Patch(ARP_OP, Htons(ARP_OP_REQUEST)));
  }

  /** send_arprequest's addresses: the interface as sender, `ip` as target. */
  method FillArpAddresses(b: array<Byte>, ifc: Iface, ip: Addr)
    requires b.Length == ARP_FRAME_LEN
    requires b[..] == Patched(Zeros(ARP_FRAME_LEN), ArpRequestPatches(ifc, ip)[..8])
    modifies b
    ensures b[..] == Patched(Zeros(ARP_FRAME_LEN), ArpRequestPatches(ifc, ip)[..12])
  {
    ghost var ps := ArpRequestPatches(ifc, ip);
    ArpRequestPatchesDisjoint(ifc, ip);
    Store(b, Zeros(ARP_FRAME_LEN), ps, 8, Patch(ARP_SHA, ifc.mac));
    Store(b, Zeros(ARP_FRAME_LEN), ps, 9, Patch(ARP_SIP, ifc.ip));
    Store(b, Zeros(ARP_FRAME_LEN), ps, 10, Patch(ARP_THA, Zeros(6)));
    Store(b, Zeros(ARP_FRAME_LEN), ps, 11, Patch(ARP_TIP, ip));
  }

  /** send_arprequest: broadcasts a request for `ip` out of interface `name`,
      storing its fields one by one into a fresh 42-byte buffer. */
  method SendArpRequest(env: Env, ip: Addr, name: string) returns (act: Action)
    requires env.byName(name).Some?
    ensures act == Send(ArpRequestFrame(env.byName(name).value, ip), env.byName(name).value.name)
  {
    var ifc := env.byName(name).value;
    var b := new Byte[ARP_FRAME_LEN](_ => 0);
    assert b[..] == Patched(Zeros(ARP_FRAME_LEN), ArpRequestPatches(ifc, ip)[..0]);
    FillEthernet(b, ifc, ip);
    FillArpHeader(b, ifc, ip);
    FillArpAddresses(b, ifc, ip);
    assert ArpRequestPatches(ifc, ip)[..12] == ArpRequestPatches(ifc, ip);
    act := Send(b[..], ifc.name);
  }
}

/** The rewrite every forwarded IPv4 frame gets on its way out of the router:
    new Ethernet addresses for the next hop, the time-to-live counted down
    and the header checksum recomputed. */
module Forwarding {
  import opened Wire
  import opened Frames

  /** `ip_ttl--` on an unsigned byte: 0 wraps round to 255. */
  function DecTtl(t: Byte): (r: Byte)
  {
    if t == 0 then 255 else t - 1
  }

  /** The header checksum field holds the checksum of the first `n` bytes of
      the IP header taken with that field zeroed. */
  predicate IpSumOver(s: seq<Byte>, n: nat, ck: seq<Byte> -> Word)
    requires |s| >= L4_OFF && IP_OFF + n <= |s|
  {
    IpSum(s) == ck(Overwrite(s, IP_SUM, ZERO_WORD)[IP_OFF..IP_OFF + n])
  }

  /** Storing the checksum of a header whose checksum field is zero makes
      the field right. */
  lemma StoredIpSumOk(h: seq<Byte>, n: nat, ck: seq<Byte> -> Word)
    requires |h| >= L4_OFF && IP_OFF + n <= |h| && IpSum(h) == ZERO_WORD
    ensures IpSumOver(Overwrite(h, IP_SUM, ck(h[IP_OFF..IP_OFF + n])), n, ck)
  {
    var t := Overwrite(h, IP_SUM, ck(h[IP_OFF..IP_OFF + n]));
    assert Overwrite(t, IP_SUM, ZERO_WORD) == h;
  }

  /** Whether the 20-byte header's checksum is right depends only on the
      first 34 bytes of the frame. */
  lemma IpSumOverPrefix(a: seq<Byte>, b: seq<Byte>, ck: seq<Byte> -> Word)
    requires |a| >= L4_OFF && |b| >= L4_OFF && a[..L4_OFF] == b[..L4_OFF]
    ensures IpSumOver(a, IP_HDR_LEN, ck) <==> IpSumOver(b, IP_HDR_LEN, ck)
  {
    PrefixRange(a, b, L4_OFF, IP_SUM, IP_SUM + 2);
    assert Overwrite(a, IP_SUM, ZERO_WORD)[IP_OFF..L4_OFF] == Overwrite(b, IP_SUM, ZERO_WORD)[IP_OFF..L4_OFF] by {
      forall k | IP_OFF <= k < L4_OFF
        ensures a[k] == b[k]
      {
        assert a[k] == a[..L4_OFF][k];
      }
    }
  }

  /** The header checksum zeroed and then recomputed over the 20-byte
      header, as the NAT does after rewriting an address. */
  function WithIpSum(s: seq<Byte>, ck: seq<Byte> -> Word): (r: seq<Byte>)
    requires |s| >= L4_OFF
    ensures |r| == |s|
  {
    var h := Overwrite(s, IP_SUM, ZERO_WORD);
    Overwrite(h, IP_SUM, ck(h[IP_OFF..L4_OFF]))
  }

  /** Recomputing the header checksum makes it right and touches no other
      byte. */
  lemma WithIpSumFields(s: seq<Byte>, ck: seq<Byte> -> Word)
    requires |s| >= L4_OFF
    ensures var r := WithIpSum(s, ck);
      && IpSumOver(r, IP_HDR_LEN, ck)
      && r[..IP_SUM] == s[..IP_SUM] && r[IP_SRC..] == s[IP_SRC..]
  {
    var h := Overwrite(s, IP_SUM, ZERO_WORD);
    StoredIpSumOk(h, IP_HDR_LEN, ck);
  }

  /** The checksum stores, made in `b`. */
  method StoreIpSum(b: array<Byte>, ck: seq<Byte> -> Word)
    requires b.Length >= L4_OFF
    modifies b
    ensures b[..] == WithIpSum(old(b[..]), ck)
  {
    CopyInto(b, IP_SUM, ZERO_WORD);
    var sum := ck(b[IP_OFF..L4_OFF]);
    CopyInto(b, IP_SUM, sum);
  }

  /** The frame readdressed at the link layer: to `dst` from `src`. */
  function Relinked(s: seq<Byte>, dst: Mac, src: Mac): (r: seq<Byte>)
    requires |s| >= ETHER_HDR_LEN
    ensures |r| == |s|
  {
    Overwrite(Overwrite(s, ETH_DHOST, dst), ETH_SHOST, src)
  }

  /** Readdressing at the link layer sets the two Ethernet addresses and
      nothing else. */
  lemma RelinkedFields(s: seq<Byte>, dst: Mac, src: Mac)
    requires |s| >= ETHER_HDR_LEN
    ensures var r := Relinked(s, dst, src);
      && EthDst(r) == dst && EthSrc(r) == src && r[ETH_TYPE..] == s[ETH_TYPE..]
  {
    var s1 := Overwrite(s, ETH_DHOST, dst);
    OverwritePlaces(s, ETH_DHOST, dst);
    OverwriteKeeps(s1, ETH_SHOST, src, ETH_DHOST, ETH_SHOST);
    OverwritePlaces(s1, ETH_SHOST, src);
    OverwriteKeeps(s, ETH_DHOST, dst, ETH_TYPE, |s|);
    OverwriteKeeps(s1, ETH_SHOST, src, ETH_TYPE, |s|);
  }

  /** The frame `s` sent one hop on, to `dst` from `src`, in the order
      handle_ip makes the stores: addresses, checksum zeroed, time-to-live
      decremented, then the checksum `ck` of the 20-byte header stored. */
  function Forwarded(s: seq<Byte>, dst: Mac, src: Mac, ck: seq<Byte> -> Word): (r: seq<Byte>)
    requires |s| >= L4_OFF
    ensures |r| == |s|
  {
    var h := Overwrite(Overwrite(Relinked(s, dst, src), IP_SUM, ZERO_WORD), IP_TTL, [DecTtl(IpTtl(s))]);
    Overwrite(h, IP_SUM, ck(h[IP_OFF..L4_OFF]))
  }

  /** A forwarded frame is addressed to the next hop from the outgoing
      interface, its time-to-live is one less (modulo 256), its header
      checksum is right for the header it now has, and every other byte is
      the original one. */
  lemma ForwardedFields(s: seq<Byte>, dst: Mac, src: Mac, ck: seq<Byte> -> Word)
    requires |s| >= L4_OFF
    ensures var r := Forwarded(s, dst, src, ck);
      && EthDst(r) == dst && EthSrc(r) == src
      && IpTtl(r) == DecTtl(IpTtl(s))
      && IpSumOver(r, IP_HDR_LEN, ck)
      && r[ETH_TYPE..IP_TTL] == s[ETH_TYPE..IP_TTL]
      && r[IP_PROTO] == s[IP_PROTO]
      && r[IP_SRC..] == s[IP_SRC..]
  {
    var s1 := Overwrite(s, ETH_DHOST, dst);
    var s2 := Overwrite(s1, ETH_SHOST, src);
    var s3 := Overwrite(s2, IP_SUM, ZERO_WORD);
    var h := Overwrite(s3, IP_TTL, [DecTtl(IpTtl(s))]);
    var r := Overwrite(h, IP_SUM, ck(h[IP_OFF..L4_OFF]));
    assert Overwrite(r, IP_SUM, ZERO_WORD) == h;
    OverwriteKeeps(s, ETH_DHOST, dst, ETH_SHOST, |s|);
    OverwriteKeeps(s1, ETH_SHOST, src, ETH_TYPE, |s|);
    OverwriteKeeps(s2, IP_SUM, ZERO_WORD, ETH_TYPE, IP_SUM);
    OverwriteKeeps(s2, IP_SUM, ZERO_WORD, IP_SRC, |s|);
  }

  /** The ARP-reply handler makes the same stores with the time-to-live
      decremented before the checksum is zeroed; the bytes are the same. */
  lemma HopOrderIrrelevant(s: seq<Byte>, dst: Mac, src: Mac, ck: seq<Byte> -> Word)
    requires |s| >= L4_OFF
    ensures var h := Overwrite(Overwrite(Relinked(s, dst, src), IP_TTL, [DecTtl(IpTtl(s))]), IP_SUM, ZERO_WORD);
      Overwrite(h, IP_SUM, ck(h[IP_OFF..L4_OFF])) == Forwarded(s, dst, src, ck)
  {
    OverwriteCommutes(Relinked(s, dst, src), IP_TTL, [DecTtl(IpTtl(s))], IP_SUM, ZERO_WORD);
  }

  /** The rewrite of the frame in `b`, store by store. */
  method Forward(b: array<Byte>, dst: Mac, src: Mac, ck: seq<Byte> -> Word)
    requires b.Length >= L4_OFF
    modifies b
    ensures b[..] == Forwarded(old(b[..]), dst, src, ck)
  {
    CopyInto(b, ETH_DHOST, dst);
    CopyInto(b, ETH_SHOST, src);
    CopyInto(b, IP_SUM, ZERO_WORD);
    CopyInto(b, IP_TTL, [DecTtl(b[IP_TTL])]);
    var sum := ck(b[IP_OFF..L4_OFF]);
    CopyInto(b, IP_SUM, sum);
  }
}

/** The NAT mapping table: an ordered list of mapping records, appended at
    the tail and searched front to back. Lookups and inserts hand back a copy
    of a record, never the record itself. */
module Nat {
  import opened Wire

  datatype MappingType = IcmpMapping | TcpMapping

  /** The states a tracked TCP connection can be in. */
  datatype ConnState = Unestablished | SynSeen | SynAckSeen | Established | Fin1 | Fin1Ack | Fin2

  /** One TCP connection under a mapping: the remote end, its state and the
      buffered packet of an unsolicited SYN. */
  datatype Connection = Connection(
    ipDst: Addr,
    auxDst: U16,
    state: ConnState,
    packet: seq<Byte>,
    lastUpdated: int)

  /** One binding of an internal (address, port or ICMP id) to an external one. */
  datatype Mapping = Mapping(
    kind: MappingType,
    ipInt: Addr,
    ipExt: Addr,
    auxInt: U16,
    auxExt: U16,
    lastUpdated: int,
    conns: seq<Connection>)

  /** What a lookup searches by: the external port or ICMP id, or the
      internal (address, port or id) pair. */
  datatype Key = External(auxExt: U16) | Internal(ipInt: Addr, auxInt: U16)

  predicate Matches(m: Mapping, k: Key)
  {
    match k
    case External(aux) => m.auxExt == aux
    case Internal(ip, aux) => m.auxInt == aux && m.ipInt == ip
  }

  /** The record a lookup loop ends up copying: it walks the whole list and
      overwrites its copy at every match, so it is the last matching one. */
  function LastMatch(ms: seq<Mapping>, k: Key): (r: Option<Mapping>)
  {
    if ms == [] then None
    else if Matches(ms[|ms| - 1], k) then Some(ms[|ms| - 1])
    else LastMatch(ms[..|ms| - 1], k)
  }

  /** A lookup finds nothing exactly when no record matches. */
  lemma {:induction false} LastMatchNone(ms: seq<Mapping>, k: Key)
    ensures LastMatch(ms, k).None? <==> forall i :: 0 <= i < |ms| ==> !Matches(ms[i], k)
  {
    if ms != [] && !Matches(ms[|ms| - 1], k) {
      var front := ms[..|ms| - 1];
      LastMatchNone(front, k);
      assert forall i :: 0 <= i < |front| ==> front[i] == ms[i];
    }
  }

  /** What a lookup finds is a matching record of the list after which no
      record matches. */
  lemma {:induction false} LastMatchSome(ms: seq<Mapping>, k: Key)
    requires LastMatch(ms, k).Some?
    ensures exists i :: 0 <= i < |ms| && ms[i] == LastMatch(ms, k).value && Matches(ms[i], k)
                        && forall j :: i < j < |ms| ==> !Matches(ms[j], k)
  {
    if !Matches(ms[|ms| - 1], k) {
      var front := ms[..|ms| - 1];
      LastMatchSome(front, k);
      var i :| 0 <= i < |front| && front[i] == LastMatch(front, k).value && Matches(front[i], k)
               && forall j :: i < j < |front| ==> !Matches(front[j], k);
      assert ms[i] == front[i];
      assert forall j :: i < j < |front| ==> ms[j] == front[j];
    }
  }

  /** No two records share an external port or id. */
  ghost predicate ExternalUnique(ms: seq<Mapping>)
  {
    forall i, j :: 0 <= i < j < |ms| ==> ms[i].auxExt != ms[j].auxExt
  }

  /** The translation state: the mapping list, the external address the NAT
      is bound to, the next port to hand out and the three timeouts. */
  class NatTable {
    var mappings: seq<Mapping>
    var ipExt: Addr
    var nextPort: U16
    var icmpTimeout: U16
    var tcpEstTimeout: U16
    var tcpTransTimeout: U16

    /** The table as the router allocates it, with its configuration. */
    constructor (ipExt: Addr, nextPort: U16, icmpTimeout: U16, tcpEstTimeout: U16, tcpTransTimeout: U16)
      ensures this.ipExt == ipExt && this.nextPort == nextPort && this.icmpTimeout == icmpTimeout
      ensures this.tcpEstTimeout == tcpEstTimeout && this.tcpTransTimeout == tcpTransTimeout
      ensures mappings == []
    {
      this.ipExt := ipExt;
      this.nextPort := nextPort;
      this.icmpTimeout := icmpTimeout;
      this.tcpEstTimeout := tcpEstTimeout;
      this.tcpTransTimeout := tcpTransTimeout;
      this.mappings := [];
    }

    /** sr_nat_init: empties the mapping list and touches nothing else. */
    method Init()
      modifies this`mappings
      ensures mappings == []
    {
      mappings := [];
    }

    /** sr_nat_lookup_external: a copy of the last record whose external port
        or id is `auxExt`; `kind` is not consulted. Changes nothing. */
    method LookupExternal(auxExt: U16, kind: MappingType) returns (copy: Option<Mapping>)
      ensures copy == LastMatch(mappings, External(auxExt))
    {
      copy := Lookup(External(auxExt));
    }

    /** sr_nat_lookup_internal: a copy of the last record whose internal
        endpoint is (`ipInt`, `auxInt`); `kind` is not consulted. Changes nothing. */
    method LookupInternal(ipInt: Addr, auxInt: U16, kind: MappingType) returns (copy: Option<Mapping>)
      ensures copy == LastMatch(mappings, Internal(ipInt, auxInt))
    {
      copy := Lookup(Internal(ipInt, auxInt));
    }

    /** The walk both lookups make: front to back, copying every match. */
    method Lookup(k: Key) returns (copy: Option<Mapping>)
      ensures copy == LastMatch(mappings, k)
    {
      copy := None;
      var i := 0;
      while i < |mappings|
        invariant 0 <= i <= |mappings|
        invariant copy == LastMatch(mappings[..i], k)
      {
        assert mappings[..i + 1][..i] == mappings[..i];
        if Matches(mappings[i], k) {
          copy := Some(mappings[i]);
        }
        i := i + 1;
      }
      assert mappings[..i] == mappings;
    }

    /** sr_nat_insert_mapping: walks to the tail and links a new record there,
        stamped with the current time `now` and with an empty connection list;
        returns a copy of it. The external endpoint is whatever the caller
        passes. */
    method InsertMapping(ipInt: Addr, ipExt: Addr, auxInt: U16, auxExt: U16, kind: MappingType, now: int)
      returns (copy: Mapping)
      modifies this`mappings
      ensures copy == Mapping(kind, ipInt, ipExt, auxInt, auxExt, now, [])
      ensures mappings == old(mappings) + [copy]
    {
      var mapping := Mapping(kind, ipInt, ipExt, auxInt, auxExt, now, []);
      if |mappings| > 0 {
        // The walk along the list to its last record.
        var runner := 0;
        while runner + 1 < |mappings|
          invariant 0 <= runner < |mappings|
        {
          runner := runner + 1;
        }
        assert runner == |mappings| - 1;  // runner is the tail
        assert mappings[..runner + 1] == mappings;
        mappings := mappings[..runner + 1] + [mapping];
      } else {
        mappings := [mapping];
      }
      copy := mapping;
    }
  }

  /** A record just appended is what a lookup by its external port, or by
      its internal endpoint, finds. */
  lemma InsertThenLookup(ms: seq<Mapping>, m: Mapping)
    ensures LastMatch(ms + [m], External(m.auxExt)) == Some(m)
    ensures LastMatch(ms + [m], Internal(m.ipInt, m.auxInt)) == Some(m)
  {
  }

  /** Appending a record does not change what a lookup it does not match finds. */
  lemma InsertKeepsOtherLookups(ms: seq<Mapping>, m: Mapping, k: Key)
    ensures !Matches(m, k) ==> LastMatch(ms + [m], k) == LastMatch(ms, k)
  {
    assert (ms + [m])[..|ms|] == ms;
  }

  /** When external ports are unique, the lookup by a record's external port
      finds exactly that record. */
  lemma UniqueExternalLookup(ms: seq<Mapping>, i: nat)
    requires ExternalUnique(ms) && i < |ms|
    ensures LastMatch(ms, External(ms[i].auxExt)) == Some(ms[i])
  {
    var k := External(ms[i].auxExt);
    LastMatchNone(ms, k);
    LastMatchSome(ms, k);
  }

  /** Appending a record whose external port is free keeps the ports unique. */
  lemma InsertKeepsExternalUnique(ms: seq<Mapping>, m: Mapping)
    requires ExternalUnique(ms) && LastMatch(ms, External(m.auxExt)).None?
    ensures ExternalUnique(ms + [m])
  {
    LastMatchNone(ms, External(m.auxExt));
  }

  /** The lookups ignore the record type: a TCP lookup for port 5 returns an
      ICMP record whose id is 5 when it comes later in the list. */
  lemma LookupIgnoresType(tcp: Mapping, icmp: Mapping)
    requires tcp.kind == TcpMapping && icmp.kind == IcmpMapping
    requires tcp.auxExt == 5 && icmp.auxExt == 5
    ensures LastMatch([tcp, icmp], External(5)) == Some(icmp)
  {
  }
}

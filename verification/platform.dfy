/** What the forwarding code consults but does not implement: the interface
    table, the longest-prefix route table, the ARP cache, the ones-complement
    checksum routine and the NAT's external port allocator. Each is a function
    the caller supplies. What the code then does with a packet is an Action. */
module Platform {
  import opened Wire
  import Nat

  /** A router interface: its name, hardware address and IP address. */
  datatype Iface = Iface(name: string, mac: Mac, ip: Addr)

  /** An external endpoint chosen for a new mapping. */
  datatype Endpoint = Endpoint(ip: Addr, aux: U16)

  datatype Env = Env(
    byName: string -> Option<Iface>,   // sr_get_interface
    byIp: Addr -> Option<Iface>,       // sr_get_interface_byip
    route: Addr -> Option<string>,     // sr_longest_prefix_iface: the outgoing interface's name
    arp: Addr -> Option<Mac>,          // sr_arpcache_lookup, counting only a valid entry
    cksum: seq<Byte> -> Word,           // cksum: the two bytes the result occupies in the header
    allocate: (Nat.MappingType, Addr, U16) -> Endpoint)  // the external endpoint of a new mapping

  /** The collaborators agree with each other: a name looks up the interface
      of that name, every route leads out of a configured interface, and a
      neighbour in the ARP cache is reachable by some route. */
  ghost predicate Consistent(env: Env)
  {
    && (forall n :: env.byName(n).Some? ==> env.byName(n).value.name == n)
    && (forall ip :: env.route(ip).Some? ==> env.byName(env.route(ip).value).Some?)
    && (forall ip :: env.arp(ip).Some? ==> env.route(ip).Some?)
  }

  /** The name sr_longest_prefix_iface leaves in the caller's buffer: empty
      when no route matches. */
  function RouteName(env: Env, ip: Addr): (r: string)
  {
    match env.route(ip)
    case Some(n) => n
    case None => ""
  }

  /** What happens to a frame in the end. */
  datatype Action =
    | Send(frame: seq<Byte>, iface: string)                 // sr_send_packet
    | Queue(nextHop: Addr, frame: seq<Byte>, iface: string) // sr_arpcache_queuereq: waits for ARP
    | HoldUnsolicited                                      // sr_nat_insert_unsol_mapping
    | Drop                                                 // nothing is sent
}

/**
  * `src/router/mod.rs`: the router reads messages from the bus, keeps one routing table per
  * address family, and answers on the bus. The bus is modelled as the sequence of messages
  * sent so far; the node name from the configuration and the node's own announcement are
  * constants of the router.
  */
module Routing {
  import opened Base
  import opened Net
  import opened Packages
  import opened Peers
  import opened Tables

  /**
    * A node announcement: the announced subnet and mask, the node's name, how many hops the
    * announcement has travelled, and the address it was last relayed from.
    */
  datatype Node = Node(subNet: seq<u8>, netMask: u32, name: string, jump: u32, realIp: seq<u8>, port: i32)

  /** The message bus, with the shapes the router uses. */
  datatype Message =
    | InterfaceRead(package: Package)
    | InterfaceWrite(package: Package)
    | PackageShareRead(package: Package, ttl: u32)
    | PackageShareWrite(addr: SocketAddr, package: Package, ttl: u32)
    | AddNodeRead(addr: SocketAddr, node: Node)
    | AddNodeWrite(addr: SocketAddr, node: Node)
    | DelNodeRead(addr: SocketAddr, node: Node)
    | DelNodeWrite(addr: SocketAddr, node: Node)
    | PingPongRead(addr: SocketAddr, name: string)
    | PingPongWrite(addr: SocketAddr, name: string)
    | DoNoting

  /** `read_ip`: four bytes are an IPv4 address, sixteen an IPv6 address. */
  function ReadIp(v: seq<u8>): (ip: IpAddr)
    requires |v| == 4 || |v| == 16
    ensures ip.V4? <==> |v| == 4
    ensures ParseIp(ip) == v
  {
    if |v| == 4 then V4(v) else V6(v)
  }

  /** `parse_ip`: the octets of an address. */
  function ParseIp(ip: IpAddr): (v: seq<u8>)
    ensures |v| == 4 || |v| == 16
    ensures |v| == 4 <==> ip.V4?
  {
    ip.Octets()
  }

  /** Reading back the octets of an address gives the address. */
  lemma ParseIpRoundTrip(ip: IpAddr)
    ensures ReadIp(ParseIp(ip)) == ip
  {
  }

  /** `node.net_mask as u16`: the announced mask, truncated to 16 bits. */
  function Mask(node: Node): u16
  {
    node.netMask % 0x1_0000
  }

  /**
    * What an announcement from another node must satisfy for the router not to fail:
    * `read_ip` accepts only 4 or 16 bytes, and a mask longer than the subnet's address is
    * undefined behaviour in `Table::insert`.
    */
  predicate Announceable(node: Node)
  {
    && (|node.subNet| == 4 || |node.subNet| == 16)
    && (node.jump != 0 ==> |node.realIp| == 4 || |node.realIp| == 16)
    && Mask(node) <= 8 * |node.subNet|
  }

  /**
    * Where the announced node is reached: the sender itself for a first-hand announcement,
    * otherwise the relay address carried in the node (`node.port as u16` truncates).
    */
  function AnnouncedSource(from: SocketAddr, node: Node): SocketAddr
    requires node.jump != 0 ==> |node.realIp| == 4 || |node.realIp| == 16
  {
    if node.jump == 0 then from else SocketAddr(ReadIp(node.realIp), node.port % 0x1_0000)
  }

  /**
    * The announcement as relayed: one more hop, reached through `source`. The hop count is a
    * `u32` incremented with a plain `+`, which wraps as in a release build.
    */
  function Relayed(node: Node, source: SocketAddr): Node
  {
    node.(jump := (node.jump + 1) % 0x1_0000_0000, realIp := ParseIp(source.ip), port := source.port)
  }

  /** One `AddNodeWrite` of `node` to each address, in order. */
  function Broadcast(addrs: seq<SocketAddr>, node: Node): (ms: seq<Message>)
    ensures |ms| == |addrs|
  {
    seq(|addrs|, i requires 0 <= i < |addrs| => AddNodeWrite(addrs[i], node))
  }

  /** The message a packet is routed to, given the peer found for its destination. */
  function Route(best: Option<Peer>, package: Package, ttl: u32): Message
  {
    match best
    case None => DoNoting
    case Some(peer) =>
      match GetHost(peer)
      case Socket(addr) => PackageShareWrite(addr, package, ttl)
      case Localhost => InterfaceWrite(package)
      case Unreachable => DoNoting
  }

  /**
    * `ls` lists the socket of every best host of the IPv4 table, then of the IPv6 table,
    * each table in some iteration order.
    */
  ghost predicate ListsNodes(m4: map<Key, Peer>, m6: map<Key, Peer>, ls: seq<SocketAddr>)
  {
    exists peers4 :: ListsPeers(m4, peers4) && exists peers6 :: ListsPeers(m6, peers6) && ls == SocketsOf(peers4) + SocketsOf(peers6)
  }

  class Router {
    /** `Config::get().name`. */
    const localName: string
    /** `SELF_SHARE`: the announcement this node answers a new neighbour with. */
    const selfShare: Node
    const v4: Table
    const v6: Table
    /** Every message sent on `tx`, oldest first. */
    var outbox: seq<Message>

    ghost predicate Valid()
      reads this, v4, v6
    {
      v4 != v6 && v4.Valid() && v6.Valid()
    }

    /** `Router::new`: two empty tables and nothing sent. */
    constructor (localName: string, selfShare: Node)
      ensures Valid() && fresh(v4) && fresh(v6)
      ensures this.localName == localName && this.selfShare == selfShare
      ensures v4.entries == map[] && v6.entries == map[] && outbox == []
    {
      this.localName := localName;
      this.selfShare := selfShare;
      v4 := new Table();
      v6 := new Table();
      outbox := [];
    }

    /** The table of the address's family. */
    function TableFor(ip: IpAddr): Table
    {
      if ip.V4? then v4 else v6
    }

    /** `Router::insert_to_table`: inserts into the table of the destination's family only. */
    method InsertToTable(dest: IpAddr, mask: u16, name: string, host: Host) returns (res: Outcome)
      requires Valid()
      requires mask <= dest.BitWidth()
      modifies TableFor(dest)
      ensures Valid()
      ensures (res, TableFor(dest).entries) == InsertResult(old(TableFor(dest).entries), AddressBits(dest)[..mask], name, host)
    {
      match dest {
        case V4(_) => res := v4.Insert(dest, mask, name, host);
        case V6(_) => res := v6.Insert(dest, mask, name, host);
      }
    }

    /** `Router::find_in_table`: longest-prefix lookup of the destination, in its family's table. */
    function FindInTable(package: Package): (r: Option<Peer>)
      reads v4, v6
      requires HasDestination(package)
      ensures var dest := DestinationAddress(package);
        r.None? <==> forall k :: k in TableFor(dest).entries ==> !IsPrefix(k, AddressBits(dest))
      ensures var dest := DestinationAddress(package);
        r.Some? ==> exists k :: IsLongestMatch(TableFor(dest).entries, AddressBits(dest), k) && TableFor(dest).entries[k] == r.value
    {
      match DestinationAddress(package)
      case V4(_) => v4.Find(DestinationAddress(package))
      case V6(_) => v6.Find(DestinationAddress(package))
    }

    /** `Router::get_all_node`: the socket of every best host, IPv4 table first. */
    method GetAllNode() returns (nodes: seq<SocketAddr>)
      ensures ListsNodes(v4.entries, v6.entries, nodes)
    {
      var peers4 := v4.GetAllPeer();
      var peers6 := v6.GetAllPeer();
      // `chain`, then keep the address of every best host that is a socket
      nodes := SocketsOf(peers4 + peers6);
      SocketsOfAppend(peers4, peers6);
    }

    /** `Router::get_by_name`: a peer with that name, looked for in the IPv4 table first. */
    method GetByName(name: string) returns (r: Option<Peer>)
      ensures r.Some? ==> r.value.name == name && (r.value in v4.entries.Values || r.value in v6.entries.Values)
      ensures (exists k :: k in v4.entries && v4.entries[k].name == name) ==> r.Some? && r.value in v4.entries.Values
      ensures r.None? <==>
        && (forall k :: k in v4.entries ==> v4.entries[k].name != name)
        && (forall k :: k in v6.entries ==> v6.entries[k].name != name)
    {
      r := v4.GetByPeerName(name);
      if r.Some? {
        return;
      }
      r := v6.GetByPeerName(name);
    }

    /**
      * The messages `router_message` handles; a `*Write` message makes it panic, and so do a
      * packet without a readable destination and a malformed announcement from another node.
      */
    predicate Accepts(m: Message)
    {
      match m
      case InterfaceRead(package) => HasDestination(package)
      case PackageShareRead(package, _) => HasDestination(package)
      case AddNodeRead(_, node) => node.name == localName || Announceable(node)
      case DelNodeRead(_, _) => true
      case PingPongRead(_, _) => true
      case DoNoting => true
      case _ => false
    }

    /** The routing branch of `router_message`: forward a packet to the best host for its destination. */
    method RoutePackage(package: Package, ttl: u32)
      requires HasDestination(package)
      modifies this
      ensures outbox == old(outbox) + [Route(FindInTable(package), package, ttl)]
    {
      outbox := outbox + [Route(FindInTable(package), package, ttl)];
    }

    /** The relaying loop of `router_message`: one `AddNodeWrite` of `node` per address, in order. */
    method SendToAll(addrs: seq<SocketAddr>, node: Node)
      modifies this
      ensures outbox == old(outbox) + Broadcast(addrs, node)
    {
      for i := 0 to |addrs|
        invariant outbox == old(outbox) + Broadcast(addrs[..i], node)
      {
        assert Broadcast(addrs[..i + 1], node) == Broadcast(addrs[..i], node) + [AddNodeWrite(addrs[i], node)];
        outbox := outbox + [AddNodeWrite(addrs[i], node)];
      }
      assert addrs[..|addrs|] == addrs;
    }

    /**
      * What `router_message` does once an announcement is news: send it on to every node of
      * both tables, then answer the sender with this node's own announcement.
      */
    method Relay(from: SocketAddr, relayed: Node)
      modifies this
      ensures exists nodes :: && ListsNodes(v4.entries, v6.entries, nodes)
                              && outbox == old(outbox) + Broadcast(nodes, relayed) + [AddNodeWrite(from, selfShare)]
    {
      var nodes := GetAllNode();
      SendToAll(nodes, relayed);
      outbox := outbox + [AddNodeWrite(from, selfShare)];
    }

    /**
      * The `AddNodeRead` branch of `router_message` for another node's announcement: record the
      * node as reachable through its source, and when that is news, relay the announcement to
      * every known node and answer the sender with this node's own announcement.
      */
    method AddNode(from: SocketAddr, node: Node)
      requires Valid() && Announceable(node)
      modifies this, v4, v6
      ensures Valid()
      ensures var source := AnnouncedSource(from, node);
        var dest := ReadIp(node.subNet);
        var inserted := InsertResult(old(TableFor(dest).entries), AddressBits(dest)[..Mask(node)], node.name, Socket(source));
        && TableFor(dest).entries == inserted.1
        && (dest.V4? ==> v6.entries == old(v6.entries))
        && (dest.V6? ==> v4.entries == old(v4.entries))
        && (inserted.0 == Err ==> outbox == old(outbox))
        && (inserted.0 == Ok ==>
              exists nodes :: && ListsNodes(v4.entries, v6.entries, nodes)
                              && outbox == old(outbox) + Broadcast(nodes, Relayed(node, source)) + [AddNodeWrite(from, selfShare)])
    {
      var source := AnnouncedSource(from, node);
      var v := ReadIp(node.subNet);
      var res := InsertToTable(v, Mask(node), node.name, Socket(source));
      if res == Ok {
        Relay(from, Relayed(node, source));
      }
    }

    /** `Router::router_message`: handles one message from the bus. */
    method RouterMessage(m: Message)
      requires Valid() && Accepts(m)
      modifies this, v4, v6
      ensures Valid()
      ensures m.PackageShareRead? || m.InterfaceRead? ==>
        && v4.entries == old(v4.entries) && v6.entries == old(v6.entries)
        && outbox == old(outbox) + [Route(FindInTable(m.package), m.package, if m.InterfaceRead? then 127 else m.ttl)]
      ensures m.AddNodeRead? && m.node.name == localName ==>
        v4.entries == old(v4.entries) && v6.entries == old(v6.entries) && outbox == old(outbox)
      ensures m.AddNodeRead? && m.node.name != localName ==>
        var source := AnnouncedSource(m.addr, m.node);
        var dest := ReadIp(m.node.subNet);
        var inserted := InsertResult(old(TableFor(dest).entries), AddressBits(dest)[..Mask(m.node)], m.node.name, Socket(source));
        && TableFor(dest).entries == inserted.1
        && (dest.V4? ==> v6.entries == old(v6.entries))
        && (dest.V6? ==> v4.entries == old(v4.entries))
        && (inserted.0 == Err ==> outbox == old(outbox))
        && (inserted.0 == Ok ==>
              exists nodes :: && ListsNodes(v4.entries, v6.entries, nodes)
                              && outbox == old(outbox) + Broadcast(nodes, Relayed(m.node, source)) + [AddNodeWrite(m.addr, selfShare)])
      ensures m.DelNodeRead? || m.DoNoting? ==>
        v4.entries == old(v4.entries) && v6.entries == old(v6.entries) && outbox == old(outbox) + [DoNoting]
      ensures m.PingPongRead? ==>
        v4.entries == old(v4.entries) && v6.entries == old(v6.entries) && outbox == old(outbox) + [PingPongWrite(m.addr, localName)]
    {
      match m {
        case PackageShareRead(package, ttl) =>
          RoutePackage(package, ttl);
        case InterfaceRead(package) =>
          RoutePackage(package, 127);
        case AddNodeRead(from, node) =>
          if node.name != localName {
            AddNode(from, node);
          }
        case DelNodeRead(_, _) =>
          outbox := outbox + [DoNoting];
        case DoNoting =>
          outbox := outbox + [DoNoting];
        case PingPongRead(addr, _) =>
          outbox := outbox + [PingPongWrite(addr, localName)];
      }
    }
  }
}

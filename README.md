# placeholder: the router core in Dafny

`placeholder` is a peer-to-peer overlay VPN. Every node reads IP packets from a TUN
interface, looks up the destination in a routing table of announced subnets, and sends the
packet on to the peer that announced the longest matching prefix. Nodes learn about each
other from `AddNode` announcements, which they store and relay to every node they know.

This project models the decision layer of that program:

- `table.dfy` (module `Tables`): the bit encoding of addresses (`encode_bytes`, `split_u8`) and
  the routing table (`Table`). The radix trie is a map from bit strings to peers, and `find` is a
  longest-prefix lookup.
- `peer.dfy` (module `Peers`): a peer, its candidate hosts, the hand-written ordering of hosts,
  and the max-heap that picks the best host.
- `router.dfy` (module `Routing`): the `Router`. It holds one table per address family and an
  outbox of sent messages, and handles one bus message per `RouterMessage` call.
- `package.dfy` (module `Packages`): IP header accessors and the FIFO pool of receive buffers.
- `utils.dfy` (module `Utils`): hex dumps, nibble and big-endian readers, and the byte writer.
- `base.dfy` and `net.dfy`: integer widths, `Option`, `Result<(), ()>` as `Outcome`, and
  stand-ins for `std::net` addresses.

The tables and the router are classes whose methods change their state in place. Peers and
packets are values. The trie's iteration order is not modelled. The listing methods therefore
promise "the stored peers in some order, each exactly once". The heap is the sequence of
pushed entries, and its top is the first maximal entry.

## Model

| member | source | states |
|---|---|---|
| Tables.ByteBits | src/router/table.rs:131-140 | a byte becomes exactly eight bits |
| Tables.ByteBitsValue | src/router/table.rs:131-140 | the eight bits, weighted most significant first, give the byte back |
| Tables.OctetsBits | src/router/table.rs:112-129 | eight bits per octet |
| Tables.AddressBits | src/router/table.rs:112-129 | an IPv4 address encodes to 32 bits and an IPv6 address to 128 |
| Tables.OctetsBitsSlice | src/router/table.rs:115-118 | bits 8i..8i+8 of the encoding are the bits of octet i |
| Tables.AddressBitsAt | src/router/table.rs:112-140 | element 8i+k of an encoded address is bit 7-k of octet i |
| Tables.OctetsOf | src/router/table.rs:112-129 | decoding has one octet per eight bits |
| Tables.OctetsBitsRoundTrip | src/router/table.rs:112-140 | decoding the encoding of any octets gives them back |
| Tables.AddressBitsInjective | src/router/table.rs:112-129 | distinct addresses have distinct encodings |
| Tables.SplitU8 | src/router/table.rs:131-140 | the eight pushes append exactly the bits of the byte, most significant first |
| Tables.EncodeBytes | src/router/table.rs:112-129 | the loop over the octets builds exactly the specified encoding |
| Tables.AncestorKey | src/router/table.rs:76-79 | it returns a stored prefix of the bits of length at most n, and one at least as long as every such prefix |
| Tables.LongestMatchUnique | src/router/table.rs:76-79 | the longest stored prefix is unique |
| Tables.Lookup | src/router/table.rs:76-79 | None exactly when no stored key is a prefix of the address; otherwise the value at the longest stored prefix |
| Tables.LookupFindsLongest | src/router/table.rs:76-79 | whenever a key is the longest match, the lookup returns its peer |
| Tables.LookupAfterRemove | src/router/table.rs:102-109 | removing a key leaves lookups that matched a longer or other key unchanged, and lookups that matched only it return None |
| Tables.LookupAfterPut | src/router/table.rs:91-96 | after storing a key, lookups of addresses it does not prefix are unchanged, and it wins for addresses where it is the longest prefix |
| Tables.InsertResult | src/router/table.rs:81-100 | a fresh key gives Ok with a peer of the given name whose best host is the given host; an existing key gives the add_host verdict and keeps its name; no other key changes; Err changes nothing |
| Tables.ListedPeerCount | src/router/table.rs:65-72 | a listing of the stored peers has one entry per stored key |
| Tables.SocketsOf | src/router/table.rs:45-54 | the socket list holds exactly the addresses of peers whose best host is a socket, and no more entries than peers |
| Tables.SocketsOfAppend | src/router/mod.rs:163-176 | the sockets of two chained peer lists are the sockets of the first followed by those of the second |
| Tables.Table.constructor | src/router/table.rs:39-41 | a new table is empty |
| Tables.Table.Find | src/router/table.rs:76-79 | None exactly when no stored prefix matches the address's bits; otherwise the peer at the longest stored prefix |
| Tables.Table.Insert | src/router/table.rs:81-100 | the stored key is the first mask bits of the address, and result and new table are as InsertResult states |
| Tables.Table.InsertKey | src/router/table.rs:91-98 | the trie update for a fresh or existing key, as InsertResult states, keeping every peer valid |
| Tables.Table.Delete | src/router/table.rs:102-109 | Ok exactly when the prefix was stored; only that key is removed |
| Tables.Table.GetAllPeer | src/router/table.rs:65-72 | every stored peer, each key exactly once, in some iteration order |
| Tables.Table.GetAllNodes | src/router/table.rs:45-54 | the sockets of the best hosts of such a listing, in the same order |
| Tables.Table.GetByPeerName | src/router/table.rs:56-63 | a stored peer with that name, or None exactly when no stored peer has it |
| Peers.Cmp | src/router/peer.rs:98-123 | Greater exactly when the first entry is of a higher class (Localhost over Socket over Unreachable) or both are sockets and the first has the smaller rank; Less in the mirrored case |
| Peers.PartialCmp | src/router/peer.rs:92-96 | always defined, and Greater or Less exactly as the reference order ranks the two entries |
| Peers.LessOrEqual | src/router/peer.rs:92-96 | the heap's `<=`, through partial_cmp, holds exactly when the first entry is not ranked above the second |
| Peers.Eq | src/router/peer.rs:79-90 | equal exactly when the entries are the same variant with the same fields |
| Peers.CmpIsPreorder | src/router/peer.rs:92-123 | the ordering is antisymmetric, reflexive and transitive |
| Peers.CmpIgnoresAddress | src/router/peer.rs:112-119 | two sockets of equal rank compare Equal although they are not equal |
| Peers.Top | src/router/peer.rs:26-35 | the heap top is one of the pushed entries and no entry is greater |
| Peers.TopIsFirstMaximal | src/router/peer.rs:26-35 | the heap top is the earliest pushed of the maximal entries |
| Peers.NewPeer | src/router/peer.rs:19-24 | a new peer has the given name, no hosts, and best host Unreachable |
| Peers.GetHost | src/router/peer.rs:26-35 | Localhost exactly when it was added; a socket only if no Localhost was added and that socket was; Unreachable exactly when nothing better was added |
| Peers.AddHost | src/router/peer.rs:37-69 | Ok exactly when no stored entry holds the same Localhost, Unreachable or socket address; then the entry is pushed (a socket at rank 1), otherwise the peer is unchanged |
| Peers.AddHostKeepsValid | src/router/peer.rs:37-69 | an accepted host keeps every slot distinct and every socket rank at 1 |
| Peers.GetHostAfterAdd | src/router/peer.rs:26-69 | the new host becomes the best only if it is of a strictly higher class than the old best |
| Peers.SecondSocketKeepsFirst | src/router/peer.rs:153-175 | with two sockets of equal rank the first one stays the best host |
| Peers.LocalhostWins | src/router/peer.rs:130-141 | a second Localhost is refused, a socket is accepted, and Localhost stays the best host |
| Packages.FromBuffer | src/internal/package.rs:92-96 | wrapping a buffer and taking it back with Packages.Into gives the same bytes, and Packages.Len and Packages.IsEmpty report their length and emptiness (`len`, `is_empty` and `into` at package.rs:38-45 and 153-157) |
| Packages.Version | src/internal/package.rs:48-54 | V4 exactly when the first byte is 0x4_, V6 exactly when it is 0x6_ |
| Packages.SourceAddress | src/internal/package.rs:57-72 | the address of the packet's family read at bytes 12..16 (IPv4) or 8..24 (IPv6) |
| Packages.DestinationAddress | src/internal/package.rs:75-90 | the address of the packet's family read at bytes 16..20 (IPv4) or 24..40 (IPv6) |
| Packages.GuardsCoverFields | src/internal/package.rs:57-90 | each length condition holds exactly when its address field lies inside the packet |
| Packages.WithAddresses | src/internal/package.rs:57-90 | overwriting the address fields keeps the packet length |
| Packages.AddressesReadBack | src/internal/package.rs:57-90 | the accessors read back the addresses written at the header offsets |
| Packages.OwnAddressesChangeNothing | src/internal/package.rs:57-90 | writing back a packet's own addresses changes nothing |
| Packages.SourceGuardAdmitsShortPacket | src/internal/package.rs:59-63 | a 15-byte IPv4 packet passes the source length check as written, though it lacks byte 15 |
| Packages.SourceGuardOneShort | src/internal/package.rs:61-65 | the check as written admits a too-short packet at exactly one length, one byte short of the field's end |
| Packages.BufferPool.constructor | src/internal/package.rs:100-113 | the pool starts empty |
| Packages.BufferPool.Get | src/internal/package.rs:100-113 | an empty pool hands out a zeroed 1500-byte buffer and is left with five such buffers; otherwise the front buffer leaves the pool |
| Packages.BufferPool.PutBack | src/internal/package.rs:121-124 | the buffer joins the back of the pool |
| Packages.PoolIsFifo | src/internal/package.rs:100-124 | buffers come out in the order they were put back, then a fresh zeroed buffer |
| Utils.Hex | src/utils/mod.rs:8-15 | two characters per byte |
| Utils.BytesToHex | src/utils/mod.rs:8-15 | the push loop builds exactly the specified dump |
| Utils.HexAt | src/utils/mod.rs:11-12 | characters 2i and 2i+1 are the digits of the high and low nibble of byte i |
| Utils.HexAlphabet | src/utils/mod.rs:5-15 | every character of a dump is one of 0-9 and A-F |
| Utils.HexRoundTrip | src/utils/mod.rs:5-15 | reading a dump back gives the original bytes |
| Utils.ReadU4High | src/utils/mod.rs:20-22 | below 16, and the byte lies in the block of sixteen it selects |
| Utils.ReadU4Low | src/utils/mod.rs:24-26 | below 16, and congruent to the byte modulo 16 |
| Utils.NibblesRecombine | src/utils/mod.rs:20-26 | high nibble times 16 plus low nibble is the byte |
| Utils.ReadU8 | src/utils/mod.rs:28-30 | the first byte, whose high and low nibbles are what read_u4_high and read_u4_low return |
| Utils.ReadU16 | src/utils/mod.rs:32-34 | the first byte is the high byte and the second the low byte |
| Utils.ReadU16RoundTrip | src/utils/mod.rs:32-34 | read_u16 inverts the big-endian split in both directions |
| Utils.WriteU8 | src/utils/mod.rs:40-42 | afterwards read_u8 gives the value, and every other byte is unchanged |
| Routing.ReadIp | src/router/mod.rs:231-244 | four bytes give IPv4 and sixteen IPv6, and parse_ip gives the bytes back |
| Routing.ParseIp | src/router/mod.rs:246-251 | four bytes exactly for IPv4, sixteen for IPv6 |
| Routing.ParseIpRoundTrip | src/router/mod.rs:231-251 | read_ip of parse_ip is the identity |
| Routing.Broadcast | src/router/mod.rs:121-130 | one announcement per address |
| Routing.Router.constructor | src/router/mod.rs:26-33 | two distinct empty tables, and nothing sent |
| Routing.Router.InsertToTable | src/router/mod.rs:178-204 | the insert happens in the table of the destination's family, as Table.Insert states; the other table is untouched |
| Routing.Router.FindInTable | src/router/mod.rs:206-218 | the longest-prefix lookup of the packet's destination in its family's table |
| Routing.Router.GetAllNode | src/router/mod.rs:163-176 | the sockets of the IPv4 table's peers followed by those of the IPv6 table's |
| Routing.Router.GetByName | src/router/mod.rs:220-228 | a stored peer with that name, from the IPv4 table whenever it has one; None exactly when neither table has one |
| Routing.Router.RoutePackage | src/router/mod.rs:57-98 | exactly one message: PackageShareWrite to the best host's socket with the ttl unchanged, InterfaceWrite for Localhost, DoNoting for Unreachable or no match |
| Routing.Router.SendToAll | src/router/mod.rs:121-130 | one AddNodeWrite per address, in order |
| Routing.Router.Relay | src/router/mod.rs:121-133 | an announcement to every known node, then this node's own announcement to the sender |
| Routing.Router.AddNode | src/router/mod.rs:105-134 | the node is stored in its family's table reached through its source (the sender at jump 0, else its relay address); when news, it is relayed with jump+1 and the source as relay address; a refused insert sends nothing |
| Routing.Router.RouterMessage | src/router/mod.rs:55-159 | per message: packets are routed (an interface packet with ttl 127), this node's own announcement is ignored, other announcements go to AddNode, pings are answered with the local name, DelNode and DoNoting send DoNoting; only announcements change the tables |

## Left out

- The TUN device, the C helper and the build script: device I/O with no decision logic.
- The UDP network layer, the async runtime and the channels: the bus is the router's outbox.
- Configuration loading and `main.rs`. The node name and this node's own announcement are constants of the `Router`.
- Protobuf encoding of messages (`src/internal/message.rs`): generated code that is not part of this model. The `Node` field widths are taken as `net_mask: u32`, `jump: u32` and `port: i32`.
- `run_command`: it spawns shell processes.
- `Package::as_slice` and `Buffer::set_len`: they depend on `Vec` capacity and unsafe length changes, which have no counterpart on sequences.
- Logging, including the `source_address` calls made only for log lines in `router_message`.
- The `RwLock` and `lazy_static` around the buffer pool: the pool is a single-owner object.
- The radix trie's internals and iteration order: the trie is a map, and listings hold in some enumeration order.
- The binary heap's internals: it is the sequence of pushed entries, and its top is the entry a push sequence leaves at the root.
- Tables.Table.Insert: a mask longer than the address is undefined behaviour in the source (`set_len` past the initialised bits), so it is a precondition.
- Tables.Table.Delete: a mask longer than the address is undefined behaviour in the source for the same reason, so it is a precondition.
- Routing.Router.AddNode: the hop count `jump + 1` wraps modulo 2^32, as in a release build; a build with overflow checks (debug or test) panics when `jump` is `u32::MAX`, and that panic is not modelled.
- Routing.Router.RouterMessage: `*Write` messages, a packet too short for its destination, and a malformed announcement panic in the source, so they are preconditions.
- Packages.Version: a first byte whose high nibble is neither 4 nor 6 is unreachable in the source, so it is a precondition.
- Peers.AddHost: the rank increment on a duplicate socket updates a copy, so it is not modelled as a state change.
- The concrete table tests (`table.rs:190-290`) are covered by the general lemmas on `Lookup`, `InsertResult` and the listings, not as concrete scenarios.

## Findings

| source | as written | input that shows it | evidently intended | confidence | as-written member | corrected member |
|---|---|---|---|---|---|---|
| src/internal/package.rs:61,65 | `source_address` checks for at least 15 bytes (IPv4) and 23 bytes (IPv6), then reads up to index 15 and 23 | a 15-byte IPv4 packet `45 00 … 00` passes the check and the read of byte 15 is out of bounds | at least 16 and 24 bytes, so the whole field lies in the packet | not executed | Packages.SourceGuardAdmitsShortPacket | Packages.GuardsCoverFields |

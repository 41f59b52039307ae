/**
  * `src/router/peer.rs`: a peer of the overlay and the hosts it can be reached through.
  * The hosts live in a max-heap; the best one is its top.
  */
module Peers {
  import opened Base
  import opened Net

  /** `Host`: how a peer is reached. */
  datatype Host = Localhost | Unreachable | Socket(addr: SocketAddr)

  /** `PeerInternal`: a host as stored in the heap; a socket carries a rank. */
  datatype HostEntry = LocalhostEntry | UnreachableEntry | SocketEntry(addr: SocketAddr, rank: u32)

  /** `std::cmp::Ordering`. */
  datatype Ordering = Less | Equal | Greater

  /** Class of an entry: local delivery beats a socket, a socket beats no route. */
  function Class(e: HostEntry): nat
  {
    match e
    case LocalhostEntry => 2
    case SocketEntry(_, _) => 1
    case UnreachableEntry => 0
  }

  /** Reference order: higher class first; between sockets, the lower rank is the better. */
  predicate Above(a: HostEntry, b: HostEntry)
  {
    Class(a) > Class(b) || (a.SocketEntry? && b.SocketEntry? && a.rank < b.rank)
  }

  /** `Ord for PeerInternal`, `self.cmp(other)` with `self == a`, `other == b`. */
  function Cmp(a: HostEntry, b: HostEntry): (r: Ordering)
    ensures r == Greater <==> Above(a, b)
    ensures r == Less <==> Above(b, a)
  {
    if a.LocalhostEntry? && b.LocalhostEntry? then Equal
    else if a.UnreachableEntry? && b.UnreachableEntry? then Equal
    else if a.LocalhostEntry? then Greater
    else if b.LocalhostEntry? then Less
    else if a.UnreachableEntry? then Less
    else if b.UnreachableEntry? then Greater
    else
      // both are sockets; the source names other's rank r1 and self's r2
      var r1, r2 := b.rank, a.rank;
      if r1 > r2 then Greater else if r1 == r2 then Equal else Less
  }

  /** `PartialOrd for PeerInternal`: always defined, and agrees with `cmp`. */
  function PartialCmp(a: HostEntry, b: HostEntry): (r: Option<Ordering>)
    ensures r.Some?
    ensures r.value == Greater <==> Above(a, b)
    ensures r.value == Less <==> Above(b, a)
  {
    Some(Cmp(a, b))
  }

  /** `a <= b` as the heap evaluates it, through `partial_cmp`. */
  predicate LessOrEqual(a: HostEntry, b: HostEntry)
    ensures LessOrEqual(a, b) <==> !Above(a, b)
  {
    PartialCmp(a, b) == Some(Less) || PartialCmp(a, b) == Some(Equal)
  }

  /** `PartialEq for PeerInternal`. */
  function Eq(a: HostEntry, b: HostEntry): (r: bool)
    ensures r <==> a == b
  {
    if b.LocalhostEntry? && a.LocalhostEntry? then true
    else if b.UnreachableEntry? && a.UnreachableEntry? then true
    else if a.SocketEntry? && b.SocketEntry? then a.addr == b.addr && a.rank == b.rank
    else false
  }

  /** `cmp` is a total preorder: flipping the arguments flips the answer, and it is transitive. */
  lemma CmpIsPreorder(a: HostEntry, b: HostEntry, c: HostEntry)
    ensures Cmp(a, b) == Greater <==> Cmp(b, a) == Less
    ensures Cmp(a, a) == Equal
    ensures Cmp(a, b) != Less && Cmp(b, c) != Less ==> Cmp(a, c) != Less
    ensures Cmp(a, b) == Greater && Cmp(b, c) != Less ==> Cmp(a, c) == Greater
  {
  }

  /** `cmp` ignores the address: two sockets of equal rank are `Equal` without being `==`. */
  lemma CmpIgnoresAddress(x: SocketAddr, y: SocketAddr, rank: u32)
    requires x != y
    ensures Cmp(SocketEntry(x, rank), SocketEntry(y, rank)) == Equal
    ensures !Eq(SocketEntry(x, rank), SocketEntry(y, rank))
  {
  }

  /**
    * `BinaryHeap::peek` after pushing `hs` in order. A push sifts up only past parents that
    * are strictly less than it, so the top changes only when a strictly greater entry arrives.
    */
  function Top(hs: seq<HostEntry>): (t: HostEntry)
    requires hs != []
    ensures t in hs
    ensures forall e :: e in hs ==> Cmp(e, t) != Greater
  {
    if |hs| == 1 then hs[0]
    else
      var t := Top(hs[..|hs| - 1]);
      var x := hs[|hs| - 1];
      assert forall e :: e in hs ==> e in hs[..|hs| - 1] || e == x;
      if LessOrEqual(x, t) then t else x
  }

  /** Entry `i` is a maximum of `hs`, and every entry before it is strictly less. */
  ghost predicate FirstMaximalAt(hs: seq<HostEntry>, i: int)
  {
    && 0 <= i < |hs|
    && (forall j :: 0 <= j < |hs| ==> Cmp(hs[j], hs[i]) != Greater)
    && (forall j :: 0 <= j < i ==> Cmp(hs[j], hs[i]) == Less)
  }

  /** The top of the heap is the earliest pushed of its maximal entries. */
  lemma {:induction false} TopIsFirstMaximal(hs: seq<HostEntry>) returns (i: int)
    requires hs != []
    ensures FirstMaximalAt(hs, i) && hs[i] == Top(hs)
  {
    if |hs| == 1 {
      i := 0;
    } else {
      var n := |hs| - 1;
      var front := hs[..n];
      i := TopIsFirstMaximal(front);
      var x := hs[n];
      if LessOrEqual(x, front[i]) {
        assert Top(hs) == hs[i];
        forall j | 0 <= j < |hs|
          ensures Cmp(hs[j], hs[i]) != Greater
        {
          if j < n {
            assert hs[j] == front[j];
          }
        }
        forall j | 0 <= j < i
          ensures Cmp(hs[j], hs[i]) == Less
        {
          assert hs[j] == front[j];
        }
      } else {
        assert Top(hs) == x;
        forall j | 0 <= j < n
          ensures Cmp(hs[j], x) == Less
        {
          assert hs[j] == front[j];
          assert Cmp(front[j], front[i]) != Greater;
          CmpIsPreorder(x, front[i], front[j]);
        }
        i := n;
      }
    }
  }

  /** `Peer`: a named node of the overlay and its candidate hosts, in the order they were pushed. */
  datatype Peer = Peer(name: string, hosts: seq<HostEntry>)

  /** `Peer::new`. */
  function NewPeer(name: string): (p: Peer)
    ensures p.name == name && p.hosts == []
    ensures GetHost(p) == Unreachable
  {
    Peer(name, [])
  }

  function HostOf(e: HostEntry): Host
  {
    match e
    case LocalhostEntry => Localhost
    case UnreachableEntry => Unreachable
    case SocketEntry(addr, _) => Socket(addr)
  }

  /** The entry `add_host` pushes for a host: a new socket starts at rank 1. */
  function EntryOf(h: Host): HostEntry
  {
    match h
    case Localhost => LocalhostEntry
    case Unreachable => UnreachableEntry
    case Socket(addr) => SocketEntry(addr, 1)
  }

  /** `Peer::get_host`: the host at the top of the heap, `Unreachable` when there is none. */
  function GetHost(p: Peer): (h: Host)
    ensures h == Localhost <==> LocalhostEntry in p.hosts
    ensures h.Socket? ==> LocalhostEntry !in p.hosts && exists r :: SocketEntry(h.addr, r) in p.hosts
    ensures h == Unreachable <==> forall e :: e in p.hosts ==> e == UnreachableEntry
  {
    if p.hosts == [] then Unreachable
    else
      var t := Top(p.hosts);
      assert LocalhostEntry in p.hosts ==> Cmp(LocalhostEntry, t) != Greater;
      assert forall e :: e in p.hosts && e != UnreachableEntry ==> Cmp(e, t) != Greater;
      HostOf(t)
  }

  /** Two entries that `add_host` refuses to hold together. */
  predicate SameSlot(a: HostEntry, b: HostEntry)
  {
    || (a.LocalhostEntry? && b.LocalhostEntry?)
    || (a.UnreachableEntry? && b.UnreachableEntry?)
    || (a.SocketEntry? && b.SocketEntry? && a.addr == b.addr)
  }

  /** `add_host` accepts `h` exactly when no stored entry occupies its slot. */
  predicate Admits(hosts: seq<HostEntry>, h: Host)
  {
    forall e :: e in hosts ==> !SameSlot(e, EntryOf(h))
  }

  /**
    * What every peer built by `add_host` satisfies: no two entries share a slot, and every
    * socket still has rank 1 (the rank increment in `add_host` hits a copy).
    */
  ghost predicate ValidPeer(p: Peer)
  {
    && (forall i, j :: 0 <= i < j < |p.hosts| ==> !SameSlot(p.hosts[i], p.hosts[j]))
    && (forall e :: e in p.hosts && e.SocketEntry? ==> e.rank == 1)
  }

  /** `Peer::add_host`: refuses a host whose slot is taken, otherwise pushes its entry. */
  method AddHost(p: Peer, host: Host) returns (res: Outcome, q: Peer)
    ensures res == Ok <==> Admits(p.hosts, host)
    ensures q == if res == Ok then p.(hosts := p.hosts + [EntryOf(host)]) else p
  {
    match host {
      case Localhost =>
        for i := 0 to |p.hosts|
          invariant forall j :: 0 <= j < i ==> !p.hosts[j].LocalhostEntry?
        {
          if p.hosts[i].LocalhostEntry? {
            assert p.hosts[i] in p.hosts;
            return Err, p;
          }
        }
      case Unreachable =>
        for i := 0 to |p.hosts|
          invariant forall j :: 0 <= j < i ==> !p.hosts[j].UnreachableEntry?
        {
          if p.hosts[i].UnreachableEntry? {
            assert p.hosts[i] in p.hosts;
            return Err, p;
          }
        }
      case Socket(addr) =>
        for i := 0 to |p.hosts|
          invariant forall j :: 0 <= j < i ==> !(p.hosts[j].SocketEntry? && p.hosts[j].addr == addr)
        {
          if p.hosts[i].SocketEntry? && p.hosts[i].addr == addr {
            // `rank.add_assign(1)` increments a copy of the stored rank: the peer is unchanged
            assert p.hosts[i] in p.hosts;
            return Err, p;
          }
        }
    }
    res, q := Ok, p.(hosts := p.hosts + [EntryOf(host)]);
  }

  /** An accepted `add_host` keeps a peer valid. */
  lemma AddHostKeepsValid(p: Peer, host: Host)
    requires ValidPeer(p) && Admits(p.hosts, host)
    ensures ValidPeer(p.(hosts := p.hosts + [EntryOf(host)]))
  {
  }

  /**
    * The best host after an accepted `add_host` on a valid peer: the new host if the peer had
    * none or the new host is of a higher class than the old best, the old best otherwise. In
    * particular a second socket never displaces the first.
    */
  lemma GetHostAfterAdd(p: Peer, host: Host)
    requires ValidPeer(p)
    ensures GetHost(p.(hosts := p.hosts + [EntryOf(host)]))
         == if p.hosts == [] || Class(EntryOf(host)) > Class(Top(p.hosts)) then host else GetHost(p)
  {
  }

  /** The peer of `peer.rs:153-175`: a second socket leaves the first one the best host. */
  lemma SecondSocketKeepsFirst(name: string, a: SocketAddr, b: SocketAddr)
    ensures GetHost(Peer(name, [EntryOf(Socket(a)), EntryOf(Socket(b))])) == Socket(a)
  {
  }

  /** The peer of `peer.rs:130-141`: a second `Localhost` is refused, and local delivery wins. */
  method LocalhostWins(a: SocketAddr) returns (first: Outcome, second: Outcome, third: Outcome, best: Host)
    ensures first == Ok && second == Err && third == Ok
    ensures best == Localhost
  {
    var p := NewPeer("test");
    first, p := AddHost(p, Localhost);
    assert p.hosts[0] in p.hosts && SameSlot(p.hosts[0], EntryOf(Localhost));
    second, p := AddHost(p, Localhost);
    third, p := AddHost(p, Socket(a));
    best := GetHost(p);
  }
}

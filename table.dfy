/**
  * `src/router/table.rs`: a routing table from address prefixes to peers, with
  * longest-prefix lookup. The radix trie is modelled as a map from bit strings to peers.
  */
module Tables {
  import opened Base
  import opened Net
  import opened Peers

  /** One element of an encoded address: 0 or 1. */
  type Bit = b: int | 0 <= b < 2

  /** A trie key: address bits, most significant first, cut to a prefix length. */
  type Key = seq<Bit>

  /** Specification of `split_u8`: the eight bits of a byte, most significant first. */
  function ByteBits(u: u8): (bits: Key)
    ensures |bits| == 8
  {
    [(u / 128) % 2, (u / 64) % 2, (u / 32) % 2, (u / 16) % 2, (u / 8) % 2, (u / 4) % 2, (u / 2) % 2, u % 2]
  }

  /** Specification of `encode_bytes` on a sequence of octets. */
  function OctetsBits(os: seq<u8>): (bits: Key)
    ensures |bits| == 8 * |os|
  {
    if os == [] then [] else OctetsBits(os[..|os| - 1]) + ByteBits(os[|os| - 1])
  }

  /** Specification of `encode_bytes`: 32 bits for an IPv4 address, 128 for IPv6. */
  function AddressBits(ip: IpAddr): (bits: Key)
    ensures |bits| == ip.BitWidth()
  {
    OctetsBits(ip.Octets())
  }

  /** Value of eight bits, most significant first. */
  function ByteValue(bits: Key): nat
    requires |bits| == 8
  {
    128 * (bits[0] as int) + 64 * (bits[1] as int) + 32 * (bits[2] as int) + 16 * (bits[3] as int)
      + 8 * (bits[4] as int) + 4 * (bits[5] as int) + 2 * (bits[6] as int) + bits[7] as int
  }

  lemma ByteBitsValue(u: u8)
    ensures ByteValue(ByteBits(u)) == u
  {
    LowBitsSum(u);
  }

  lemma LowBitsSum(u: u8)
    ensures u == 128 * ((u / 128) % 2) + 64 * ((u / 64) % 2) + 32 * ((u / 32) % 2) + 16 * ((u / 16) % 2)
      + 8 * ((u / 8) % 2) + 4 * ((u / 4) % 2) + 2 * ((u / 2) % 2) + u % 2
  {
    Halve(u, 1); Halve(u, 2); Halve(u, 4); Halve(u, 8); Halve(u, 16); Halve(u, 32); Halve(u, 64);
    var q1, q2, q3, q4 := u / 2, u / 4, u / 8, u / 16;
    var q5, q6, q7 := u / 32, u / 64, u / 128;
    assert u == 2 * q1 + u % 2;
    assert q1 == 2 * q2 + q1 % 2;
    assert q2 == 2 * q3 + q2 % 2;
    assert q3 == 2 * q4 + q3 % 2;
    assert q4 == 2 * q5 + q4 % 2;
    assert q5 == 2 * q6 + q5 % 2;
    assert q6 == 2 * q7 + q6 % 2;
    assert q7 == q7 % 2;
  }

  /** Dividing by `2d` is halving after dividing by `d`. */
  lemma Halve(u: nat, d: nat)
    requires d == 1 || d == 2 || d == 4 || d == 8 || d == 16 || d == 32 || d == 64
    ensures u / (2 * d) == (u / d) / 2
  {
    var q := u / d;
    assert u == d * q + u % d;
    assert q == 2 * (q / 2) + q % 2;
    assert u == (2 * d) * (q / 2) + (d * (q % 2) + u % d);
  }

  /** Reads octets back out of an encoding, eight bits per whole octet. */
  function OctetsOf(bits: Key): (os: seq<u8>)
    ensures |os| == |bits| / 8
  {
    seq(|bits| / 8, i requires 0 <= i < |bits| / 8 => ByteValue(bits[8 * i..8 * i + 8]))
  }

  /** The encoding loses nothing: reading it back gives the original octets. */
  lemma OctetsBitsRoundTrip(os: seq<u8>)
    ensures OctetsOf(OctetsBits(os)) == os
  {
    var bits := OctetsBits(os);
    forall i | 0 <= i < |os|
      ensures OctetsOf(bits)[i] == os[i]
    {
      OctetReadBack(os, i);
    }
    assert |OctetsOf(bits)| == |os|;
  }

  /** Octet `i` survives encoding and reading back. */
  lemma OctetReadBack(os: seq<u8>, i: nat)
    requires i < |os|
    ensures OctetsOf(OctetsBits(os))[i] == os[i]
  {
    var bits := OctetsBits(os);
    var slice := bits[8 * i..8 * i + 8];
    Octets8(|os|);
    OctetsOfAt(bits, i);
    OctetsBitsSlice(os, i);
    assert slice == ByteBits(os[i]);
    ByteBitsValue(os[i]);
    assert ByteValue(slice) == os[i];
  }

  /** Bits `8i` to `8i+7` of the encoding are the bits of octet `i`. */
  lemma {:induction false} OctetsBitsSlice(os: seq<u8>, i: nat)
    requires i < |os|
    ensures OctetsBits(os)[8 * i..8 * i + 8] == ByteBits(os[i])
  {
    var n := |os| - 1;
    var front, last := OctetsBits(os[..n]), ByteBits(os[n]);
    assert OctetsBits(os) == front + last;
    if i < n {
      OctetsBitsSlice(os[..n], i);
      SliceOfAppend(front, last, 8 * i, 8 * i + 8);
    } else {
      SliceOfAppend(front, last, |front|, |front| + 8);
    }
  }

  /** A slice of `a + b` within `a`, or covering exactly `b`, is that part of `a` or `b`. */
  lemma SliceOfAppend(a: Key, b: Key, lo: nat, hi: nat)
    requires lo <= hi <= |a| || (lo == |a| && hi == |a| + |b|)
    ensures hi <= |a| ==> (a + b)[lo..hi] == a[lo..hi]
    ensures lo == |a| && hi == |a| + |b| ==> (a + b)[lo..hi] == b
  {
  }

  lemma Octets8(n: nat)
    ensures (8 * n) / 8 == n
  {
  }

  /** Octet `i` of a read-back encoding comes from bits `8i` to `8i+7`. */
  lemma OctetsOfAt(bits: Key, i: nat)
    requires i < |bits| / 8
    ensures OctetsOf(bits)[i] == ByteValue(bits[8 * i..8 * i + 8])
  {
  }

  /** The encoding loses nothing: distinct addresses have distinct full-length keys. */
  lemma AddressBitsInjective(a: IpAddr, b: IpAddr)
    requires AddressBits(a) == AddressBits(b)
    ensures a == b
  {
    OctetsBitsRoundTrip(a.Octets());
    OctetsBitsRoundTrip(b.Octets());
  }

  /** Element `8i+k` of an encoded address is bit `7-k` of octet `i`. */
  lemma AddressBitsAt(ip: IpAddr, i: nat, k: nat)
    requires i < |ip.Octets()| && k < 8
    ensures AddressBits(ip)[8 * i + k] == ByteBits(ip.Octets()[i])[k]
  {
    OctetsBitsSlice(ip.Octets(), i);
    assert AddressBits(ip)[8 * i..8 * i + 8][k] == AddressBits(ip)[8 * i + k];
  }

  /** `split_u8`: pushes the bits of `u` onto `v`, most significant first. */
  method SplitU8(u: u8, v: Key) returns (w: Key)
    ensures w == v + ByteBits(u)
  {
    w := v;
    w := w + [(u / 128) % 2];  // (u & 0b1000_0000) >> 7
    w := w + [(u / 64) % 2];
    w := w + [(u / 32) % 2];
    w := w + [(u / 16) % 2];
    w := w + [(u / 8) % 2];
    w := w + [(u / 4) % 2];
    w := w + [(u / 2) % 2];
    w := w + [u % 2];          // u & 0b0000_0001
  }

  /** `encode_bytes`: splits every octet of the address in turn (the same loop for both families). */
  method EncodeBytes(ip: IpAddr) returns (v: Key)
    ensures v == AddressBits(ip)
  {
    var octets := ip.Octets();
    v := [];
    for i := 0 to |octets|
      invariant v == OctetsBits(octets[..i])
    {
      assert octets[..i + 1][..i] == octets[..i];
      v := SplitU8(octets[i], v);
    }
    assert octets[..|octets|] == octets;
  }

  predicate IsPrefix(k: Key, bits: Key)
  {
    |k| <= |bits| && bits[..|k|] == k
  }

  /** The longest stored key of length at most `n` that is a prefix of `bits`. */
  function AncestorKey(m: map<Key, Peer>, bits: Key, n: nat): (r: Option<Key>)
    requires n <= |bits|
    ensures r.Some? ==> r.value in m && IsPrefix(r.value, bits) && |r.value| <= n
    ensures forall k :: k in m && IsPrefix(k, bits) && |k| <= n ==> r.Some? && |k| <= |r.value|
  {
    if bits[..n] in m then Some(bits[..n])
    else if n == 0 then None
    else AncestorKey(m, bits, n - 1)
  }

  /** `k` is the longest stored key that is a prefix of `bits`. */
  ghost predicate IsLongestMatch(m: map<Key, Peer>, bits: Key, k: Key)
  {
    k in m && IsPrefix(k, bits) && forall k' :: k' in m && IsPrefix(k', bits) ==> |k'| <= |k|
  }

  /** Two prefixes of the same bits with the same length are the same key. */
  lemma LongestMatchUnique(m: map<Key, Peer>, bits: Key, k1: Key, k2: Key)
    requires IsLongestMatch(m, bits, k1) && IsLongestMatch(m, bits, k2)
    ensures k1 == k2
  {
  }

  /** `Trie::get_ancestor_value`: the peer stored at the longest prefix of `bits`. */
  function Lookup(m: map<Key, Peer>, bits: Key): (r: Option<Peer>)
    ensures r.None? <==> forall k :: k in m ==> !IsPrefix(k, bits)
    ensures r.Some? ==> exists k :: IsLongestMatch(m, bits, k) && m[k] == r.value
  {
    match AncestorKey(m, bits, |bits|)
    case None => None
    case Some(k) => Some(m[k])
  }

  /** A stored prefix that no longer stored prefix beats is what `Lookup` returns. */
  lemma LookupFindsLongest(m: map<Key, Peer>, bits: Key, k: Key)
    requires IsLongestMatch(m, bits, k)
    ensures Lookup(m, bits) == Some(m[k])
  {
    var k' :| IsLongestMatch(m, bits, k') && m[k'] == Lookup(m, bits).value;
    LongestMatchUnique(m, bits, k, k');
  }

  /**
    * Removing a key leaves every lookup whose longest match was another key unchanged, and
    * a lookup that only matched the removed key finds nothing.
    */
  lemma LookupAfterRemove(m: map<Key, Peer>, key: Key, bits: Key)
    ensures (exists k :: IsLongestMatch(m, bits, k) && k != key) ==> Lookup(m - {key}, bits) == Lookup(m, bits)
    ensures (forall k :: k in m && IsPrefix(k, bits) ==> k == key) ==> Lookup(m - {key}, bits) == None
  {
    if k :| IsLongestMatch(m, bits, k) && k != key {
      assert IsLongestMatch(m - {key}, bits, k);
      LookupFindsLongest(m, bits, k);
      LookupFindsLongest(m - {key}, bits, k);
    }
  }

  /**
    * Storing a peer at a prefix of `bits` that no stored prefix outlengthens makes the lookup
    * return it; storing it at a key that is not a prefix leaves the lookup unchanged.
    */
  lemma LookupAfterPut(m: map<Key, Peer>, key: Key, p: Peer, bits: Key)
    ensures IsPrefix(key, bits) && (forall k :: k in m && IsPrefix(k, bits) ==> |k| <= |key|)
        ==> Lookup(m[key := p], bits) == Some(p)
    ensures !IsPrefix(key, bits) ==> Lookup(m[key := p], bits) == Lookup(m, bits)
  {
    if IsPrefix(key, bits) && (forall k :: k in m && IsPrefix(k, bits) ==> |k| <= |key|) {
      assert IsLongestMatch(m[key := p], bits, key);
      LookupFindsLongest(m[key := p], bits, key);
    }
    if !IsPrefix(key, bits) && Lookup(m, bits).Some? {
      var k :| IsLongestMatch(m, bits, k) && m[k] == Lookup(m, bits).value;
      assert IsLongestMatch(m[key := p], bits, k);
      LookupFindsLongest(m[key := p], bits, k);
    }
  }

  /** Effect of `Table::insert` at `key` on the stored map, and its result. */
  function InsertResult(m: map<Key, Peer>, key: Key, name: string, host: Host): (r: (Outcome, map<Key, Peer>))
    ensures r.1.Keys == m.Keys + {key}
    ensures forall k :: k in m && k != key ==> r.1[k] == m[k]
    ensures key !in m ==> r.0 == Ok && r.1[key].name == name && GetHost(r.1[key]) == host
    ensures key in m ==> (r.0 == Ok <==> Admits(m[key].hosts, host)) && r.1[key].name == m[key].name
    ensures r.0 == Err ==> r.1 == m
  {
    if key !in m then
      var p := NewPeer(name).(hosts := [EntryOf(host)]);
      assert Top(p.hosts) == EntryOf(host);
      (Ok, m[key := p])
    else if Admits(m[key].hosts, host) then
      (Ok, m[key := m[key].(hosts := m[key].hosts + [EntryOf(host)])])
    else
      (Err, m)
  }

  /** `ks` lists the keys of `m`, each exactly once. */
  ghost predicate Enumerates(m: map<Key, Peer>, ks: seq<Key>)
  {
    && (forall i, j :: 0 <= i < j < |ks| ==> ks[i] != ks[j])
    && (forall k :: k in m <==> k in ks)
  }

  /** The peers stored at `ks`, in that order. */
  function PeersIn(m: map<Key, Peer>, ks: seq<Key>): (peers: seq<Peer>)
    requires forall k :: k in ks ==> k in m
    ensures |peers| == |ks|
  {
    seq(|ks|, i requires 0 <= i < |ks| => m[ks[i]])
  }

  /** `peers` holds the peer of every key, once each, in some iteration order of the trie. */
  ghost predicate ListsPeers(m: map<Key, Peer>, peers: seq<Peer>)
  {
    exists ks :: Enumerates(m, ks) && peers == PeersIn(m, ks)
  }

  lemma {:induction false} DistinctCard(ks: seq<Key>)
    requires forall i, j :: 0 <= i < j < |ks| ==> ks[i] != ks[j]
    ensures |set k | k in ks| == |ks|
  {
    if ks != [] {
      var n := |ks| - 1;
      DistinctCard(ks[..n]);
      assert (set k | k in ks) == (set k | k in ks[..n]) + {ks[n]};
      assert ks[n] !in (set k | k in ks[..n]);
    }
  }

  /** A listing has one entry per stored key. */
  lemma ListedPeerCount(m: map<Key, Peer>, peers: seq<Peer>)
    requires ListsPeers(m, peers)
    ensures |peers| == |m|
  {
    var ks :| Enumerates(m, ks) && peers == PeersIn(m, ks);
    DistinctCard(ks);
    assert (set k | k in ks) == m.Keys;
  }

  /** The socket addresses of the best hosts of `peers`, in order (the filter of `get_all_nodes`). */
  function SocketsOf(peers: seq<Peer>): (addrs: seq<SocketAddr>)
    ensures |addrs| <= |peers|
    ensures forall a :: a in addrs <==> exists p :: p in peers && GetHost(p) == Socket(a)
  {
    if peers == [] then []
    else
      var n := |peers| - 1;
      var h := GetHost(peers[n]);
      assert forall p :: p in peers <==> p in peers[..n] || p == peers[n];
      SocketsOf(peers[..n]) + (if h.Socket? then [h.addr] else [])
  }

  lemma PeersInSnoc(m: map<Key, Peer>, ks: seq<Key>, k: Key)
    requires forall k' :: k' in ks ==> k' in m
    requires k in m
    ensures PeersIn(m, ks + [k]) == PeersIn(m, ks) + [m[k]]
  {
  }

  lemma SocketsOfSnoc(peers: seq<Peer>, p: Peer)
    ensures SocketsOf(peers + [p]) == SocketsOf(peers) + (if GetHost(p).Socket? then [GetHost(p).addr] else [])
  {
    assert (peers + [p])[..|peers|] == peers;
  }

  /** Filtering a concatenation filters each part. */
  lemma {:induction false} SocketsOfAppend(a: seq<Peer>, b: seq<Peer>)
    ensures SocketsOf(a + b) == SocketsOf(a) + SocketsOf(b)
  {
    if b != [] {
      var n := |b| - 1;
      assert (a + b)[..|a + b| - 1] == a + b[..n];
      SocketsOfAppend(a, b[..n]);
    } else {
      assert a + b == a;
    }
  }

  /** `Table`: the trie of prefixes, owned by the router and updated in place. */
  class Table {
    var entries: map<Key, Peer>

    /** Every stored peer has at least one host and was built by `add_host`. */
    ghost predicate Valid()
      reads this
    {
      forall k :: k in entries ==> entries[k].hosts != [] && ValidPeer(entries[k])
    }

    /** `Table::new`. */
    constructor ()
      ensures Valid() && entries == map[]
    {
      entries := map[];
    }

    /** `LikeRouter::find`: the peer at the longest stored prefix of the address. */
    function Find(addr: IpAddr): (r: Option<Peer>)
      reads this
      ensures r.None? <==> forall k :: k in entries ==> !IsPrefix(k, AddressBits(addr))
      ensures r.Some? ==> exists k :: IsLongestMatch(entries, AddressBits(addr), k) && entries[k] == r.value
    {
      Lookup(entries, AddressBits(addr))
    }

    /**
      * `LikeRouter::insert`: stores a new peer at the first `mask` bits of `addr`, or adds
      * the host to the peer already there. A mask longer than the address is undefined
      * behaviour in the source (`set_len` past the initialised bits).
      */
    method Insert(addr: IpAddr, mask: u16, name: string, host: Host) returns (res: Outcome)
      requires Valid()
      requires mask <= addr.BitWidth()
      modifies this
      ensures Valid()
      ensures (res, entries) == InsertResult(old(entries), AddressBits(addr)[..mask], name, host)
    {
      var key := EncodeBytes(addr);
      key := key[..mask];  // `set_len(mask)`
      res := InsertKey(key, name, host);
    }

    /** The trie part of `insert`: add the host to the peer at `key`, creating the peer if there is none. */
    method InsertKey(key: Key, name: string, host: Host) returns (res: Outcome)
      requires Valid()
      modifies this
      ensures Valid()
      ensures (res, entries) == InsertResult(old(entries), key, name, host)
    {
      ghost var expected := InsertResult(entries, key, name, host);
      if key !in entries {
        var peer := NewPeer(name);
        var added;
        added, peer := AddHost(peer, host);
        // `unwrap()`: a new peer accepts any host
        assert added == Ok;
        assert peer == NewPeer(name).(hosts := [EntryOf(host)]);
        assert ValidPeer(peer);
        entries := entries[key := peer];
        res := Ok;
      } else {
        var peer := entries[key];
        res, peer := AddHost(peer, host);
        if res == Ok {
          AddHostKeepsValid(entries[key], host);
          entries := entries[key := peer];
        }
      }
      assert (res, entries) == expected;
    }

    /** `LikeRouter::delete`: removes the prefix; `Err` when it was not stored. */
    method Delete(addr: IpAddr, mask: u16) returns (res: Outcome)
      requires Valid()
      requires mask <= addr.BitWidth()
      modifies this
      ensures Valid()
      ensures res == Ok <==> AddressBits(addr)[..mask] in old(entries)
      ensures entries == old(entries) - {AddressBits(addr)[..mask]}
    {
      var key := EncodeBytes(addr);
      key := key[..mask];  // `set_len(mask)`
      res := if key in entries then Ok else Err;
      entries := entries - {key};
    }

    /** `Table::get_all_peer`: a copy of every stored peer. */
    method GetAllPeer() returns (peers: seq<Peer>)
      ensures ListsPeers(entries, peers)
    {
      peers := [];
      ghost var order: seq<Key> := [];
      var rest := entries.Keys;
      while rest != {}
        invariant forall i, j :: 0 <= i < j < |order| ==> order[i] != order[j]
        invariant forall k :: k in entries <==> k in order || k in rest
        invariant forall k :: k in order ==> k !in rest
        invariant peers == PeersIn(entries, order)
        decreases |rest|
      {
        var k :| k in rest;
        PeersInSnoc(entries, order, k);
        peers := peers + [entries[k]];
        order := order + [k];
        rest := rest - {k};
      }
      assert Enumerates(entries, order);
    }

    /** `Table::get_all_nodes`: the socket address of every peer whose best host is a socket. */
    method GetAllNodes() returns (nodes: seq<SocketAddr>)
      ensures exists peers :: ListsPeers(entries, peers) && nodes == SocketsOf(peers)
    {
      nodes := [];
      ghost var order: seq<Key> := [];
      var rest := entries.Keys;
      while rest != {}
        invariant forall i, j :: 0 <= i < j < |order| ==> order[i] != order[j]
        invariant forall k :: k in entries <==> k in order || k in rest
        invariant forall k :: k in order ==> k !in rest
        invariant nodes == SocketsOf(PeersIn(entries, order))
        decreases |rest|
      {
        var k :| k in rest;
        PeersInSnoc(entries, order, k);
        SocketsOfSnoc(PeersIn(entries, order), entries[k]);
        match GetHost(entries[k]) {
          case Localhost =>
          case Unreachable =>
          case Socket(addr) => nodes := nodes + [addr];
        }
        order := order + [k];
        rest := rest - {k};
      }
      assert Enumerates(entries, order);
      assert ListsPeers(entries, PeersIn(entries, order));
    }

    /** `Table::get_by_peer_name`: some stored peer with that name, if there is one. */
    method GetByPeerName(name: string) returns (r: Option<Peer>)
      ensures r.Some? ==> r.value.name == name && r.value in entries.Values
      ensures r.None? <==> forall k :: k in entries ==> entries[k].name != name
    {
      var rest := entries.Keys;
      while rest != {}
        invariant rest <= entries.Keys
        invariant forall k :: k in entries && k !in rest ==> entries[k].name != name
        decreases |rest|
      {
        var k :| k in rest;
        if entries[k].name == name {
          return Some(entries[k]);
        }
        rest := rest - {k};
      }
      return None;
    }
  }
}

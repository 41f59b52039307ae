/**
  * `src/internal/package.rs`: a raw IP packet with read-only header accessors, and the pool
  * of 1500-byte receive buffers.
  */
module Packages {
  import opened Base
  import opened Net
  import Utils

  datatype IpVersion = Version4 | Version6

  /** `Package`: the bytes of one IP packet, header first. */
  datatype Package = Package(raw: seq<u8>)

  /** `Package::from_buffer`: wraps a buffer without copying or checking it. */
  function FromBuffer(buffer: seq<u8>): (p: Package)
    ensures Into(p) == buffer
    ensures Len(p) == |buffer|
    ensures IsEmpty(p) <==> buffer == []
  {
    Package(buffer)
  }

  /** `Into<Vec<u8>> for Package`: gives the bytes back. */
  function Into(p: Package): seq<u8>
  {
    p.raw
  }

  /** `Package::len`. */
  function Len(p: Package): nat
  {
    |p.raw|
  }

  /** `Package::is_empty`. */
  function IsEmpty(p: Package): bool
  {
    p.raw == []
  }

  /** `version` panics unless the packet has a first byte whose high nibble is 4 or 6. */
  predicate HasVersion(p: Package)
  {
    |p.raw| >= 1 && (Utils.ReadU4High(p.raw) == 4 || Utils.ReadU4High(p.raw) == 6)
  }

  /** `Package::version`: the IP version field, the high nibble of the first byte. */
  function Version(p: Package): (v: IpVersion)
    requires HasVersion(p)
    ensures v == Version4 <==> 0x40 <= p.raw[0] < 0x50
    ensures v == Version6 <==> 0x60 <= p.raw[0] < 0x70
  {
    if Utils.ReadU4High(p.raw) == 4 then Version4 else Version6
  }

  /**
    * Header layout: the addresses sit at bytes 12 and 16 of an IPv4 header (section 3.1 of
    * RFC 791) and at bytes 8 and 24 of an IPv6 header (section 3 of RFC 8200).
    */
  function AddressLength(v: IpVersion): nat
  {
    if v == Version4 then 4 else 16
  }

  function SourceOffset(v: IpVersion): nat
  {
    if v == Version4 then 12 else 8
  }

  function DestinationOffset(v: IpVersion): nat
  {
    if v == Version4 then 16 else 24
  }

  predicate OfVersion(a: IpAddr, v: IpVersion)
  {
    a.V4? <==> v == Version4
  }

  /**
    * The packet is long enough for `source_address` to read the whole field: 16 bytes for
    * IPv4, 24 for IPv6 (the source's own length check is one byte short, see
    * `SourceGuardAsWritten`).
    */
  predicate HasSource(p: Package)
  {
    HasVersion(p) && |p.raw| >= (if Version(p) == Version4 then 16 else 24)
  }

  /** `destination_address` asserts at least 20 bytes for IPv4 and 40 for IPv6. */
  predicate HasDestination(p: Package)
  {
    HasVersion(p) && |p.raw| >= (if Version(p) == Version4 then 20 else 40)
  }

  /** `Package::source_address`. */
  function SourceAddress(p: Package): (a: IpAddr)
    requires HasSource(p)
    ensures OfVersion(a, Version(p))
    ensures a.Octets() == p.raw[SourceOffset(Version(p))..SourceOffset(Version(p)) + AddressLength(Version(p))]
  {
    match Version(p)
    case Version4 => V4(p.raw[12..16])
    case Version6 => V6(p.raw[8..24])
  }

  /** `Package::destination_address`. */
  function DestinationAddress(p: Package): (a: IpAddr)
    requires HasDestination(p)
    ensures OfVersion(a, Version(p))
    ensures a.Octets() == p.raw[DestinationOffset(Version(p))..DestinationOffset(Version(p)) + AddressLength(Version(p))]
  {
    match Version(p)
    case Version4 => V4(p.raw[16..20])
    case Version6 => V6(p.raw[24..40])
  }

  /** The two guards are exactly "the address field lies inside the packet". */
  lemma GuardsCoverFields(p: Package)
    requires HasVersion(p)
    ensures HasSource(p) <==> SourceOffset(Version(p)) + AddressLength(Version(p)) <= |p.raw|
    ensures HasDestination(p) <==> DestinationOffset(Version(p)) + AddressLength(Version(p)) <= |p.raw|
    ensures HasDestination(p) ==> HasSource(p)
  {
  }

  /** The packet with both address fields overwritten: the header layout read the other way. */
  function WithAddresses(p: Package, src: IpAddr, dst: IpAddr): (q: Package)
    requires HasDestination(p) && OfVersion(src, Version(p)) && OfVersion(dst, Version(p))
    ensures |q.raw| == |p.raw|
  {
    var s := SourceOffset(Version(p));
    var n := AddressLength(Version(p));
    Package(p.raw[..s] + src.Octets() + dst.Octets() + p.raw[s + 2 * n..])
  }

  /** The accessors read back what was written at the header offsets. */
  lemma AddressesReadBack(p: Package, src: IpAddr, dst: IpAddr)
    requires HasDestination(p) && OfVersion(src, Version(p)) && OfVersion(dst, Version(p))
    ensures HasDestination(WithAddresses(p, src, dst))
    ensures Version(WithAddresses(p, src, dst)) == Version(p)
    ensures SourceAddress(WithAddresses(p, src, dst)) == src
    ensures DestinationAddress(WithAddresses(p, src, dst)) == dst
  {
  }

  /** Writing back the addresses a packet already carries changes nothing. */
  lemma OwnAddressesChangeNothing(p: Package)
    requires HasDestination(p)
    ensures WithAddresses(p, SourceAddress(p), DestinationAddress(p)) == p
  {
  }

  /** The length check `source_address` makes as written: 15 bytes for IPv4, 23 for IPv6. */
  predicate SourceGuardAsWritten(p: Package)
  {
    HasVersion(p) && |p.raw| >= (if Version(p) == Version4 then 15 else 23)
  }

  /** A 15-byte IPv4 packet passes that check although byte 15 is then read. */
  lemma SourceGuardAdmitsShortPacket()
    ensures SourceGuardAsWritten(Package([0x45] + seq(14, _ => 0)))
    ensures !HasSource(Package([0x45] + seq(14, _ => 0)))
  {
  }

  /** The check as written differs from the bound the read needs at exactly one length. */
  lemma SourceGuardOneShort(p: Package)
    requires HasVersion(p)
    ensures SourceGuardAsWritten(p) && !HasSource(p)
        <==> |p.raw| == SourceOffset(Version(p)) + AddressLength(Version(p)) - 1
  {
  }

  /** Size of every buffer the pool hands out. */
  const BufferSize: nat := 1500

  /** Number of buffers the pool is refilled with when a request finds it empty. */
  const RefillCount: nat := 5

  function Zeroed(n: nat): (b: seq<u8>)
    ensures |b| == n && forall i :: 0 <= i < n ==> b[i] == 0
  {
    seq(n, _ => 0)
  }

  /** The global `BUFFER` pool: a FIFO list of receive buffers. */
  class BufferPool {
    var pool: seq<seq<u8>>

    constructor ()
      ensures pool == []
    {
      pool := [];
    }

    /** `Buffer::get`: the front buffer, or a fresh one after refilling an empty pool. */
    method Get() returns (buffer: seq<u8>)
      modifies this
      ensures old(pool) == [] ==> buffer == Zeroed(BufferSize) && pool == seq(RefillCount, _ => Zeroed(BufferSize))
      ensures old(pool) != [] ==> buffer == old(pool)[0] && pool == old(pool)[1..]
    {
      if pool == [] {
        pool := pool + [Zeroed(BufferSize)];
        pool := pool + [Zeroed(BufferSize)];
        pool := pool + [Zeroed(BufferSize)];
        pool := pool + [Zeroed(BufferSize)];
        pool := pool + [Zeroed(BufferSize)];
        return Zeroed(BufferSize);
      }
      buffer := pool[0];
      pool := pool[1..];
    }

    /** `Buffer::put_back`: returns a buffer to the back of the pool. */
    method PutBack(buffer: seq<u8>)
      modifies this
      ensures pool == old(pool) + [buffer]
    {
      pool := pool + [buffer];
    }
  }

  /** Buffers come back out of the pool in the order they were put back. */
  method PoolIsFifo(a: seq<u8>, b: seq<u8>) returns (first: seq<u8>, second: seq<u8>, third: seq<u8>)
    ensures first == a && second == b
    ensures third == Zeroed(BufferSize)
  {
    var buffers := new BufferPool();
    buffers.PutBack(a);
    buffers.PutBack(b);
    first := buffers.Get();
    second := buffers.Get();
    third := buffers.Get();
  }
}

/** The parts of Rust's `std::net` addresses the router relies on. */
module Net {
  import opened Base

  type Ipv4Octets = s: seq<u8> | |s| == 4 witness [0, 0, 0, 0]
  type Ipv6Octets = s: seq<u8> | |s| == 16 witness [0, 0, 0, 0, 0, 0, 0, 0, 0, 0, 0, 0, 0, 0, 0, 0]

  /** `IpAddr`: an IPv4 address is four octets, an IPv6 address sixteen, in network order. */
  datatype IpAddr = V4(v4: Ipv4Octets) | V6(v6: Ipv6Octets)
  {
    /** `octets()` of either family. */
    function Octets(): (s: seq<u8>)
      ensures |s| == if V4? then 4 else 16
    {
      if V4? then v4 else v6
    }

    /** Number of bits in an address of this family. */
    function BitWidth(): nat
    {
      if V4? then 32 else 128
    }
  }

  /** `SocketAddr`: an IP address and a port. */
  datatype SocketAddr = SocketAddr(ip: IpAddr, port: u16)
}

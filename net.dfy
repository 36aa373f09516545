/** Internet addresses as the Rust standard library represents them
    (`Ipv4Addr`, `Ipv6Addr`, `IpAddr`, `SocketAddr`), with the two
    classifications the mDNS binder relies on: loopback and unspecified. */
module Net {

  datatype Option<+T> = None | Some(value: T)

  type Octet = x: int | 0 <= x < 0x100
  type U16 = x: int | 0 <= x < 0x1_0000
  type Segment = U16
  type U32 = x: int | 0 <= x < 0x1_0000_0000

  /** a.b.c.d */
  datatype Ipv4Addr = Ipv4Addr(a: Octet, b: Octet, c: Octet, d: Octet)

  /** Eight 16-bit segments, most significant first. */
  datatype Ipv6Addr = Ipv6Addr(s0: Segment, s1: Segment, s2: Segment, s3: Segment,
                               s4: Segment, s5: Segment, s6: Segment, s7: Segment)

  datatype IpAddr = V4(v4: Ipv4Addr) | V6(v6: Ipv6Addr)

  datatype SocketAddr = SocketAddr(ip: IpAddr, port: U16)

  /** 0.0.0.0 */
  const UNSPECIFIED_V4: Ipv4Addr := Ipv4Addr(0, 0, 0, 0)
  /** :: */
  const UNSPECIFIED_V6: Ipv6Addr := Ipv6Addr(0, 0, 0, 0, 0, 0, 0, 0)
  /** ::1 */
  const LOCALHOST_V6: Ipv6Addr := Ipv6Addr(0, 0, 0, 0, 0, 0, 0, 1)

  /** Loopback block 127.0.0.0/8 (section 3.2.1.3 of RFC 1122). */
  predicate Ipv4IsLoopback(ip: Ipv4Addr) {
    ip.a == 127
  }

  /** The single loopback address ::1 (section 2.5.3 of RFC 4291). */
  predicate Ipv6IsLoopback(ip: Ipv6Addr) {
    ip == LOCALHOST_V6
  }

  /** The address as an unsigned number, most significant part first. */
  function Ipv4Value(ip: Ipv4Addr): nat {
    ((ip.a * 0x100 + ip.b) * 0x100 + ip.c) * 0x100 + ip.d
  }

  function Ipv6Value(ip: Ipv6Addr): nat {
    var hi := ((ip.s0 * 0x1_0000 + ip.s1) * 0x1_0000 + ip.s2) * 0x1_0000 + ip.s3;
    var lo := ((ip.s4 * 0x1_0000 + ip.s5) * 0x1_0000 + ip.s6) * 0x1_0000 + ip.s7;
    hi * 0x1_0000_0000_0000_0000 + lo
  }

  /** Loopback: an IPv4 address whose top eight bits are 127, or the IPv6
      address whose 128-bit value is 1. */
  predicate IsLoopback(ip: IpAddr)
    ensures IsLoopback(ip) <==>
              (ip.V4? && Ipv4Value(ip.v4) / 0x100_0000 == 127) || (ip.V6? && Ipv6Value(ip.v6) == 1)
  {
    match ip
    case V4(a) => Ipv4IsLoopback(a)
    case V6(a) => Ipv6IsLoopback(a)
  }

  /** The all-zero address of either family. */
  predicate IsUnspecified(ip: IpAddr) {
    match ip
    case V4(a) => a == UNSPECIFIED_V4
    case V6(a) => a == UNSPECIFIED_V6
  }

  /** Multicast ranges: 224.0.0.0/4 and ff00::/8. */
  predicate IsMulticast(ip: IpAddr) {
    match ip
    case V4(a) => 224 <= a.a <= 239
    case V6(a) => a.s0 / 0x100 == 0xff
  }
}

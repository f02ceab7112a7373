/**
 * Addresses and local interfaces: the IPv4 and IPv6 address values the client sees,
 * the mDNS multicast endpoint, and the interface filter that picks the addresses
 * a socket is opened on.
 */
module Net {
  type Byte = x: int | 0 <= x < 0x100

  /** A UDP port number (Rust `u16`). */
  type Port = x: int | 0 <= x < 0x1_0000

  /** An IPv4 address as its four octets, most significant first. */
  datatype Ipv4Addr = Ipv4Addr(a: Byte, b: Byte, c: Byte, d: Byte)

  /** An IPv4 socket address. */
  datatype SocketAddr = SocketAddr(ip: Ipv4Addr, port: Port)

  /** An IPv6 address as its sixteen octets, most significant first. */
  type Ipv6Octets = s: seq<Byte> | |s| == 16 witness seq(16, _ => 0)

  /** The address an interface carries: IPv4 or IPv6. */
  datatype IfAddr = V4(ip: Ipv4Addr) | V6(octets: Ipv6Octets)

  /** One entry of the operating system's interface list. */
  datatype Interface = Interface(name: string, addr: IfAddr)

  /** The mDNS group 224.0.0.251 and port 5353 (RFC 6762). */
  const MULTICAST_ADDR: Ipv4Addr := Ipv4Addr(224, 0, 0, 251)
  const MULTICAST_PORT: Port := 5353

  /** An IPv4 address is loopback when it lies in 127.0.0.0/8. */
  predicate IsLoopbackV4(ip: Ipv4Addr) {
    ip.a == 127
  }

  /** An IPv6 address is loopback when it is ::1. */
  predicate IsLoopbackV6(octets: Ipv6Octets) {
    octets[15] == 1 && forall i :: 0 <= i < 15 ==> octets[i] == 0
  }

  predicate IsLoopback(addr: IfAddr) {
    match addr
    case V4(ip) => IsLoopbackV4(ip)
    case V6(octets) => IsLoopbackV6(octets)
  }

  /** True of the interfaces a multicast socket is opened on: IPv4 and not loopback. */
  predicate Usable(iface: Interface) {
    !IsLoopback(iface.addr) && iface.addr.V4?
  }

  /**
   * The interface filter of client construction: drop loopback interfaces, then keep
   * the IPv4 ones, in enumeration order.
   */
  function UsableAddrs(ifaces: seq<Interface>): (r: seq<Ipv4Addr>)
    ensures |r| <= |ifaces|
    ensures forall ip :: ip in r ==> !IsLoopbackV4(ip)
  {
    if ifaces == [] then []
    else
      var head := if Usable(ifaces[0]) then [ifaces[0].addr.ip] else [];
      head + UsableAddrs(ifaces[1..])
  }

  /** The filter distributes over concatenation: it keeps the enumeration order. */
  lemma {:induction false} UsableAddrsAppend(xs: seq<Interface>, ys: seq<Interface>)
    ensures UsableAddrs(xs + ys) == UsableAddrs(xs) + UsableAddrs(ys)
  {
    if xs == [] {
      assert xs + ys == ys;
    } else {
      assert (xs + ys)[1..] == xs[1..] + ys;
      UsableAddrsAppend(xs[1..], ys);
    }
  }

  /** An address is kept exactly when some interface carries it as a non-loopback IPv4 address. */
  lemma {:induction false} UsableAddrsMembership(ifaces: seq<Interface>, ip: Ipv4Addr)
    ensures ip in UsableAddrs(ifaces) <==> exists i :: 0 <= i < |ifaces| && Usable(ifaces[i]) && ifaces[i].addr.ip == ip
  {
    if ifaces != [] {
      UsableAddrsMembership(ifaces[1..], ip);
      if ip in UsableAddrs(ifaces[1..]) {
        var i :| 0 <= i < |ifaces[1..]| && Usable(ifaces[1..][i]) && ifaces[1..][i].addr.ip == ip;
        assert ifaces[i + 1] == ifaces[1..][i];
      }
      if exists i :: 0 <= i < |ifaces| && Usable(ifaces[i]) && ifaces[i].addr.ip == ip {
        var i :| 0 <= i < |ifaces| && Usable(ifaces[i]) && ifaces[i].addr.ip == ip;
        if i > 0 {
          assert ifaces[1..][i - 1] == ifaces[i];
        }
      }
    }
  }
}

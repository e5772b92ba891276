/** `socket_address`: a family field followed by the bytes of the sockaddr
    union (sockaddr_in, sockaddr_in6 and sockaddr_un overlap there), plus
    `addr_length`. The constructors write the union in place; bytes a
    constructor does not write keep whatever the fresh buffer held. */
module SocketDefs {
  import opened CLib
  import opened UnixAddress

  /** Linux address-family numbers. */
  const AF_UNIX: uint16 := 1
  const AF_INET: uint16 := 2
  const AF_INET6: uint16 := 10

  /** offsetof(sockaddr_un, sun_path): the size of sa_family_t. */
  const SunPathOffset: nat := 2
  /** sizeof(sockaddr_un::sun_path) */
  const SunPathSize: nat := 108

  // Offsets into the bytes after the family field:
  // sin_port / sin6_port at 0..2, sin_addr at 2..6,
  // sin6_flowinfo at 2..6, sin6_addr at 6..22, sun_path at 0..108.
  const PortAt: nat := 0
  const InAddrAt: nat := 2
  const In6AddrAt: nat := 6

  /** ipv4_addr: host-order address and port. */
  datatype Ipv4Addr = Ipv4Addr(ip: uint32, port: uint16)

  type In6Bytes = s: seq<byte> | |s| == 16 witness [0, 0, 0, 0, 0, 0, 0, 0, 0, 0, 0, 0, 0, 0, 0, 0]

  /** ipv6_addr: the 16 address bytes in order, and a host-order port. */
  datatype Ipv6Addr = Ipv6Addr(ip: In6Bytes, port: uint16)

  /** The bytes of sa_family in memory (host order; little-endian here). */
  function FamilyBytes(family: uint16): (r: seq<byte>)
    ensures |r| == 2
    ensures r[0] as int + 0x100 * r[1] as int == family as int
  {
    [family % 0x100, family / 0x100]
  }

  /** memcpy's byte count in the unix_domain_addr constructor:
      min(sizeof(sun_path), path_length()). */
  function ClampedCount(s: UnixDomainAddr): (n: nat)
    ensures n <= SunPathSize
    ensures s.pathByteCount <= SunPathSize ==> n == s.pathByteCount
    ensures s.pathByteCount > SunPathSize ==> n == SunPathSize
  {
    Min(SunPathSize, s.pathByteCount)
  }

  /** sun_path after the memset and memcpy of the unix_domain_addr constructor. */
  function UnixSunPath(s: UnixDomainAddr): (p: seq<byte>)
    ensures |p| == SunPathSize
    ensures forall i :: 0 <= i < ClampedCount(s) ==> p[i] == s.localPath[i]
    ensures forall i :: ClampedCount(s) <= i < SunPathSize ==> p[i] == 0
  {
    var n := ClampedCount(s);
    s.localPath[..n] + seq(SunPathSize - n, _ => 0)
  }

  /** sun_path after the strncpy constructor: the name's bytes before its
      first NUL, at most sizeof(sun_path) - 1 of them, then NULs. */
  function LegacyUnixSunPath(s: UnixDomainAddr): (p: seq<byte>)
    requires s.WellFormed()
    ensures |p| == SunPathSize && p[SunPathSize - 1] == 0
    ensures var m := Min(|CString(s.Name())|, SunPathSize - 1);
            (forall i :: 0 <= i < m ==> p[i] == s.Name()[i]) &&
            (forall i :: m <= i < SunPathSize ==> p[i] == 0)
  {
    var m := Min(|CString(s.Name())|, SunPathSize - 1);
    s.Name()[..m] + seq(SunPathSize - m, _ => 0)
  }

  /** IN6_ARE_ADDR_EQUAL(a, b): the 16 bytes at the two pointers agree. */
  predicate In6AreAddrEqual(a: seq<byte>, b: seq<byte>)
    requires |a| >= 16 && |b| >= 16
    ensures In6AreAddrEqual(a, b) <==> forall i :: 0 <= i < 16 ==> a[i] == b[i]
  {
    a[..16] == b[..16]
  }

  class SocketAddress {
    /** u.sa.sa_family */
    var family: uint16
    /** the union's bytes after the family field */
    var data: array<byte>
    var addrLength: nat

    ghost predicate Valid()
      reads this
    {
      data.Length == SunPathSize
    }

    /** The union holds sockaddr_in for ip:port, both big-endian. */
    ghost predicate HoldsIpv4(ip: uint32, port: uint16)
      reads this, data
    {
      Valid() && family == AF_INET &&
      data[PortAt..PortAt + 2] == Be16(port) && data[InAddrAt..InAddrAt + 4] == Be32(ip)
    }

    /** The union holds sockaddr_in6 for [ip]:port, port big-endian. */
    ghost predicate HoldsIpv6(ip: In6Bytes, port: uint16)
      reads this, data
    {
      Valid() && family == AF_INET6 &&
      data[PortAt..PortAt + 2] == Be16(port) && data[In6AddrAt..In6AddrAt + 16] == ip
    }

    /** sin_family, sin_port and sin_addr written into a fresh union. */
    static method Ipv4Union(ip: uint32, port: uint16) returns (d: array<byte>)
      ensures fresh(d) && d.Length == SunPathSize
      ensures d[PortAt..PortAt + 2] == Be16(port) && d[InAddrAt..InAddrAt + 4] == Be32(ip)
    {
      d := new byte[SunPathSize];
      Copy(d, PortAt, Be16(port));
      Copy(d, InAddrAt, Be32(ip));
      assert d[InAddrAt..InAddrAt + 4] == Be32(ip);
      assert d[PortAt..PortAt + 2] == Be16(port);
    }

    /** socket_address(ipv4_addr) */
    constructor FromIpv4(addr: Ipv4Addr)
      ensures HoldsIpv4(addr.ip, addr.port) && fresh(data)
    {
      family := AF_INET;
      var d := Ipv4Union(addr.ip, addr.port);
      data := d;
    }

    /** socket_address(): socket_address(ipv4_addr()), that is 0.0.0.0:0 */
    constructor Default()
      ensures HoldsIpv4(0, 0) && fresh(data)
    {
      family := AF_INET;
      var d := Ipv4Union(0, 0);
      data := d;
    }

    /** socket_address(uint16_t p): socket_address(ipv4_addr(p)), that is 0.0.0.0:p */
    constructor FromPort(p: uint16)
      ensures HoldsIpv4(0, p) && fresh(data)
    {
      family := AF_INET;
      var d := Ipv4Union(0, p);
      data := d;
    }

    /** socket_address(uint32_t ipv4, uint16_t p) */
    constructor FromIpAndPort(ipv4: uint32, p: uint16)
      ensures HoldsIpv4(ipv4, p) && fresh(data)
    {
      family := AF_INET;
      var d := Ipv4Union(ipv4, p);
      data := d;
    }

    /** socket_address(const ipv6_addr&) */
    constructor FromIpv6(addr: Ipv6Addr)
      ensures HoldsIpv6(addr.ip, addr.port) && fresh(data)
    {
      var d := new byte[SunPathSize];
      Copy(d, PortAt, Be16(addr.port));
      Copy(d, In6AddrAt, addr.ip);
      assert d[In6AddrAt..In6AddrAt + 16] == addr.ip;
      assert d[PortAt..PortAt + 2] == Be16(addr.port);
      family := AF_INET6;
      data := d;
    }

    /** socket_address(const unix_domain_addr&), the memset/memcpy version:
        never fails, truncates an over-long path to sizeof(sun_path) bytes
        and sets addr_length to the copied count plus the sun_path offset. */
    constructor FromUnix(s: UnixDomainAddr)
      ensures Valid() && fresh(data) && family == AF_UNIX
      ensures data[..] == UnixSunPath(s)
      ensures addrLength == ClampedCount(s) + SunPathOffset
    {
      var d := new byte[SunPathSize];
      Zero(d, 0, SunPathSize);
      var n := Min(SunPathSize, s.pathByteCount);
      Copy(d, 0, s.localPath[..n]);
      assert d[..] == UnixSunPath(s);
      family := AF_UNIX;
      data := d;
      addrLength := n + SunPathOffset;
    }

    /** socket_address(const unix_domain_addr&), the older strncpy version:
        the name is copied as a C string, limited to sizeof(sun_path) - 1
        bytes, and the last byte of sun_path is set to NUL. It does not
        write addr_length. */
    constructor FromUnixStrncpy(s: UnixDomainAddr)
      requires s.WellFormed()
      ensures Valid() && fresh(data) && family == AF_UNIX
      ensures data[..] == LegacyUnixSunPath(s)
    {
      var d := new byte[SunPathSize];
      var src := s.Name() + [0];
      assert src[|src| - 1] == 0;
      CStringOfPadded(s.Name());
      StrNCpy(d, src, SunPathSize - 1);
      d[SunPathSize - 1] := 0;
      assert d[..] == LegacyUnixSunPath(s);
      family := AF_UNIX;
      data := d;
    }

    /** socket_address::operator== (with sin6_addr compared in full). */
    predicate Equals(a: SocketAddress)
      reads this, data, a, a.data
      requires Valid() && a.Valid()
      ensures Equals(a) ==> family == a.family
      ensures family !in {AF_UNIX, AF_INET, AF_INET6} ==> !Equals(a)
      ensures family == a.family == AF_UNIX ==>
                (Equals(a) <==> CString(data[..]) == CString(a.data[..]))
      ensures family == a.family == AF_INET ==>
                (Equals(a) <==> data[PortAt..PortAt + 2] == a.data[PortAt..PortAt + 2] &&
                                data[InAddrAt..InAddrAt + 4] == a.data[InAddrAt..InAddrAt + 4])
      ensures family == a.family == AF_INET6 ==>
                (Equals(a) <==> data[PortAt..PortAt + 2] == a.data[PortAt..PortAt + 2] &&
                                data[In6AddrAt..In6AddrAt + 16] == a.data[In6AddrAt..In6AddrAt + 16])
    {
      if family != a.family then false
      else if family == AF_UNIX then StrCmp(data[..], a.data[..]) == 0
      else if data[PortAt..PortAt + 2] != a.data[PortAt..PortAt + 2] then false
      else if family == AF_INET then data[InAddrAt..InAddrAt + 4] == a.data[InAddrAt..InAddrAt + 4]
      else if family == AF_INET6 then
        assert data[In6AddrAt..][..16] == data[In6AddrAt..In6AddrAt + 16];
        assert a.data[In6AddrAt..][..16] == a.data[In6AddrAt..In6AddrAt + 16];
        In6AreAddrEqual(data[In6AddrAt..], a.data[In6AddrAt..])
      else false
    }

    /** socket_address::operator== as written: IN6_ARE_ADDR_EQUAL is given
        the sockaddr_in6 itself, so it compares the 16 bytes from the start
        of sockaddr_in6 (family, port, flowinfo and only the first 8 bytes
        of sin6_addr). The other families are as in Equals. */
    predicate EqualsAsWritten(a: SocketAddress)
      reads this, data, a, a.data
      requires Valid() && a.Valid()
      ensures family == a.family == AF_INET6 ==>
                (EqualsAsWritten(a) <==> data[..14] == a.data[..14])
      ensures !(family == a.family == AF_INET6) ==> (EqualsAsWritten(a) <==> Equals(a))
    {
      if family == a.family == AF_INET6 && data[PortAt..PortAt + 2] == a.data[PortAt..PortAt + 2] then
        var p, q := FamilyBytes(family) + data[..], FamilyBytes(a.family) + a.data[..];
        assert p[..16] == FamilyBytes(family) + data[..14];
        assert q[..16] == FamilyBytes(family) + a.data[..14];
        assert p[..16] == q[..16] ==> p[2..16] == q[2..16];
        assert p[2..16] == data[..14] && q[2..16] == a.data[..14];
        assert data[..14][PortAt..PortAt + 2] == data[PortAt..PortAt + 2];
        assert a.data[..14][PortAt..PortAt + 2] == a.data[PortAt..PortAt + 2];
        In6AreAddrEqual(FamilyBytes(family) + data[..], FamilyBytes(a.family) + a.data[..])
      else Equals(a)
    }
  }

  /** The C string in `name + [0]` is the C string in `name`. */
  lemma {:induction false} CStringOfPadded(name: seq<byte>)
    ensures CString(name + [0]) == CString(name)
  {
    if |name| > 0 && name[0] != 0 {
      assert (name + [0])[1..] == name[1..] + [0];
      CStringOfPadded(name[1..]);
    }
  }
}

/** What stack.cc adds on top of the address layout: the meaning of the
    socket_address constructors and of operator==, the listener's abort
    flag, and the local-address substitution in network_stack::connect. */
module Stack {
  import opened CLib
  import opened UnixAddress
  import opened SocketDefs

  /** Linux errno value of ECONNABORTED. */
  const ECONNABORTED: int := 103

  // ---------------------------------------------------------------------
  // socket_address constructors and operator==

  /** The IPv4 constructors store values the decoders give back. */
  lemma Ipv4Decodes(sa: SocketAddress, ip: uint32, port: uint16)
    requires sa.HoldsIpv4(ip, port)
    ensures DecodeBe16(sa.data[PortAt..PortAt + 2]) == port
    ensures DecodeBe32(sa.data[InAddrAt..InAddrAt + 4]) == ip
  {
    Be16RoundTrip(port, Be16(port));
    Be32RoundTrip(ip, Be32(ip));
  }

  /** The IPv6 constructor's port is given back by the decoder. */
  lemma Ipv6Decodes(sa: SocketAddress, ip: In6Bytes, port: uint16)
    requires sa.HoldsIpv6(ip, port)
    ensures DecodeBe16(sa.data[PortAt..PortAt + 2]) == port
  {
    Be16RoundTrip(port, Be16(port));
  }

  /** Two IPv4 addresses are equal exactly when their ips and ports are. */
  lemma Ipv4EqualsIff(a: SocketAddress, b: SocketAddress, ip: uint32, port: uint16, ip': uint32, port': uint16)
    requires a.HoldsIpv4(ip, port) && b.HoldsIpv4(ip', port')
    ensures a.Equals(b) <==> ip == ip' && port == port'
  {
    Be16Injective(port, port');
    Be32Injective(ip, ip');
  }

  /** Two IPv6 addresses are equal exactly when their ports and all 16
      address bytes are. */
  lemma Ipv6EqualsIff(a: SocketAddress, b: SocketAddress, ip: In6Bytes, port: uint16, ip': In6Bytes, port': uint16)
    requires a.HoldsIpv6(ip, port) && b.HoldsIpv6(ip', port')
    ensures a.Equals(b) <==> ip == ip' && port == port'
  {
    Be16Injective(port, port');
  }

  /** An address equals socket_address() (0.0.0.0:0) exactly when it is
      an IPv4 address with port 0 and address 0. */
  lemma EqualsDefaultIff(sa: SocketAddress, d: SocketAddress)
    requires sa.Valid() && d.HoldsIpv4(0, 0)
    ensures sa.Equals(d) <==> sa.HoldsIpv4(0, 0)
  {
    if sa.Equals(d) {
      assert sa.data[PortAt..PortAt + 2] == Be16(0);
      assert sa.data[InAddrAt..InAddrAt + 4] == Be32(0);
    }
  }

  /** Addresses of different families are never equal, even when their
      union bytes coincide. */
  lemma FamiliesDiscriminate(a: SocketAddress, b: SocketAddress)
    requires a.Valid() && b.Valid() && a.family != b.family
    ensures !a.Equals(b) && !b.Equals(a)
  {
  }

  /** Equality between Unix-domain addresses reads sun_path only up to its
      first NUL: addr_length and everything after the NUL are ignored. */
  lemma UnixEqualsReadsCStringOnly(a: SocketAddress, a': SocketAddress, b: SocketAddress)
    requires a.Valid() && a'.Valid() && b.Valid()
    requires a.family == a'.family == AF_UNIX
    requires CString(a.data[..]) == CString(a'.data[..])
    ensures a.Equals(b) == a'.Equals(b)
  {
  }

  /** Any two abstract-namespace (leading NUL) Unix addresses compare equal. */
  lemma AbstractUnixAddressesEqual(a: SocketAddress, b: SocketAddress)
    requires a.Valid() && b.Valid() && a.family == b.family == AF_UNIX
    requires a.data[0] == 0 && b.data[0] == 0
    ensures a.Equals(b)
  {
  }

  /** So two different abstract names, once encoded by the memcpy
      constructor, compare equal as socket_addresses. */
  lemma AbstractEncodingsConflate(a: SocketAddress, b: SocketAddress)
    requires a.Valid() && b.Valid() && a.family == b.family == AF_UNIX
    requires a.data[..] == UnixSunPath(UnixDomainAddr(PathOf([0, 49, 49, 49]), 4))
    requires b.data[..] == UnixSunPath(UnixDomainAddr(PathOf([0, 49, 49, 50]), 4))
    ensures a.Equals(b)
    ensures !Equal(UnixDomainAddr(PathOf([0, 49, 49, 49]), 4), UnixDomainAddr(PathOf([0, 49, 49, 50]), 4))
  {
    AbstractNamesDifferAfterNul();
    assert a.data[0] == UnixSunPath(UnixDomainAddr(PathOf([0, 49, 49, 49]), 4))[0];
    assert b.data[0] == UnixSunPath(UnixDomainAddr(PathOf([0, 49, 49, 50]), 4))[0];
  }

  /** What the strncpy constructor leaves for strcmp to see: the name's C
      string, cut to sizeof(sun_path) - 1 bytes. */
  lemma LegacyUnixCString(s: UnixDomainAddr)
    requires s.WellFormed()
    ensures var m := Min(|CString(s.Name())|, SunPathSize - 1);
            CString(LegacyUnixSunPath(s)) == CString(s.Name())[..m]
  {
    var p := LegacyUnixSunPath(s);
    var c := CString(s.Name());
    var m := Min(|c|, SunPathSize - 1);
    assert p[..m] == c[..m];
    CStringOfPrefix(p, m);
  }

  /** Unix addresses built by the strncpy constructor are equal exactly when
      the names' C strings agree in their first sizeof(sun_path) - 1 bytes. */
  lemma LegacyUnixEqualsIff(a: SocketAddress, b: SocketAddress, s: UnixDomainAddr, t: UnixDomainAddr)
    requires s.WellFormed() && t.WellFormed()
    requires a.Valid() && b.Valid() && a.family == b.family == AF_UNIX
    requires a.data[..] == LegacyUnixSunPath(s) && b.data[..] == LegacyUnixSunPath(t)
    ensures a.Equals(b) <==>
              CString(s.Name())[..Min(|CString(s.Name())|, SunPathSize - 1)] ==
              CString(t.Name())[..Min(|CString(t.Name())|, SunPathSize - 1)]
  {
    LegacyUnixCString(s);
    LegacyUnixCString(t);
  }

  /** As written, IPv6 equality sees only the first 8 bytes of sin6_addr:
      addresses that agree in port, flowinfo and those bytes compare equal
      whatever their last 8 address bytes are. */
  lemma Ipv6EqualsAsWrittenIgnoresLowHalf(a: SocketAddress, b: SocketAddress, ip: In6Bytes, ip': In6Bytes, port: uint16)
    requires a.HoldsIpv6(ip, port) && b.HoldsIpv6(ip', port)
    requires a.data[2..6] == b.data[2..6]
    requires ip[..8] == ip'[..8]
    ensures a.EqualsAsWritten(b)
    ensures a.Equals(b) <==> ip == ip'
  {
    Ipv6EqualsIff(a, b, ip, port, ip', port);
    assert a.data[..14] == a.data[..2] + a.data[2..6] + a.data[6..14];
    assert b.data[..14] == b.data[..2] + b.data[2..6] + b.data[6..14];
    assert a.data[6..14] == ip[..8] && b.data[6..14] == ip'[..8];
  }

  /** [::1]:80 and [::2]:80 (with the same flowinfo) compare equal as
      written, though they are different addresses. */
  lemma Ipv6LoopbackConfusedWithNeighbour(a: SocketAddress, b: SocketAddress)
    requires a.HoldsIpv6([0, 0, 0, 0, 0, 0, 0, 0, 0, 0, 0, 0, 0, 0, 0, 1], 80)
    requires b.HoldsIpv6([0, 0, 0, 0, 0, 0, 0, 0, 0, 0, 0, 0, 0, 0, 0, 2], 80)
    requires a.data[2..6] == b.data[2..6]
    ensures a.EqualsAsWritten(b) && !a.Equals(b)
  {
    var ip: In6Bytes := [0, 0, 0, 0, 0, 0, 0, 0, 0, 0, 0, 0, 0, 0, 0, 1];
    var ip': In6Bytes := [0, 0, 0, 0, 0, 0, 0, 0, 0, 0, 0, 0, 0, 0, 0, 2];
    assert ip[..8] == ip'[..8];
    assert ip[15] != ip'[15];
    Ipv6EqualsAsWrittenIgnoresLowHalf(a, b, ip, ip', 80);
  }

  /** Two addresses built from the same ip and port, whose sin6_flowinfo
      bytes differ, are unequal as written, and equal once corrected. The
      IPv6 constructor never writes sin6_flowinfo, so those bytes are
      whatever the storage held. */
  lemma Ipv6FlowinfoSplitsSameAddress(a: SocketAddress, b: SocketAddress, ip: In6Bytes, port: uint16)
    requires a.HoldsIpv6(ip, port) && b.HoldsIpv6(ip, port)
    requires a.data[2..6] != b.data[2..6]
    ensures !a.EqualsAsWritten(b) && a.Equals(b)
  {
    Ipv6EqualsIff(a, b, ip, port, ip, port);
    assert a.data[..14][2..6] == a.data[2..6];
    assert b.data[..14][2..6] == b.data[2..6];
  }

  // ---------------------------------------------------------------------
  // server_socket

  /** The future server_socket::accept returns: the backend's, or one
      failed with an errno. */
  datatype AcceptFuture = FromBackend | Failed(errno: int)

  class ServerSocket {
    /** _aborted */
    var aborted: bool
    /** calls made to _ssi->accept() and _ssi->abort_accept() */
    ghost var backendAccepts: nat
    ghost var backendAborts: nat

    constructor ()
      ensures !aborted && backendAccepts == 0 && backendAborts == 0
    {
      aborted := false;
      backendAccepts := 0;
      backendAborts := 0;
    }

    /** server_socket::accept */
    method Accept() returns (f: AcceptFuture)
      modifies this`backendAccepts
      ensures old(aborted) ==> f == Failed(ECONNABORTED) && backendAccepts == old(backendAccepts)
      ensures !old(aborted) ==> f == FromBackend && backendAccepts == old(backendAccepts) + 1
    {
      if aborted {
        return Failed(ECONNABORTED);
      }
      f := BackendAccept();
    }

    /** _ssi->accept() */
    method BackendAccept() returns (f: AcceptFuture)
      modifies this`backendAccepts
      ensures f == FromBackend && backendAccepts == old(backendAccepts) + 1
    {
      backendAccepts := backendAccepts + 1;
      f := FromBackend;
    }

    /** server_socket::abort_accept: forwards to the backend, then sets
        _aborted for good. */
    method AbortAccept()
      modifies this`aborted, this`backendAborts
      ensures aborted && backendAborts == old(backendAborts) + 1
    {
      backendAborts := backendAborts + 1;
      aborted := true;
    }
  }

  /** Aborting twice and then accepting fails with ECONNABORTED, and the
      backend sees no accept. */
  method AbortTwiceThenAccept(ss: ServerSocket) returns (f: AcceptFuture)
    modifies ss
    ensures ss.aborted && f == Failed(ECONNABORTED)
    ensures ss.backendAccepts == old(ss.backendAccepts)
    ensures ss.backendAborts == old(ss.backendAborts) + 2
  {
    ss.AbortAccept();
    ss.AbortAccept();
    f := ss.Accept();
  }

  // ---------------------------------------------------------------------
  // network_stack::connect

  datatype Transport = TCP | SCTP

  /** The arguments network_stack::connect hands to socket::connect. */
  datatype ConnectCall = ConnectCall(remote: SocketAddress, local: SocketAddress, proto: Transport)

  /** The wildcard address of an inet family. */
  ghost predicate IsWildcard(sa: SocketAddress, family: uint16)
    reads sa, sa.data
  {
    if family == AF_INET then sa.HoldsIpv4(0, 0)
    else if family == AF_INET6 then sa.HoldsIpv6([0, 0, 0, 0, 0, 0, 0, 0, 0, 0, 0, 0, 0, 0, 0, 0], 0)
    else false
  }

  /** socket_address(net::inet_address(family)): port 0, all-zero address. */
  method InetWildcard(family: uint16) returns (sa: SocketAddress)
    requires family == AF_INET || family == AF_INET6
    ensures fresh(sa) && fresh(sa.data) && IsWildcard(sa, family)
  {
    if family == AF_INET {
      sa := new SocketAddress.FromIpv4(Ipv4Addr(0, 0));
    } else {
      sa := new SocketAddress.FromIpv6(Ipv6Addr([0, 0, 0, 0, 0, 0, 0, 0, 0, 0, 0, 0, 0, 0, 0, 0], 0));
    }
  }

  /** network_stack::connect: a local address equal to socket_address() is
      replaced by socket_address(net::inet_address(sa.addr().in_family())),
      which for an inet remote is the wildcard of its family; any other
      local address is kept. For a remote of another family, such as a
      Unix-domain one, what inet_address makes of its family is decided
      outside this model and arrives as `otherWildcard`. The comparison is
      the source's `==`, that is EqualsAsWritten. */
  method Connect(sa: SocketAddress, local: SocketAddress, otherWildcard: SocketAddress, proto: Transport)
    returns (call: ConnectCall)
    requires sa.Valid() && local.Valid()
    ensures call.remote == sa && call.proto == proto
    ensures !local.HoldsIpv4(0, 0) ==> call.local == local
    ensures local.HoldsIpv4(0, 0) && (sa.family == AF_INET || sa.family == AF_INET6) ==>
              fresh(call.local) && IsWildcard(call.local, sa.family)
    ensures local.HoldsIpv4(0, 0) && sa.family != AF_INET && sa.family != AF_INET6 ==>
              call.local == otherWildcard
  {
    var l := local;
    var empty := new SocketAddress.Default();
    EqualsDefaultIff(local, empty);
    if local.EqualsAsWritten(empty) {
      if sa.family == AF_INET || sa.family == AF_INET6 {
        l := InetWildcard(sa.family);
      } else {
        l := otherWildcard;
      }
    }
    call := ConnectCall(sa, l, proto);
  }
}

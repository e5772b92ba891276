/** The text forms of Unix-domain addresses (`operator<<` on a
    unix_domain_addr and `printable_ud_addr` on a socket_address) and the
    hash of a unix_domain_addr. */
module UnixAddressText {
  import opened CLib
  import opened UnixAddress
  import opened SocketDefs

  const Unnamed: string := "{unnamed}"

  /** What operator<< writes for `addr`: "{unnamed}" for an empty address,
      the name as it is for a filesystem path, and '@' followed by the bytes
      after the leading NUL, non-printables shown as '_', for an abstract one. */
  function RenderText(addr: UnixDomainAddr): string
    requires addr.WellFormed()
  {
    if addr.pathByteCount == 0 then Unnamed
    else if addr.localPath[0] != 0 then Chars(addr.Name())
    else "@" + PrintableChars(addr.localPath[1..addr.pathByteCount])
  }

  /** operator<<(std::ostream&, const unix_domain_addr&): the loop counts k
      down from path_length() while src walks the bytes after the first. */
  method Render(addr: UnixDomainAddr) returns (text: string)
    requires addr.WellFormed()
    ensures text == RenderText(addr)
  {
    if addr.pathByteCount == 0 {
      return Unnamed;
    }
    if addr.localPath[0] != 0 {
      return Chars(addr.Name());
    }
    text := "@";
    var src := 1;
    var k := addr.pathByteCount - 1;
    while k > 0
      invariant 1 <= src <= addr.pathByteCount && k == addr.pathByteCount - src
      invariant text == "@" + PrintableChars(addr.localPath[1..src])
    {
      text := text + [PrintChar(addr.localPath[src])];
      k := k - 1;
      src := src + 1;
    }
  }

  /** The rendering rules, stated case by case. */
  lemma RenderTextCases(addr: UnixDomainAddr)
    requires addr.WellFormed()
    ensures addr.pathByteCount == 0 ==> RenderText(addr) == "{unnamed}"
    ensures addr.pathByteCount > 0 && addr.localPath[0] != 0 ==>
              RenderText(addr) == Chars(addr.localPath[..addr.pathByteCount])
    ensures addr.pathByteCount > 0 && addr.localPath[0] == 0 ==>
              var r := RenderText(addr);
              |r| == addr.pathByteCount && r[0] == '@' &&
              forall i :: 1 <= i < addr.pathByteCount ==> r[i] == PrintChar(addr.localPath[i])
  {
  }

  /** The single-byte abstract address {0} renders as "@". */
  lemma RenderSingleNul()
    ensures RenderText(UnixDomainAddr(PathOf([0]), 1)) == "@"
  {
    assert PathOf([0])[0] == 0;
  }

  /** The abstract address {0,'a','b'} renders as "@ab", and /tmp as "/tmp". */
  lemma RenderExamples()
    ensures RenderText(UnixDomainAddr(PathOf([0, 97, 98]), 3)) == "@ab"
    ensures RenderText(UnixDomainAddr(PathOf([47, 116, 109, 112]), 4)) == "/tmp"
  {
    var a := UnixDomainAddr(PathOf([0, 97, 98]), 3);
    assert a.localPath[..3] == [0, 97, 98];
    assert a.localPath[1..3] == [97, 98];
    var b := UnixDomainAddr(PathOf([47, 116, 109, 112]), 4);
    assert b.Name() == [47, 116, 109, 112];
  }

  /** printable_ud_addr reads ud_path's bytes only inside sun_path. */
  predicate InBounds(sunPath: seq<byte>, addrLength: nat)
    requires |sunPath| == SunPathSize
  {
    addrLength > SunPathOffset && sunPath[0] == 0 ==> addrLength <= SunPathOffset + SunPathSize
  }

  /** What printable_ud_addr returns for a Unix-domain socket_address with
      the given sun_path and addr_length. */
  function PrintableText(sunPath: seq<byte>, addrLength: nat): string
    requires |sunPath| == SunPathSize && InBounds(sunPath, addrLength)
  {
    if addrLength <= SunPathOffset then Unnamed
    else if sunPath[0] != 0 then Chars(CString(sunPath))
    else "@" + PrintableChars(sunPath[1..addrLength - SunPathOffset])
  }

  /** printable_ud_addr(const socket_address&): the abstract case fills the
      ud_path array through the moving pointer targ. */
  method PrintableUdAddr(sa: SocketAddress) returns (text: string)
    requires sa.Valid() && sa.family == AF_UNIX
    requires InBounds(sa.data[..], sa.addrLength)
    ensures text == PrintableText(sa.data[..], sa.addrLength)
  {
    if sa.addrLength <= SunPathOffset {
      return Unnamed;
    }
    if sa.data[0] != 0 {
      return Chars(CString(sa.data[..]));
    }
    var pathLength := sa.addrLength - SunPathOffset;
    var udPath := new char[1 + pathLength];
    var targ := 0;
    udPath[targ] := '@';
    targ := targ + 1;
    var src := 1;
    var k := pathLength - 1;
    while k > 0
      invariant 1 <= src <= pathLength && targ == src && k == pathLength - src
      invariant udPath[0] == '@'
      invariant forall j :: 1 <= j < targ ==> udPath[j] == PrintChar(sa.data[j])
    {
      udPath[targ] := PrintChar(sa.data[src]);
      targ := targ + 1;
      src := src + 1;
      k := k - 1;
    }
    text := udPath[..pathLength];
    assert text == "@" + PrintableChars(sa.data[1..pathLength]);
  }

  /** The cases of printable_ud_addr: "{unnamed}" when addr_length does not
      reach past the family field, sun_path's C string for a filesystem
      path, and for an abstract address exactly addr_length - offset
      characters, '@' first. */
  lemma PrintableTextCases(sunPath: seq<byte>, addrLength: nat)
    requires |sunPath| == SunPathSize && InBounds(sunPath, addrLength)
    ensures addrLength <= SunPathOffset ==> PrintableText(sunPath, addrLength) == "{unnamed}"
    ensures addrLength > SunPathOffset && sunPath[0] != 0 ==>
              PrintableText(sunPath, addrLength) == Chars(CString(sunPath))
    ensures addrLength > SunPathOffset && sunPath[0] == 0 ==>
              var r := PrintableText(sunPath, addrLength);
              |r| == addrLength - SunPathOffset && r[0] == '@' &&
              forall i :: 1 <= i < |r| ==> r[i] == PrintChar(sunPath[i])
  {
    if addrLength > SunPathOffset && sunPath[0] == 0 {
      var t := PrintableChars(sunPath[1..addrLength - SunPathOffset]);
      assert PrintableText(sunPath, addrLength) == "@" + t;
      assert forall i :: 1 <= i < 1 + |t| ==> ("@" + t)[i] == t[i - 1];
    }
  }

  /** For an address that fits sun_path, printable_ud_addr of the
      socket_address built from it says what operator<< says of the address
      itself, except for a filesystem path whose counted bytes hold a NUL. */
  lemma {:induction false} PrintableMatchesRender(addr: UnixDomainAddr)
    requires addr.WellFormed()
    requires addr.pathByteCount > 0 && addr.localPath[0] != 0 ==> 0 !in addr.Name()
    ensures InBounds(UnixSunPath(addr), ClampedCount(addr) + SunPathOffset)
    ensures PrintableText(UnixSunPath(addr), ClampedCount(addr) + SunPathOffset) == RenderText(addr)
  {
    var p, n := UnixSunPath(addr), addr.pathByteCount;
    if n > 0 && addr.localPath[0] == 0 {
      assert p[1..n] == addr.localPath[1..n];
    } else if n > 0 {
      assert p[..n] == addr.Name();
      CStringOfPrefix(p, n);
    }
  }

  /** Where the renderers disagree: the filesystem name {'a',0} with count 2
      is written by operator<< as its two bytes, while printable_ud_addr
      stops at the NUL and returns "a". */
  lemma RenderersDisagreeOnEmbeddedNul()
    ensures var addr := UnixDomainAddr(PathOf([97, 0]), 2);
            |RenderText(addr)| == 2 &&
            InBounds(UnixSunPath(addr), ClampedCount(addr) + SunPathOffset) &&
            PrintableText(UnixSunPath(addr), ClampedCount(addr) + SunPathOffset) == "a"
  {
    var addr := UnixDomainAddr(PathOf([97, 0]), 2);
    var p := UnixSunPath(addr);
    assert p[0] == 97 && p[1] == 0;
    assert CString(p[1..]) == [];
    assert CString(p) == [97];
  }

  /** std::hash<unix_domain_addr>: std::hash<std::string> of the name; the
      string hash itself is a parameter. */
  function Hash(addr: UnixDomainAddr, stringHash: seq<byte> -> uint64): uint64
    requires addr.WellFormed()
  {
    stringHash(addr.Name())
  }

  /** Equal addresses hash equally for every string hash. */
  lemma HashConsistentWithEqual(a: UnixDomainAddr, b: UnixDomainAddr, stringHash: seq<byte> -> uint64)
    requires a.WellFormed() && b.WellFormed() && Equal(a, b)
    ensures Hash(a, stringHash) == Hash(b, stringHash)
  {
    EqualIffSameName(a, b);
  }
}

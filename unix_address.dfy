/** `unix_domain_addr`: a Unix-domain path buffer together with the count of
    its meaningful bytes. The count, not a terminating NUL, fixes the
    length, so addresses in the Linux abstract namespace (first byte NUL)
    and paths with embedded NULs are represented exactly. */
module UnixAddress {
  import opened CLib

  /** un_path_size: sizeof(sockaddr_un::sun_path) on Linux. */
  const UnPathSize: nat := 108

  type PathBuffer = s: seq<byte> | |s| == UnPathSize witness seq(UnPathSize, _ => 0)

  /** local_path and path_byte_count. path_length() is pathByteCount and
      path_bytes() is localPath. */
  datatype UnixDomainAddr = UnixDomainAddr(localPath: PathBuffer, pathByteCount: nat)
  {
    /** The counted bytes lie inside local_path. */
    predicate WellFormed() {
      pathByteCount <= UnPathSize
    }

    /** The address's name as a string: its counted bytes, NULs included. */
    function Name(): (r: seq<byte>)
      requires WellFormed()
      ensures |r| == pathByteCount
      ensures forall i :: 0 <= i < |r| ==> r[i] == localPath[i]
    {
      localPath[..pathByteCount]
    }
  }

  /** The memcmp in `==` reads path_byte_count bytes of both buffers only
      when the counts agree. */
  predicate Comparable(a: UnixDomainAddr, b: UnixDomainAddr) {
    a.pathByteCount == b.pathByteCount ==> a.pathByteCount <= UnPathSize
  }

  /** unix_domain_addr::operator== */
  function Equal(a: UnixDomainAddr, b: UnixDomainAddr): (r: bool)
    requires Comparable(a, b)
    ensures r <==> a.pathByteCount == b.pathByteCount &&
                   forall i :: 0 <= i < a.pathByteCount ==> a.localPath[i] == b.localPath[i]
  {
    assert a.pathByteCount == b.pathByteCount ==>
      (a.localPath[..a.pathByteCount] == b.localPath[..a.pathByteCount] <==>
       forall i :: 0 <= i < a.pathByteCount ==> a.localPath[i] == b.localPath[i]);
    a.pathByteCount == b.pathByteCount && MemCmp(a.localPath, b.localPath, a.pathByteCount) == 0
  }

  /** unix_domain_addr::operator!= */
  function NotEqual(a: UnixDomainAddr, b: UnixDomainAddr): (r: bool)
    requires Comparable(a, b)
    ensures r <==> a.pathByteCount != b.pathByteCount ||
                   exists i :: 0 <= i < a.pathByteCount && a.localPath[i] != b.localPath[i]
  {
    !Equal(a, b)
  }

  /** `!=` is exactly the negation of `==`. */
  lemma NotEqualIsNegation(a: UnixDomainAddr, b: UnixDomainAddr)
    requires Comparable(a, b)
    ensures NotEqual(a, b) == !Equal(a, b)
  {
  }

  /** Bytes at or beyond path_byte_count never affect equality. */
  lemma EqualIgnoresUncountedBytes(a: UnixDomainAddr, a': UnixDomainAddr, b: UnixDomainAddr)
    requires a.WellFormed() && a'.pathByteCount == a.pathByteCount
    requires a'.localPath[..a.pathByteCount] == a.localPath[..a.pathByteCount]
    ensures Comparable(a, b) && Comparable(a', b)
    ensures Equal(a', b) == Equal(a, b)
  {
    assert forall i :: 0 <= i < a.pathByteCount ==> a'.localPath[i] == a.localPath[..a.pathByteCount][i];
  }

  /** Different counts are unequal, even when one address's meaningful bytes
      are a prefix of the other's. */
  lemma DifferentCountsUnequal(a: UnixDomainAddr, b: UnixDomainAddr)
    requires a.pathByteCount < b.pathByteCount <= UnPathSize
    requires a.Name() == b.Name()[..a.pathByteCount]
    ensures !Equal(a, b) && !Equal(b, a)
  {
  }

  /** `==` is an equivalence relation on well-formed addresses. */
  lemma EqualIsEquivalence(a: UnixDomainAddr, b: UnixDomainAddr, c: UnixDomainAddr)
    requires a.WellFormed() && b.WellFormed() && c.WellFormed()
    ensures Equal(a, a)
    ensures Equal(a, b) == Equal(b, a)
    ensures Equal(a, b) && Equal(b, c) ==> Equal(a, c)
  {
  }

  /** Equality is equality of the names. */
  lemma EqualIffSameName(a: UnixDomainAddr, b: UnixDomainAddr)
    requires a.WellFormed() && b.WellFormed()
    ensures Equal(a, b) <==> a.Name() == b.Name()
  {
    if a.Name() == b.Name() {
      assert forall i :: 0 <= i < a.pathByteCount ==> a.localPath[i] == a.Name()[i];
    }
  }

  /** A path buffer holding `bytes` followed by zeros. */
  function PathOf(bytes: seq<byte>): (p: PathBuffer)
    requires |bytes| <= UnPathSize
    ensures p[..|bytes|] == bytes
  {
    bytes + seq(UnPathSize - |bytes|, _ => 0)
  }

  /** The abstract names {0,'1','1','1'} and {0,'1','1','2'} differ although
      they agree up to their first NUL (where both C strings are empty). */
  lemma AbstractNamesDifferAfterNul()
    ensures var a := UnixDomainAddr(PathOf([0, 49, 49, 49]), 4);
            var b := UnixDomainAddr(PathOf([0, 49, 49, 50]), 4);
            CString(a.localPath) == CString(b.localPath) == [] && !Equal(a, b)
  {
    var a := UnixDomainAddr(PathOf([0, 49, 49, 49]), 4);
    var b := UnixDomainAddr(PathOf([0, 49, 49, 50]), 4);
    assert a.localPath[3] == 49 && b.localPath[3] == 50;
  }

  /** Bytes after an embedded NUL count: {0,'1',0,'\12','1'} and
      {0,'1',0,'\12','2'} differ only in their last byte. */
  lemma EmbeddedNulNamesDiffer()
    ensures !Equal(UnixDomainAddr(PathOf([0, 49, 0, 10, 49]), 5),
                   UnixDomainAddr(PathOf([0, 49, 0, 10, 50]), 5))
  {
    assert PathOf([0, 49, 0, 10, 49])[4] == 49;
  }

  /** {0,'a','b'} with count 3 differs from {0,'a','b',0} with count 4. */
  lemma TrailingNulCounts()
    ensures !Equal(UnixDomainAddr(PathOf([0, 97, 98]), 3),
                   UnixDomainAddr(PathOf([0, 97, 98, 0]), 4))
  {
  }
}

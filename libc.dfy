/** The C library primitives the socket-address code relies on, stated over
    byte sequences: memcmp, strcmp and the C-string view of a buffer, the
    C-locale isprint, htons/htonl (big-endian encoding) and the byte copies
    (memset, memcpy, std::copy) as in-place array methods. */
module CLib {

  type byte = x: int | 0 <= x < 0x100
  type uint16 = x: int | 0 <= x < 0x1_0000
  type uint32 = x: int | 0 <= x < 0x1_0000_0000
  type uint64 = x: int | 0 <= x < 0x1_0000_0000_0000_0000

  /** The bytes of `s` before its first NUL, or all of `s` when it has none
      (a read past the end of a buffer is not modelled). */
  function CString(s: seq<byte>): (r: seq<byte>)
    ensures |r| <= |s| && r == s[..|r|]
    ensures forall i :: 0 <= i < |r| ==> r[i] != 0
    ensures |r| < |s| ==> s[|r|] == 0
  {
    if |s| == 0 || s[0] == 0 then [] else [s[0]] + CString(s[1..])
  }

  /** A buffer's C string is its first n bytes when those hold no NUL and
      the buffer has a NUL at n or ends there. */
  lemma {:induction false} CStringOfPrefix(p: seq<byte>, n: nat)
    requires n <= |p| && 0 !in p[..n]
    requires n < |p| ==> p[n] == 0
    ensures CString(p) == p[..n]
  {
    if n > 0 {
      assert p[0] == p[..n][0];
      assert p[1..][..n - 1] == p[..n][1..];
      CStringOfPrefix(p[1..], n - 1);
      assert p[..n] == [p[0]] + p[1..][..n - 1];
    }
  }

  /** memcmp(p, q, n): zero exactly when the first n bytes agree. C promises
      only the sign of a non-zero result; this model returns the difference
      of the first differing bytes read as unsigned char, which has it. */
  function MemCmp(p: seq<byte>, q: seq<byte>, n: nat): (r: int)
    requires n <= |p| && n <= |q|
    ensures r == 0 <==> p[..n] == q[..n]
    ensures r != 0 ==> exists k :: 0 <= k < n && p[..k] == q[..k] && r == p[k] as int - q[k] as int
  {
    if n == 0 then 0
    else if p[0] != q[0] then
      assert p[..0] == q[..0];
      p[0] as int - q[0] as int
    else
      var r := MemCmp(p[1..], q[1..], n - 1);
      assert p[..n] == [p[0]] + p[1..][..n - 1] && q[..n] == [q[0]] + q[1..][..n - 1];
      if r != 0 then
        var k :| 0 <= k < n - 1 && p[1..][..k] == q[1..][..k] && r == p[1..][k] as int - q[1..][k] as int;
        assert p[..k + 1] == [p[0]] + p[1..][..k] && q[..k + 1] == [q[0]] + q[1..][..k];
        r
      else r
  }

  /** The byte strcmp reads at index i of a buffer: the buffer's end counts
      as a terminator. */
  function ByteAt(s: seq<byte>, i: nat): byte {
    if i < |s| then s[i] else 0
  }

  /** strcmp on the C strings held in two buffers, from index i on: zero
      when none differs before a shared NUL, otherwise a value with the sign
      of the difference of the bytes at the first index where they differ,
      every byte before it shared and non-NUL. C promises only that sign;
      this model returns the difference itself. */
  function StrCmpFrom(p: seq<byte>, q: seq<byte>, i: nat): (r: int)
    ensures -0xFF <= r <= 0xFF
    ensures r != 0 ==> exists k :: i <= k && ByteAt(p, k) != ByteAt(q, k) &&
                                   r == ByteAt(p, k) as int - ByteAt(q, k) as int &&
                                   forall j :: i <= j < k ==> ByteAt(p, j) == ByteAt(q, j) != 0
    decreases |p| + |q| - i
  {
    var c, d := ByteAt(p, i), ByteAt(q, i);
    if c != d then c as int - d as int
    else if c == 0 then 0
    else StrCmpFrom(p, q, i + 1)
  }

  /** strcmp(p, q): zero exactly when the two C strings are equal. */
  function StrCmp(p: seq<byte>, q: seq<byte>): (r: int)
    ensures r == 0 <==> CString(p) == CString(q)
  {
    StrCmpFromZeroIff(p, q, 0);
    assert p[0..] == p && q[0..] == q;
    StrCmpFrom(p, q, 0)
  }

  /** The C string from index i: empty at a NUL or the buffer's end,
      otherwise the byte at i followed by the C string from i + 1. */
  lemma CStringAt(p: seq<byte>, i: nat)
    requires i <= |p|
    ensures ByteAt(p, i) == 0 ==> CString(p[i..]) == []
    ensures ByteAt(p, i) != 0 ==> CString(p[i..]) == [ByteAt(p, i)] + CString(p[i + 1..])
  {
    if i < |p| {
      assert p[i..][1..] == p[i + 1..];
    }
  }

  lemma {:induction false} StrCmpFromZeroIff(p: seq<byte>, q: seq<byte>, i: nat)
    requires i <= |p| && i <= |q|
    ensures StrCmpFrom(p, q, i) == 0 <==> CString(p[i..]) == CString(q[i..])
    decreases |p| + |q| - i
  {
    CStringAt(p, i);
    CStringAt(q, i);
    var c := ByteAt(p, i);
    if c == ByteAt(q, i) && c != 0 {
      StrCmpFromZeroIff(p, q, i + 1);
    }
  }

  /** std::isprint in the C locale. */
  predicate IsPrint(b: byte) {
    0x20 <= b <= 0x7E
  }

  function ByteChar(b: byte): char {
    b as char
  }

  /** The character the renderers emit for byte b: b itself if printable, '_' otherwise. */
  function PrintChar(b: byte): (c: char)
    ensures IsPrint(b) ==> c == ByteChar(b)
    ensures !IsPrint(b) ==> c == '_'
    ensures 0x20 <= c as int <= 0x7E
  {
    if IsPrint(b) then ByteChar(b) else '_'
  }

  /** Bytes written to a character stream as they are. */
  function Chars(s: seq<byte>): (r: string)
    ensures |r| == |s| && forall i :: 0 <= i < |s| ==> r[i] == ByteChar(s[i])
  {
    seq(|s|, i requires 0 <= i < |s| => ByteChar(s[i]))
  }

  /** Bytes with every non-printable one replaced by '_'. */
  function PrintableChars(s: seq<byte>): (r: string)
    ensures |r| == |s| && forall i :: 0 <= i < |s| ==> r[i] == PrintChar(s[i])
  {
    seq(|s|, i requires 0 <= i < |s| => PrintChar(s[i]))
  }

  /** htons: a 16-bit value in network (big-endian) byte order. */
  function Be16(v: uint16): (r: seq<byte>)
    ensures |r| == 2
    ensures r[0] as int * 0x100 + r[1] as int == v as int
  {
    [v / 0x100, v % 0x100]
  }

  function DecodeBe16(b: seq<byte>): uint16
    requires |b| == 2
  {
    b[0] as int * 0x100 + b[1] as int
  }

  /** htonl: a 32-bit value in network (big-endian) byte order. */
  function Be32(v: uint32): (r: seq<byte>)
    ensures |r| == 4
    ensures ((r[0] as int * 0x100 + r[1] as int) * 0x100 + r[2] as int) * 0x100 + r[3] as int == v as int
  {
    Be16(v / 0x1_0000) + Be16(v % 0x1_0000)
  }

  function DecodeBe32(b: seq<byte>): uint32
    requires |b| == 4
  {
    DecodeBe16(b[..2]) * 0x1_0000 + DecodeBe16(b[2..])
  }

  lemma Be16RoundTrip(v: uint16, b: seq<byte>)
    requires |b| == 2
    ensures DecodeBe16(Be16(v)) == v
    ensures Be16(DecodeBe16(b)) == b
  {
  }

  lemma Be32RoundTrip(v: uint32, b: seq<byte>)
    requires |b| == 4
    ensures DecodeBe32(Be32(v)) == v
    ensures Be32(DecodeBe32(b)) == b
  {
    var e := Be32(v);
    Be16RoundTrip(v / 0x1_0000, e[..2]);
    Be16RoundTrip(v % 0x1_0000, e[2..]);
    assert e[..2] == Be16(v / 0x1_0000) && e[2..] == Be16(v % 0x1_0000);
    Be16RoundTrip(0, b[..2]);
    Be16RoundTrip(0, b[2..]);
    var d := DecodeBe32(b);
    assert d / 0x1_0000 == DecodeBe16(b[..2]) && d % 0x1_0000 == DecodeBe16(b[2..]);
    assert b == b[..2] + b[2..];
  }

  /** Big-endian encoding is injective, so equal encodings mean equal values. */
  lemma Be16Injective(v: uint16, w: uint16)
    ensures Be16(v) == Be16(w) <==> v == w
  {
    Be16RoundTrip(v, Be16(v));
    Be16RoundTrip(w, Be16(w));
  }

  lemma Be32Injective(v: uint32, w: uint32)
    ensures Be32(v) == Be32(w) <==> v == w
  {
    Be32RoundTrip(v, Be32(v));
    Be32RoundTrip(w, Be32(w));
  }

  /** memset(buf + off, 0, n) */
  method Zero(buf: array<byte>, off: nat, n: nat)
    requires off + n <= buf.Length
    modifies buf
    ensures buf[..] == old(buf[..off]) + seq(n, _ => 0) + old(buf[off + n..])
  {
    var i := 0;
    while i < n
      invariant 0 <= i <= n
      invariant forall k :: 0 <= k < off ==> buf[k] == old(buf[k])
      invariant forall k :: off <= k < off + i ==> buf[k] == 0
      invariant forall k :: off + i <= k < buf.Length ==> buf[k] == old(buf[k])
    {
      buf[off + i] := 0;
      i := i + 1;
    }
    assert buf[..] == old(buf[..off]) + seq(n, _ => 0) + old(buf[off + n..]);
  }

  /** memcpy(buf + off, bytes, |bytes|), also std::copy into a byte buffer. */
  method Copy(buf: array<byte>, off: nat, bytes: seq<byte>)
    requires off + |bytes| <= buf.Length
    modifies buf
    ensures buf[..] == old(buf[..off]) + bytes + old(buf[off + |bytes|..])
  {
    var i := 0;
    while i < |bytes|
      invariant 0 <= i <= |bytes|
      invariant forall k :: 0 <= k < off ==> buf[k] == old(buf[k])
      invariant forall k :: 0 <= k < i ==> buf[off + k] == bytes[k]
      invariant forall k :: off + i <= k < buf.Length ==> buf[k] == old(buf[k])
    {
      buf[off + i] := bytes[i];
      i := i + 1;
    }
    assert buf[..] == old(buf[..off]) + bytes + old(buf[off + |bytes|..]);
  }

  function Min(a: int, b: int): int {
    if a <= b then a else b
  }

  /** A C string (a sequence holding a NUL) is longer than its text. */
  lemma CStringOfTerminated(s: seq<byte>)
    requires 0 in s
    ensures |CString(s)| < |s|
  {
  }

  /** strncpy(dst, src, n) for a C string src: copies src's bytes before its
      first NUL, at most n of them, then pads with NULs up to n bytes. */
  method StrNCpy(dst: array<byte>, src: seq<byte>, n: nat)
    requires n <= dst.Length
    requires 0 in src
    modifies dst
    ensures var m := Min(|CString(src)|, n);
            (forall k :: 0 <= k < m ==> dst[k] == src[k]) &&
            (forall k :: m <= k < n ==> dst[k] == 0) &&
            (forall k :: n <= k < dst.Length ==> dst[k] == old(dst[k]))
  {
    CStringOfTerminated(src);
    ghost var text := CString(src);
    var i := 0;
    while i < n && src[i] != 0
      invariant 0 <= i <= n && i <= |text|
      invariant forall k :: 0 <= k < i ==> dst[k] == src[k]
      invariant forall k :: i <= k < dst.Length ==> dst[k] == old(dst[k])
    {
      dst[i] := src[i];
      i := i + 1;
    }
    ghost var m := i;
    assert m == Min(|text|, n);
    while i < n
      invariant m <= i <= n
      invariant forall k :: 0 <= k < m ==> dst[k] == src[k]
      invariant forall k :: m <= k < i ==> dst[k] == 0
      invariant forall k :: i <= k < dst.Length ==> dst[k] == old(dst[k])
    {
      dst[i] := 0;
      i := i + 1;
    }
  }
}

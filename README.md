# Seastar socket addresses in Dafny

A model of the socket-address layer of Seastar's networking code, with proofs about it:

- `unix_domain_addr`: a Unix-domain path buffer plus an explicit count of meaningful bytes, and its `==`/`!=`.
- `socket_address`: its constructors, which write `sockaddr_in`, `sockaddr_in6` or `sockaddr_un` into the address union, and its family-aware `operator==`.
- The two text forms of a Unix-domain address (`operator<<` and `printable_ud_addr`) and its hash.
- The abort flag of `server_socket` and the local-address substitution in `network_stack::connect`.

Files, one module each:

- `libc.dfy` (`CLib`): the C library pieces the code relies on: `memcmp`, `strcmp`, the C-string view of a buffer, `strncpy`, `memset`/`memcpy`, `isprint` in the C locale, and `htons`/`htonl` as big-endian encoding (the sockaddr layout of section 3.3 of RFC 3493).
- `unix_address.dfy` (`UnixAddress`): `unix_domain_addr` as a datatype, and its equality.
- `socket_defs.dfy` (`SocketDefs`): `socket_address` as a class. It has a `family` field, `data` (a 108-byte array holding the union's bytes after the family field) and `addrLength`. The constructors write `data` in place. Bytes a constructor does not write are left unconstrained, and so is `addr_length` in every constructor except the memcpy Unix one.
- `unix_address_text.dfy` (`UnixAddressText`): `operator<<`, `printable_ud_addr` and `std::hash<unix_domain_addr>`.
- `stack.dfy` (`Stack`): the properties of the constructors and of `operator==`, plus `server_socket` and `network_stack::connect`.

Names mapped onto the header's fields:

- `path_length()` is `path_byte_count`.
- `path_bytes()` is `local_path`.
- `name` (in `unix_address.cc`) and `sfile_` (in `stack.cc`) do not exist in the header. Both are read as the string of counted bytes `local_path[..path_byte_count]`, embedded NULs included.

The two `socket_address(const unix_domain_addr&)` definitions are kept apart:

- `FromUnix` is the `memset`/`memcpy` version.
- `FromUnixStrncpy` is the older `strncpy` version.

Linux constants: `AF_UNIX` = 1, `AF_INET` = 2, `AF_INET6` = 10, `ECONNABORTED` = 103. `sizeof(sun_path)` = 108 and `offsetof(sockaddr_un, sun_path)` = 2.

The code is inconsistent with itself in four places, and the model keeps each side as written:

- `unix_domain_addr::operator==` compares the counted bytes. `socket_address::operator==` compares `sun_path` with `strcmp`, which stops at the first NUL, so all abstract-namespace addresses compare equal there (the comment at src/net/stack.cc:213 says abstract names are not supported yet).
- The `memcpy` constructor copies up to 108 bytes. The `strncpy` constructor copies up to 107 and stops at the first NUL.
- The hash reads `name`, which the header does not declare (see the mapping above).
- `operator<<` writes all of a filesystem name's counted bytes, while `printable_ud_addr` stops at the first NUL in `sun_path`, so the two disagree on a filesystem name holding a NUL (`RenderersDisagreeOnEmbeddedNul`).

## Model

| member | source | states |
|---|---|---|
| `CLib.MemCmp` | include/seastar/net/unix_address.hh:44 | memcmp is zero exactly when the first n bytes agree; otherwise it is non-zero with the sign of the first differing bytes' difference (C promises only the sign; the model returns that difference, and the code only tests for zero) |
| `CLib.CString` | src/net/stack.cc:214 | the C string in a buffer is the prefix before the first NUL: no NUL inside it, and a NUL right after it unless the buffer ends |
| `CLib.StrCmpFrom` | src/net/stack.cc:214 | strcmp from index i: a non-zero result has the sign of the difference of the bytes at the first index where the buffers differ, every earlier byte being shared and non-NUL (C promises only the sign; the model returns that difference, and the code only tests for zero); the result lies in -255..255 |
| `CLib.StrCmp` | src/net/stack.cc:214 | strcmp returns 0 exactly when the two buffers hold the same C string |
| `CLib.StrNCpy` | src/net/stack.cc:200 | strncpy copies the bytes before the source's first NUL, at most n of them, pads with NULs up to n and leaves the rest of the buffer alone |
| `CLib.Zero` | src/net/unix_address.cc:37 | memset zeroes exactly the given range |
| `CLib.Copy` | src/net/unix_address.cc:39 | memcpy/std::copy puts the bytes at the offset and changes nothing else |
| `CLib.PrintChar` | src/net/unix_address.cc:56 | `isprint(b) ? b : '_'`: a printable byte (C locale, 0x20..0x7E) is kept, any other becomes '_', so every character emitted is printable |
| `CLib.Be16` | src/net/stack.cc:182 | htons: two bytes, most significant first, that read back as the port |
| `CLib.Be32` | src/net/stack.cc:183 | htonl: four bytes, most significant first, that read back as the address |
| `CLib.Be16RoundTrip` | src/net/stack.cc:182 | decoding the htons bytes gives the port back, and encoding a decoded pair of bytes gives the bytes back |
| `CLib.Be32RoundTrip` | src/net/stack.cc:183 | the same round trip for htonl and the 4 address bytes |
| `CLib.Be16Injective` | src/net/stack.cc:216 | equal port bytes mean equal ports |
| `CLib.Be32Injective` | src/net/stack.cc:221 | equal address bytes mean equal IPv4 addresses |
| `UnixAddress.UnixDomainAddr.Name` | src/net/unix_address.cc:47-49 | the name is the path_byte_count bytes of local_path |
| `UnixAddress.Equal` | include/seastar/net/unix_address.hh:42-45 | equal exactly when the byte counts match and the first path_byte_count bytes of local_path match |
| `UnixAddress.NotEqual` | include/seastar/net/unix_address.hh:47-49 | unequal exactly when the counts differ or some counted byte differs |
| `UnixAddress.NotEqualIsNegation` | include/seastar/net/unix_address.hh:47-49 | != is exactly the negation of == |
| `UnixAddress.EqualIgnoresUncountedBytes` | include/seastar/net/unix_address.hh:44 | bytes of local_path at or past path_byte_count never change the outcome of == |
| `UnixAddress.DifferentCountsUnequal` | include/seastar/net/unix_address.hh:43 | different counts are unequal even when one name is a prefix of the other |
| `UnixAddress.EqualIsEquivalence` | include/seastar/net/unix_address.hh:42-45 | on well-formed values == is reflexive, symmetric and transitive |
| `UnixAddress.EqualIffSameName` | include/seastar/net/unix_address.hh:42-45 | on well-formed values == is equality of the counted byte strings |
| `UnixAddress.PathOf` | tests/unit/unix_domain_test.cc:173-174 | a zero-padded path buffer starts with the given bytes |
| `UnixAddress.AbstractNamesDifferAfterNul` | tests/unit/unix_domain_test.cc:173-174 | {0,'1','1','1'} and {0,'1','1','2'} are unequal though their C strings are both empty |
| `UnixAddress.EmbeddedNulNamesDiffer` | tests/unit/unix_domain_test.cc:182-183 | {0,'1',0,'\12','1'} and {0,'1',0,'\12','2'} are unequal |
| `UnixAddress.TrailingNulCounts` | include/seastar/net/unix_address.hh:43 | {0,'a','b'} with count 3 differs from {0,'a','b',0} with count 4 |
| `SocketDefs.ClampedCount` | src/net/unix_address.cc:38 | the copied count is path_length when it fits, and exactly sizeof(sun_path) when it does not |
| `SocketDefs.UnixSunPath` | src/net/unix_address.cc:36-39 | sun_path holds the first n path bytes, then zeros up to 108 bytes |
| `SocketDefs.LegacyUnixSunPath` | src/net/stack.cc:200-201 | sun_path holds the name's bytes before its first NUL, at most 107 of them, then zeros; sun_path[107] is always 0 |
| `SocketDefs.FamilyBytes` | src/net/stack.cc:228-231 | sa_family occupies two bytes at the start of sockaddr_in6, low byte first, and they read back as the family |
| `SocketDefs.In6AreAddrEqual` | src/net/stack.cc:231 | IN6_ARE_ADDR_EQUAL: the 16 bytes at the two pointers agree one by one |
| `SocketDefs.SocketAddress.Ipv4Union` | src/net/stack.cc:181-183 | a fresh union with sin_port = htons(port) and sin_addr = htonl(ip) |
| `SocketDefs.SocketAddress.FromIpv4` | src/net/stack.cc:179-184 | family AF_INET, port and address stored big-endian |
| `SocketDefs.SocketAddress.Default` | src/net/stack.cc:171-173 | the same encoding as socket_address(ipv4_addr()): AF_INET, port 0, address 0 |
| `SocketDefs.SocketAddress.FromPort` | src/net/stack.cc:175-177 | AF_INET with port p and address 0 |
| `SocketDefs.SocketAddress.FromIpAndPort` | src/net/stack.cc:204-206 | AF_INET with the given address and port, big-endian |
| `SocketDefs.SocketAddress.FromIpv6` | src/net/stack.cc:186-191 | family AF_INET6, port big-endian, the 16 address bytes copied in order |
| `SocketDefs.SocketAddress.FromUnix` | src/net/unix_address.cc:35-41 | AF_UNIX, sun_path = clamped copy then zeros, addr_length = copied count + offsetof(sun_path); never fails |
| `SocketDefs.SocketAddress.FromUnixStrncpy` | src/net/stack.cc:193-202 | AF_UNIX, sun_path as strncpy with limit 107 leaves it, last byte NUL |
| `SocketDefs.SocketAddress.Equals` | src/net/stack.cc:208-232 | false when families differ or the family is not Unix/IPv4/IPv6; Unix: same C string in sun_path; IPv4: same port and 32-bit address; IPv6: same port and all 16 address bytes (corrected; see ## Findings) |
| `SocketDefs.SocketAddress.EqualsAsWritten` | src/net/stack.cc:228-231 | as written, IPv6 equality compares the first 14 bytes after the family (port, flowinfo, first 8 address bytes); other families as Equals |
| `SocketDefs.CStringOfPadded` | src/net/stack.cc:200 | appending c_str's terminator does not change the C string |
| `UnixAddressText.RenderText` | src/net/unix_address.cc:43-59 | reference definition of operator<<; its cases are stated by RenderTextCases |
| `UnixAddressText.Render` | src/net/unix_address.cc:43-59 | operator<< writes RenderText of the address |
| `UnixAddressText.RenderTextCases` | src/net/unix_address.cc:44-57 | count 0 gives "{unnamed}"; a filesystem path gives its bytes; an abstract address gives '@' and then exactly count-1 characters, character i being byte i shown if printable and '_' if not |
| `UnixAddressText.RenderSingleNul` | src/net/unix_address.cc:52-57 | the one-byte address {0} renders as "@" |
| `UnixAddressText.RenderExamples` | src/net/unix_address.cc:43-59 | {0,'a','b'} renders as "@ab" and "/tmp" as "/tmp" |
| `UnixAddressText.PrintableText` | src/net/unix_address.cc:61-84 | reference definition of printable_ud_addr; its cases are stated by PrintableTextCases |
| `UnixAddressText.PrintableUdAddr` | src/net/unix_address.cc:61-84 | printable_ud_addr returns PrintableText: "{unnamed}" when addr_length <= offset, sun_path's C string for a filesystem path, the '@' form otherwise |
| `UnixAddressText.PrintableTextCases` | src/net/unix_address.cc:65-83 | "{unnamed}" when addr_length <= offset; sun_path up to its first NUL when sun_path[0] != 0; otherwise exactly addr_length - offset characters, '@' first, then each byte shown or replaced by '_' |
| `UnixAddressText.PrintableMatchesRender` | src/net/unix_address.cc:35-40 | for an address that fits sun_path, printable_ud_addr of its socket_address equals operator<< of the address (abstract and unnamed always; filesystem when the name holds no NUL) |
| `UnixAddressText.RenderersDisagreeOnEmbeddedNul` | src/net/unix_address.cc:47-49 | the filesystem name {'a',0} with count 2 is two characters under operator<< but "a" under printable_ud_addr, which stops at the NUL (src/net/unix_address.cc:70) |
| `UnixAddressText.Hash` | src/net/unix_address.cc:88-90 | std::hash of the name; its property is stated by HashConsistentWithEqual |
| `UnixAddressText.HashConsistentWithEqual` | src/net/unix_address.cc:88-90 | hashing the name makes equal addresses hash equally, whatever the string hash is |
| `Stack.Ipv4Decodes` | src/net/stack.cc:179-184 | decoding an IPv4 socket_address gives back its port and ip |
| `Stack.Ipv6Decodes` | src/net/stack.cc:186-191 | decoding an IPv6 socket_address gives back its port |
| `Stack.Ipv4EqualsIff` | src/net/stack.cc:216-221 | two IPv4 addresses are equal exactly when their ports and ips are |
| `Stack.Ipv6EqualsIff` | src/net/stack.cc:216-231 | two IPv6 addresses are equal exactly when ports and all 16 address bytes are |
| `Stack.EqualsDefaultIff` | src/net/stack.cc:236 | an address equals socket_address() exactly when it is AF_INET with port 0 and address 0 |
| `Stack.FamiliesDiscriminate` | src/net/stack.cc:209-211 | addresses of different families are unequal whatever their bytes |
| `Stack.UnixEqualsReadsCStringOnly` | src/net/stack.cc:212-215 | Unix equality ignores addr_length and every byte after sun_path's first NUL |
| `Stack.AbstractUnixAddressesEqual` | src/net/stack.cc:213-214 | any two abstract-namespace addresses compare equal |
| `Stack.AbstractEncodingsConflate` | src/net/stack.cc:212-215 | the encodings of the distinct names {0,'1','1','1'} and {0,'1','1','2'} compare equal |
| `Stack.LegacyUnixCString` | src/net/stack.cc:200-201 | after the strncpy constructor, strcmp sees the name's C string cut to 107 bytes |
| `Stack.LegacyUnixEqualsIff` | src/net/stack.cc:200-214 | two strncpy-built Unix addresses are equal exactly when those cut C strings agree |
| `Stack.Ipv6EqualsAsWrittenIgnoresLowHalf` | src/net/stack.cc:228-231 | as written, IPv6 addresses with the same port, flowinfo and first 8 address bytes compare equal whatever the last 8 are |
| `Stack.Ipv6LoopbackConfusedWithNeighbour` | src/net/stack.cc:228-231 | [::1]:80 and [::2]:80 with equal flowinfo compare equal as written, and unequal under the corrected comparison |
| `Stack.Ipv6FlowinfoSplitsSameAddress` | src/net/stack.cc:186-191 | two addresses built from the same ip and port whose unwritten sin6_flowinfo bytes differ are unequal as written and equal under the corrected comparison |
| `Stack.ServerSocket.constructor` | src/net/stack.cc:146-148 | a new listener is not aborted and has made no backend calls |
| `Stack.ServerSocket.Accept` | src/net/stack.cc:155-160 | once aborted, accept fails with ECONNABORTED and does not call the backend; before that it delegates exactly once |
| `Stack.ServerSocket.BackendAccept` | src/net/stack.cc:159 | each backend accept is counted once |
| `Stack.ServerSocket.AbortAccept` | src/net/stack.cc:162-165 | abort_accept calls the backend once and leaves _aborted true; no method clears it |
| `Stack.AbortTwiceThenAccept` | src/net/stack.cc:155-165 | after two abort_accept calls the listener is still aborted and accept fails without reaching the backend |
| `Stack.InetWildcard` | src/net/stack.cc:237 | the wildcard of AF_INET is 0.0.0.0:0 and that of AF_INET6 is [::]:0 |
| `Stack.Connect` | src/net/stack.cc:234-242 | socket::connect receives (sa, local', proto): when local equals socket_address(), local' is the wildcard of sa's family for an inet remote and the given inet_address value for any other remote (a Unix-domain one included); otherwise local' is local itself (an IPv6 [::]:0 included) |

## Findings

| source | as written | input that shows it | evidently intended | confidence | as-written member | corrected member |
|---|---|---|---|---|---|---|
| src/net/stack.cc:231 | `IN6_ARE_ADDR_EQUAL(&in1, &in2)` is passed the `sockaddr_in6` objects. The macro reads 16 bytes at its pointer, so it compares sin6_family, sin6_port, sin6_flowinfo and only the first 8 bytes of sin6_addr. | `[::1]:80` and `[::2]:80` with the same flowinfo compare equal. | Compare the 16 bytes of `sin6_addr` (`&in1.sin6_addr`, `&in2.sin6_addr`). | high, relying on glibc's definition of the macro; not executed | `Stack.Ipv6LoopbackConfusedWithNeighbour` (over `SocketDefs.SocketAddress.EqualsAsWritten`) | `SocketDefs.SocketAddress.Equals` (with `Stack.Ipv6EqualsIff`) |
| src/net/stack.cc:186-191, 231 | The same comparison also covers `sin6_flowinfo`, which the IPv6 constructor never writes. | Two addresses built from the same ip and port whose storage held different flowinfo bytes compare unequal. | Equality ignores flowinfo, as with the 16-byte `sin6_addr` comparison. | medium: it rests on `socket_address` having no member initializer that zeroes `u`, and socket_defs.hh is not part of this model; not executed | `Stack.Ipv6FlowinfoSplitsSameAddress` (over `SocketDefs.SocketAddress.EqualsAsWritten`) | `SocketDefs.SocketAddress.Equals` (with `Stack.Ipv6EqualsIff`) |

The rest of the model uses the corrected `Equals`. `Connect` compares with `EqualsAsWritten`, as the source's `==` does. Against `socket_address()`, which is AF_INET, the two agree: `EqualsAsWritten` differs from `Equals` only when both sides are AF_INET6.

## Left out

- `udp_channel`, `connected_socket`, `socket::connect`, `socket::shutdown` and `server_socket::local_address` only forward to the backend object, so there is nothing to state beyond the call.
- Futures, `do_with` and the reactor are left out. `Accept` returns a token that says whether the backend's future was passed on or a failed future was made. `Connect` returns the arguments it hands to `socket::connect`.
- An accept already in flight when `abort_accept` runs is handled inside the backend and is not modelled. The backend is represented only by ghost call counters.
- `std::hash<std::string>` is a parameter of `Hash`, because its values come from the C++ library.
- The definitions of `net::inet_address(family)`, the conversion to `socket_address`, `ipv4_addr`, `ipv6_addr`, `make_ipv4_address` and `socket_defs.hh` are not part of this model. The wildcard is taken to be port 0 with an all-zero address, and `make_ipv4_address(ip, p)` to give ip:p. Any default member initializer of `socket_address` is unknown, so unwritten bytes and `addr_length` stay unconstrained.
- Stack.Connect: for a remote that is neither IPv4 nor IPv6 (a Unix-domain remote, as the test at tests/unit/unix_domain_test.cc:114 makes), what `net::inet_address(sa.addr().in_family())` yields is decided outside this model. It is a parameter, `otherWildcard`, and `Connect` promises only that it is passed on.
- Reading past a buffer is undefined behaviour in C, and the model does not give it a meaning:
  - `strcmp` and `std::string{sun_path}` over a `sun_path` with no NUL stop at the end of the 108 bytes;
  - `Render` and `UnixDomainAddr.Name` require `path_byte_count <= 108`;
  - `Equal` and `NotEqual` require equal counts to be at most 108, since the memcmp at include/seastar/net/unix_address.hh:44 would read past `local_path` otherwise;
  - `PrintableUdAddr` requires `addr_length - offset <= 108` on the abstract path.
- `isprint` is fixed to the C locale. Host byte order only matters for the two `sa_family` bytes inside the as-written IPv6 comparison, where they are taken little-endian. `htons`/`htonl` are big-endian encodings, not host-dependent swaps.
- UnixAddressText.RenderText: the filesystem branch writes `name` as a `std::string`, that is all counted bytes including any NUL among them. This follows the mapping of `name` above.

/**
 PROXY protocol headers (src/proxy_proto.rs): addresses, the byte stream they are
 read from, and the binary version 2 of section 2.2 of the HAProxy specification.
 */
module ProxyHeaders {
  import opened Common

  type Byte = b: nat | b < 256

  type Bytes = seq<Byte>

  datatype IpAddr = V4(octets: Bytes) | V6(octets: Bytes)

  datatype SockAddr = SockAddr(ip: IpAddr, port: nat)

  ghost predicate IsIp(ip: IpAddr) {
    |ip.octets| == if ip.V4? then 4 else 16
  }

  ghost predicate IsAddr(a: SockAddr) {
    IsIp(a.ip) && a.port < 65536
  }

  ghost predicate SameFamily(a: SockAddr, b: SockAddr) {
    a.ip.V4? == b.ip.V4?
  }

  datatype ParseError = UnexpectedEof | TooLong | BadSignature | BadVersion | BadCommand | ShortBlock | BadText

  /** None: the header carries no addresses, keep the peer's own. */
  type Parsed = Result<Option<(SockAddr, SockAddr)>, ParseError>

  /** A stream being consumed. */
  class Reader {
    var rest: Bytes

    constructor (bytes: Bytes)
      ensures rest == bytes
    {
      rest := bytes;
    }

    /** `read_exact`. */
    method ReadExact(n: nat) returns (r: Result<Bytes, ParseError>)
      modifies this
      ensures |old(rest)| >= n ==> r == Ok(old(rest)[..n]) && rest == old(rest)[n..]
      ensures |old(rest)| < n ==> r == Err(UnexpectedEof)
    {
      if |rest| < n {
        rest := [];
        return Err(UnexpectedEof);
      }
      r := Ok(rest[..n]);
      rest := rest[n..];
    }
  }

  // -- Version 2 -----------------------------------------------------------------------

  const SIGNATURE: Bytes := [0x0D, 0x0A, 0x0D, 0x0A, 0x00, 0x0D, 0x0A, 0x51, 0x55, 0x49, 0x54, 0x0A]

  /** Big-endian 16-bit. */
  function Be16(n: nat): Bytes
    requires n < 65536
  {
    [n / 256, n % 256]
  }

  function FromBe16(hi: Byte, lo: Byte): nat {
    hi * 256 + lo
  }

  lemma Be16RoundTrip(n: nat)
    requires n < 65536
    ensures |Be16(n)| == 2 && FromBe16(Be16(n)[0], Be16(n)[1]) == n
  {
  }

  /** Fixed part: signature, version and command, family, block length; then the block. */
  function V2(family: Byte, block: Bytes): Bytes
    requires |block| < 65536
  {
    SIGNATURE + [0x21, family] + Be16(|block|) + block
  }

  function AddressBlock(src: SockAddr, dst: SockAddr): Bytes
    requires src.port < 65536 && dst.port < 65536
  {
    src.ip.octets + dst.ip.octets + Be16(src.port) + Be16(dst.port)
  }

  /** What `build_v2` writes: addresses of one family, or no addresses. */
  ghost function V2Header(src: SockAddr, dst: SockAddr): Bytes
    requires IsAddr(src) && IsAddr(dst)
  {
    if src.ip.V4? && dst.ip.V4? then V2(0x11, AddressBlock(src, dst))
    else if src.ip.V6? && dst.ip.V6? then V2(0x21, AddressBlock(src, dst))
    else V2(0x00, [])
  }

  /** `build_v2`. */
  method BuildV2(src: SockAddr, dst: SockAddr) returns (buf: Bytes)
    requires IsAddr(src) && IsAddr(dst)
    ensures buf == V2Header(src, dst)
  {
    buf := SIGNATURE;
    buf := buf + [0x21];
    if src.ip.V4? && dst.ip.V4? {
      buf := buf + [0x11];
      buf := buf + Be16(12);
      buf := AppendBlock(buf, src, dst, 0x11);
    } else if src.ip.V6? && dst.ip.V6? {
      buf := buf + [0x21];
      buf := buf + Be16(36);
      buf := AppendBlock(buf, src, dst, 0x21);
    } else {
      buf := buf + [0x00];
      buf := buf + Be16(0);
      assert buf == V2(0x00, []);
    }
  }

  method AppendBlock(head: Bytes, src: SockAddr, dst: SockAddr, ghost family: Byte) returns (buf: Bytes)
    requires IsAddr(src) && IsAddr(dst) && SameFamily(src, dst)
    requires head == SIGNATURE + [0x21] + [family] + Be16(|src.ip.octets| + |dst.ip.octets| + 4)
    ensures buf == V2(family, AddressBlock(src, dst))
  {
    buf := head + src.ip.octets;
    buf := buf + dst.ip.octets;
    buf := buf + Be16(src.port);
    buf := buf + Be16(dst.port);
    Joined(head, src.ip.octets, dst.ip.octets, Be16(src.port), Be16(dst.port));
    assert SIGNATURE + [0x21] + [family] == SIGNATURE + [0x21, family];
  }

  lemma Joined<T>(h: seq<T>, a: seq<T>, b: seq<T>, c: seq<T>, d: seq<T>)
    ensures h + a + b + c + d == h + (a + b + c + d)
  {
  }

  /** `build_v2_unspec`. */
  method BuildV2Unspec() returns (buf: Bytes)
    ensures buf == V2(0x00, [])
  {
    buf := SIGNATURE;
    buf := buf + [0x21];
    buf := buf + [0x00];
    buf := buf + Be16(0);
  }

  const PATH_SLOT: nat := 108

  /** A socket path, cut to 107 bytes and padded with zeros. */
  function PathSlot(path: Option<Bytes>): (slot: Bytes)
    ensures |slot| == PATH_SLOT && slot[PATH_SLOT - 1] == 0
  {
    var raw := if path.Some? then path.value else [];
    var n := if |raw| < 107 then |raw| else 107;
    raw[..n] + seq(PATH_SLOT - n, _ => 0)
  }

  /** The bytes before the first zero, as a reader of a null-terminated slot takes them. */
  function UpToZero(s: Bytes): Bytes {
    if s == [] || s[0] == 0 then [] else [s[0]] + UpToZero(s[1..])
  }

  /** A socket path without zero bytes is read back from its slot, cut at 107 bytes if longer. */
  lemma PathReads(path: Bytes)
    requires 0 !in path
    ensures UpToZero(PathSlot(Some(path))) == path[..if |path| < 107 then |path| else 107]
    ensures UpToZero(PathSlot(None)) == []
  {
    var n := if |path| < 107 then |path| else 107;
    StopsAtZero(path[..n], seq(PATH_SLOT - n, _ => 0));
  }

  lemma {:induction false} StopsAtZero(a: Bytes, zeros: Bytes)
    requires 0 !in a && zeros != [] && zeros[0] == 0
    ensures UpToZero(a + zeros) == a
  {
    if a == [] {
      assert a + zeros == zeros;
    } else {
      assert (a + zeros)[1..] == a[1..] + zeros;
      StopsAtZero(a[1..], zeros);
    }
  }

  /** `build_v2_unix`. */
  method BuildV2Unix(src: Option<Bytes>, dst: Option<Bytes>) returns (buf: Bytes)
    ensures buf == V2(0x31, PathSlot(src) + PathSlot(dst))
  {
    buf := SIGNATURE;
    buf := buf + [0x21];
    buf := buf + [0x31];
    buf := buf + Be16(216);
    buf := buf + PathSlot(src);
    buf := buf + PathSlot(dst);
    UnixJoined(PathSlot(src), PathSlot(dst));
  }

  lemma UnixJoined(a: Bytes, b: Bytes)
    requires |a| == |b| == PATH_SLOT
    ensures SIGNATURE + [0x21] + [0x31] + Be16(216) + a + b == V2(0x31, a + b)
  {
    ConcatAssoc(SIGNATURE + [0x21] + [0x31] + Be16(216), a, b);
    assert SIGNATURE + [0x21] + [0x31] == SIGNATURE + [0x21, 0x31];
  }

  /** Addresses in a block: sources before destinations, ports last. */
  function Addresses(block: Bytes, width: nat, v4: bool): (SockAddr, SockAddr)
    requires |block| >= 2 * width + 4
  {
    var s, d := block[..width], block[width..2 * width];
    var p := 2 * width;
    (SockAddr(if v4 then V4(s) else V6(s), FromBe16(block[p], block[p + 1])),
     SockAddr(if v4 then V4(d) else V6(d), FromBe16(block[p + 2], block[p + 3])))
  }

  /** The meaning of a complete header. */
  function Interpreted(command: nat, family: nat, block: Bytes): Parsed {
    if command == 0 then Ok(None)
    else if command != 1 then Err(BadCommand)
    else if family == 0 then Ok(None)
    else if family == 1 then
      if |block| < 12 then Err(ShortBlock) else Ok(Some(Addresses(block, 4, true)))
    else if family == 2 then
      if |block| < 36 then Err(ShortBlock) else Ok(Some(Addresses(block, 16, false)))
    else Ok(None)
  }

  /** The first 16 bytes are well formed: the block's length, or the error. */
  function FixedPart(fixed: Bytes): Result<nat, ParseError>
    requires |fixed| == 16
  {
    if fixed[..12] != SIGNATURE then Err(BadSignature)
    else if fixed[12] / 16 != 2 then Err(BadVersion)
    else Ok(FromBe16(fixed[14], fixed[15]))
  }

  /** Parsing `input` gives `r` and leaves `rest`; after a failure the stream is closed. */
  ghost predicate ParsesV2(input: Bytes, r: Parsed, rest: Bytes) {
    if |input| < 16 then r == Err(UnexpectedEof)
    else
      match FixedPart(input[..16])
      case Err(e) => r == Err(e)
      case Ok(n) =>
        if |input| < 16 + n then r == Err(UnexpectedEof)
        else
          && r == Interpreted(input[12] % 16, input[13] / 16, input[16..16 + n])
          && rest == input[16 + n..]
  }

  /** `parse_v2`. */
  method ParseV2(reader: Reader) returns (r: Parsed)
    modifies reader
    ensures ParsesV2(old(reader.rest), r, reader.rest)
  {
    ghost var input := reader.rest;
    var f := reader.ReadExact(16);
    if f.Err? {
      return Err(f.error);
    }
    var fixed := f.value;
    if fixed[..12] != SIGNATURE {
      return Err(BadSignature);
    }
    var version, command := fixed[12] / 16, fixed[12] % 16;
    if version != 2 {
      return Err(BadVersion);
    }
    var family := fixed[13] / 16;
    var n := FromBe16(fixed[14], fixed[15]);
    var b := reader.ReadExact(n);
    if b.Err? {
      return Err(b.error);
    }
    ReadTwice(input, n);
    return Interpreted(command, family, b.value);
  }

  lemma ReadTwice(input: Bytes, n: nat)
    requires |input| >= 16 + n
    ensures input[16..][..n] == input[16..16 + n] && input[16..][n..] == input[16 + n..]
  {
  }

  // -- Round trips -------------------------------------------------------------------------

  /** A built header is read back as its family and block, leaving exactly what follows. */
  lemma V2Reads(family: Byte, block: Bytes, tail: Bytes, r: Parsed, rest: Bytes)
    requires |block| < 65536 && ParsesV2(V2(family, block) + tail, r, rest)
    ensures r == Interpreted(1, family / 16, block) && rest == tail
  {
    hide Interpreted;
    var input, n := V2(family, block) + tail, |block|;
    Be16RoundTrip(n);
    assert input[..12] == SIGNATURE && input[..16][..12] == SIGNATURE;
    assert input[12] == 0x21 && input[13] == family;
    assert input[14] == Be16(n)[0] && input[15] == Be16(n)[1];
    assert input[16..16 + n] == block && input[16 + n..] == tail;
  }

  lemma BlockReads(src: SockAddr, dst: SockAddr)
    requires IsAddr(src) && IsAddr(dst) && SameFamily(src, dst)
    ensures Addresses(AddressBlock(src, dst), |src.ip.octets|, src.ip.V4?) == (src, dst)
  {
    hide Be16, FromBe16;
    Be16RoundTrip(src.port);
    Be16RoundTrip(dst.port);
    BlockCuts(src.ip.octets, dst.ip.octets, Be16(src.port), Be16(dst.port));
  }

  lemma BlockCuts(a: Bytes, b: Bytes, p: Bytes, q: Bytes)
    requires |a| == |b| && |p| == |q| == 2
    ensures var block, w := a + b + p + q, |a|;
      && block[..w] == a && block[w..2 * w] == b
      && block[2 * w] == p[0] && block[2 * w + 1] == p[1]
      && block[2 * w + 2] == q[0] && block[2 * w + 3] == q[1]
  {
  }

  /**
   Version 2, with any bytes following: addresses of one family come back as sent, mixed
   families come back as none, and the stream stands right behind the header.
   */
  lemma V2RoundTrip(src: SockAddr, dst: SockAddr, tail: Bytes, r: Parsed, rest: Bytes)
    requires IsAddr(src) && IsAddr(dst) && ParsesV2(V2Header(src, dst) + tail, r, rest)
    ensures r == Ok(if SameFamily(src, dst) then Some((src, dst)) else None) && rest == tail
  {
    hide ParsesV2, V2, AddressBlock, Addresses;
    BlockSize(src, dst);
    if src.ip.V4? && dst.ip.V4? {
      V2Reads(0x11, AddressBlock(src, dst), tail, r, rest);
      BlockReads(src, dst);
    } else if src.ip.V6? && dst.ip.V6? {
      V2Reads(0x21, AddressBlock(src, dst), tail, r, rest);
      BlockReads(src, dst);
    } else {
      V2Reads(0x00, [], tail, r, rest);
    }
  }

  lemma BlockSize(src: SockAddr, dst: SockAddr)
    requires IsAddr(src) && IsAddr(dst)
    ensures |AddressBlock(src, dst)| == |src.ip.octets| + |dst.ip.octets| + 4
  {
  }

  /** Headers of Unix-socket and unknown connections carry no addresses and are skipped whole. */
  lemma V2WithoutAddresses(src: Option<Bytes>, dst: Option<Bytes>, tail: Bytes, r: Parsed, rest: Bytes)
    ensures ParsesV2(V2(0x00, []) + tail, r, rest) ==> r == Ok(None) && rest == tail
    ensures ParsesV2(V2(0x31, PathSlot(src) + PathSlot(dst)) + tail, r, rest) ==> r == Ok(None) && rest == tail
  {
    hide ParsesV2, V2, PathSlot;
    if ParsesV2(V2(0x00, []) + tail, r, rest) {
      V2Reads(0x00, [], tail, r, rest);
    }
    if ParsesV2(V2(0x31, PathSlot(src) + PathSlot(dst)) + tail, r, rest) {
      V2Reads(0x31, PathSlot(src) + PathSlot(dst), tail, r, rest);
    }
  }
}

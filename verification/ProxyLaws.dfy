/**
 The two PROXY formats byte by byte: what the builders write for every pair of addresses, and
 exactly which headers the parsers accept, with which meaning.
 */
module ProxyLaws {
  import opened Common
  import opened Text
  import opened ProxyHeaders
  import opened ProxyText

  // -- Version 2 ----------------------------------------------------------------------------

  /** CR LF CR LF NUL CR LF, then "QUIT", then LF. */
  const MAGIC: Bytes := [13, 10, 13, 10, 0, 13, 10, 'Q' as nat, 'U' as nat, 'I' as nat, 'T' as nat, 10]

  /** The header for every pair of addresses, and the two without addresses. */
  lemma V2Bytes(src: SockAddr, dst: SockAddr, a: Option<Bytes>, b: Option<Bytes>)
    requires IsAddr(src) && IsAddr(dst)
    ensures V2(0x00, []) == MAGIC + [0x21, 0x00, 0, 0]
    ensures V2(0x31, PathSlot(a) + PathSlot(b)) == MAGIC + [0x21, 0x31, 0, 216] + (PathSlot(a) + PathSlot(b))
    ensures V2Header(src, dst) ==
      if src.ip.V4? && dst.ip.V4? then
        MAGIC + [0x21, 0x11, 0, 12]
        + (src.ip.octets + dst.ip.octets + [src.port / 256, src.port % 256] + [dst.port / 256, dst.port % 256])
      else if src.ip.V6? && dst.ip.V6? then
        MAGIC + [0x21, 0x21, 0, 36]
        + (src.ip.octets + dst.ip.octets + [src.port / 256, src.port % 256] + [dst.port / 256, dst.port % 256])
      else MAGIC + [0x21, 0x00, 0, 0]
  {
    assert SIGNATURE == MAGIC;
    V2Parts(0x00, []);
    V2Parts(0x31, PathSlot(a) + PathSlot(b));
    if SameFamily(src, dst) {
      BlockSize(src, dst);
      V2Parts(if src.ip.V4? then 0x11 else 0x21, AddressBlock(src, dst));
    }
  }

  lemma V2Parts(family: Byte, block: Bytes)
    requires |block| < 65536
    ensures V2(family, block) == SIGNATURE + [0x21, family, |block| / 256, |block| % 256] + block
  {
    assert [0x21, family] + [|block| / 256, |block| % 256] == [0x21, family, |block| / 256, |block| % 256];
    ConcatAssoc(SIGNATURE, [0x21, family], [|block| / 256, |block| % 256]);
  }

  function HighLow(hi: nat, lo: nat): nat {
    256 * hi + lo
  }

  /** The addresses at the front of a block: source, destination, then both ports, high byte first. */
  ghost predicate BlockSays(block: Bytes, width: nat, src: SockAddr, dst: SockAddr) {
    && |block| >= 2 * width + 4
    && src.ip.octets == block[..width] && dst.ip.octets == block[width..2 * width]
    && src.port == HighLow(block[2 * width], block[2 * width + 1])
    && dst.port == HighLow(block[2 * width + 2], block[2 * width + 3])
  }

  /**
   Every version 2 header, by its bytes: version and command, family, and a block whose bytes after
   the addresses are skipped.
   */
  lemma V2Answers(b: Byte, f: Byte, block: Bytes, tail: Bytes, r: Parsed, rest: Bytes)
    requires |block| < 65536
    requires ParsesV2(MAGIC + [b, f, |block| / 256, |block| % 256] + block + tail, r, rest)
    ensures b / 16 != 2 ==> r == Err(BadVersion)
    ensures b / 16 == 2 ==> rest == tail
    ensures b == 0x20 ==> r == Ok(None)
    ensures 0x22 <= b <= 0x2f ==> r == Err(BadCommand)
    ensures b == 0x21 && f / 16 == 1 && |block| < 12 ==> r == Err(ShortBlock)
    ensures b == 0x21 && f / 16 == 2 && |block| < 36 ==> r == Err(ShortBlock)
    ensures b == 0x21 && f / 16 == 1 && |block| >= 12 ==>
      r.Ok? && r.value.Some? && r.value.value.0.ip.V4? && r.value.value.1.ip.V4?
      && BlockSays(block, 4, r.value.value.0, r.value.value.1)
    ensures b == 0x21 && f / 16 == 2 && |block| >= 36 ==>
      r.Ok? && r.value.Some? && r.value.value.0.ip.V6? && r.value.value.1.ip.V6?
      && BlockSays(block, 16, r.value.value.0, r.value.value.1)
    ensures b == 0x21 && (f / 16 == 0 || f / 16 > 2) ==> r == Ok(None)
  {
    var input := MAGIC + [b, f, |block| / 256, |block| % 256] + block + tail;
    FixedBytes(b, f, block, tail);
    hide V2;
    assert FixedPart(input[..16]) == if b / 16 != 2 then Err(BadVersion) else Ok(|block|);
  }

  lemma FixedBytes(b: Byte, f: Byte, block: Bytes, tail: Bytes)
    requires |block| < 65536
    ensures var input := MAGIC + [b, f, |block| / 256, |block| % 256] + block + tail;
      && |input| >= 16 + |block| && input[..16][..12] == SIGNATURE
      && input[12] == input[..16][12] == b && input[13] == f
      && FromBe16(input[..16][14], input[..16][15]) == |block|
      && input[16..16 + |block|] == block && input[16 + |block|..] == tail
  {
    var input := MAGIC + [b, f, |block| / 256, |block| % 256] + block + tail;
    assert input[..12] == MAGIC == SIGNATURE;
    assert input[..16][..12] == input[..12];
  }

  /** Anything else fails: too short, or another signature. */
  lemma V2Refuses(input: Bytes, r: Parsed, rest: Bytes)
    requires ParsesV2(input, r, rest)
    ensures |input| < 16 ==> r == Err(UnexpectedEof)
    ensures |input| >= 16 && input[..12] != MAGIC ==> r == Err(BadSignature)
    ensures 16 <= |input| < 16 + HighLow(input[14], input[15]) && input[..12] == MAGIC && input[12] / 16 == 2 ==>
      r == Err(UnexpectedEof)
  {
    assert |input| >= 16 ==> input[..16][..12] == input[..12];
  }

  // -- Numbers as text ------------------------------------------------------------------------

  /** Digits without a leading zero are the decimal form of their value. */
  lemma {:induction false} DecCanonical(s: string)
    requires s != "" && AllDigits(s) && (|s| > 1 ==> s[0] != '0')
    ensures Dec(DecValue(s)) == s
    decreases |s|
  {
    var n := |s| - 1;
    var front, last := s[..n], s[n];
    assert s == front + [last];
    if n == 0 {
      assert DecValue(front) == 0;
    } else {
      DecCanonical(front);
      PositiveValue(front);
      var v := DecValue(front);
      assert DecValue(s) == v * 10 + DigitValue(last);
      assert (v * 10 + DigitValue(last)) / 10 == v && (v * 10 + DigitValue(last)) % 10 == DigitValue(last);
    }
  }

  lemma {:induction false} PositiveValue(s: string)
    requires s != "" && AllDigits(s) && s[0] != '0'
    ensures DecValue(s) > 0
    decreases |s|
  {
    if |s| > 1 {
      PositiveValue(s[..|s| - 1]);
    } else {
      assert s[..0] == "";
      assert DecValue(s) == DecValue(s[..0]) * 10 + DigitValue(s[0]);
    }
  }

  /** An octet is accepted exactly in its decimal form. */
  lemma OctetExact(s: string, n: Byte)
    ensures ParseOctet(s) == Some(n) <==> s == Dec(n)
  {
    if ParseOctet(s) == Some(n) {
      DecCanonical(s);
    }
    OctetReads(n);
  }

  lemma OctetRange(s: string)
    requires ParseOctet(s).Some?
    ensures s == Dec(ParseOctet(s).value)
  {
    OctetExact(s, ParseOctet(s).value);
  }

  lemma OnlyPiece(s: string, c: char, n: nat) returns (d: string)
    requires n > 0 && |SplitOn(s, c, n)| == 1
    ensures s == d && SplitOn(s, c, n) == [d]
  {
    d := s;
  }

  lemma ShownV4(o: Bytes)
    requires |o| == 4
    ensures ShowV4(o) == Dec(o[0]) + "." + Dec(o[1]) + "." + Dec(o[2]) + "." + Dec(o[3])
  {
    hide Dec;
    var a, b, c, d := Dec(o[0]), Dec(o[1]), Dec(o[2]), Dec(o[3]);
    assert a + "." + b + "." + c + "." + d == a + ['.'] + (b + ['.'] + (c + ['.'] + d));
  }

  lemma FourPieces(s: string) returns (a: string, b: string, c: string, d: string)
    requires |SplitOn(s, '.', 5)| == 4
    ensures SplitOn(s, '.', 5) == [a, b, c, d] && s == a + ['.'] + (b + ['.'] + (c + ['.'] + d))
  {
    hide SplitOn, Free;
    var r1, r2, r3;
    a, r1 := SplitCut(s, '.', 5);
    b, r2 := SplitCut(r1, '.', 4);
    c, r3 := SplitCut(r2, '.', 3);
    d := OnlyPiece(r3, '.', 2);
  }

  /** An IPv4 address is accepted exactly as four such octets between dots. */
  lemma V4Exact(s: string, o: Bytes)
    requires |o| == 4
    ensures ParseV4(s) == Some(o) <==> s == Dec(o[0]) + "." + Dec(o[1]) + "." + Dec(o[2]) + "." + Dec(o[3])
  {
    ShownV4(o);
    V4Reads(o);
    if ParseV4(s) == Some(o) {
      hide ParseOctet, Dec, SplitOn;
      var a, b, c, d := FourPieces(s);
      OctetRange(a);
      OctetRange(b);
      OctetRange(c);
      OctetRange(d);
      assert s == ShowV4(o);
    }
  }

  function Zeros(k: nat): string {
    if k == 0 then "" else "0" + Zeros(k - 1)
  }

  /** Digits are their value's decimal form behind some zeros. */
  lemma {:induction false} LeadingZeros(s: string) returns (k: nat)
    requires s != "" && AllDigits(s)
    ensures s == Zeros(k) + Dec(DecValue(s))
    decreases |s|
  {
    if |s| > 1 && s[0] == '0' {
      k := LeadingZeros(s[1..]);
      ZeroInFront(s[1..]);
      assert s == "0" + s[1..];
      k := k + 1;
    } else {
      k := 0;
      DecCanonical(s);
    }
  }

  lemma {:induction false} ZeroInFront(s: string)
    requires AllDigits(s)
    ensures AllDigits("0" + s) && DecValue("0" + s) == DecValue(s)
    decreases |s|
  {
    var z := "0" + s;
    assert AllDigits(z);
    if s == "" {
      assert z[..0] == "";
      assert DecValue(z) == DecValue(z[..0]) * 10 + DigitValue(z[0]);
    } else {
      var n := |s| - 1;
      assert z[..|z| - 1] == "0" + s[..n] && z[|z| - 1] == s[n];
      ZeroInFront(s[..n]);
    }
  }

  lemma {:induction false} ZerosRead(k: nat, n: nat)
    ensures AllDigits(Zeros(k) + Dec(n)) && DecValue(Zeros(k) + Dec(n)) == n && Zeros(k) + Dec(n) != ""
    decreases k
  {
    hide Dec, DecValue, AllDigits;
    DecReads(n);
    if k == 0 {
      assert Zeros(0) + Dec(n) == Dec(n);
    } else {
      ZerosRead(k - 1, n);
      ZeroInFront(Zeros(k - 1) + Dec(n));
      ConcatAssoc("0", Zeros(k - 1), Dec(n));
    }
  }

  /** A port as it may be written: decimal, with leading zeros and one plus sign allowed. */
  ghost predicate IsPortText(s: string, n: nat) {
    n <= 65535 && exists k :: s == Zeros(k) + Dec(n) || s == "+" + (Zeros(k) + Dec(n))
  }

  lemma PortExact(s: string, n: nat)
    ensures ParsePort(s) == Some(n) <==> IsPortText(s, n)
  {
    if ParsePort(s) == Some(n) {
      var plus := s != [] && s[0] == '+';
      var digits := if plus then s[1..] else s;
      var k := LeadingZeros(digits);
      assert plus ==> s == "+" + digits;
      assert s == Zeros(k) + Dec(n) || s == "+" + (Zeros(k) + Dec(n));
    }
    if IsPortText(s, n) {
      var k :| s == Zeros(k) + Dec(n) || s == "+" + (Zeros(k) + Dec(n));
      ZerosRead(k, n);
      hide Dec, Zeros, DecValue;
      var t := Zeros(k) + Dec(n);
      if s != t {
        assert s[1..] == t;
      } else {
        assert IsDigit(t[0]);
      }
    }
  }

  // -- Version 1 --------------------------------------------------------------------------------

  /** The line for every pair of addresses. */
  lemma V1Text(lib: ProxyText.Lib, src: SockAddr, dst: SockAddr)
    requires IsAddr(src) && IsAddr(dst)
    ensures Line(lib, src, dst) ==
      (if src.ip.V4? then "PROXY TCP4 " else "PROXY TCP6 ")
      + (if src.ip.V4? then ShowV4(src.ip.octets) else lib.showV6(src.ip.octets)) + " "
      + (if dst.ip.V4? then ShowV4(dst.ip.octets) else lib.showV6(dst.ip.octets)) + " "
      + Dec(src.port) + " " + Dec(dst.port)
  {
    hide Dec, ShowV4;
    var c, d, e, f := ShowIp(lib, src.ip), ShowIp(lib, dst.ip), Dec(src.port), Dec(dst.port);
    var p := Proto(src.ip);
    assert "PROXY" + [' '] + p + [' '] == if src.ip.V4? then "PROXY TCP4 " else "PROXY TCP6 ";
    SixWords("PROXY", p, c, d, e, f);
  }

  lemma SixWords(a: string, b: string, c: string, d: string, e: string, f: string)
    ensures Words(a, b, c, d, e, f) == (a + [' '] + b + [' ']) + c + " " + d + " " + e + " " + f
  {
  }

  /** A line that gives these addresses: two of the named family and two ports, and nothing else. */
  ghost predicate SaysAddresses(lib: ProxyText.Lib, line: string, src: SockAddr, dst: SockAddr) {
    exists s, d, sp, dp ::
      && Free(s, ' ') && Free(d, ' ') && Free(sp, ' ')
      && IsPortText(sp, src.port) && IsPortText(dp, dst.port)
      && ((line == Words("PROXY", "TCP4", s, d, sp, dp) && V4Says(s, src.ip) && V4Says(d, dst.ip))
          || (line == Words("PROXY", "TCP6", s, d, sp, dp) && V6Says(lib, s, src.ip) && V6Says(lib, d, dst.ip)))
  }

  ghost predicate V4Says(s: string, ip: IpAddr) {
    ip.V4? && |ip.octets| == 4
    && s == Dec(ip.octets[0]) + "." + Dec(ip.octets[1]) + "." + Dec(ip.octets[2]) + "." + Dec(ip.octets[3])
  }

  ghost predicate V6Says(lib: ProxyText.Lib, s: string, ip: IpAddr) {
    ip.V6? && lib.parseV6(s) == Some(ip.octets)
  }

  lemma IpExact(lib: ProxyText.Lib, s: string, ip: IpAddr)
    ensures ParseIp(lib, "TCP4", s) == Some(ip) <==> V4Says(s, ip)
    ensures ParseIp(lib, "TCP6", s) == Some(ip) <==> V6Says(lib, s, ip)
  {
    FourOctets(s);
    hide Dec, ParseV4;
    if ip.V4? && |ip.octets| == 4 {
      V4Exact(s, ip.octets);
    }
  }

  lemma FourOctets(s: string)
    ensures ParseV4(s).Some? ==> |ParseV4(s).value| == 4
  {
    hide ParseOctet, SplitOn;
  }

  /** The six words of an accepted line. */
  lemma SixPieces(line: string) returns (a: string, b: string, c: string, d: string, e: string, f: string)
    requires |SplitOn(line, ' ', 6)| == 6
    ensures line == Words(a, b, c, d, e, f) && SplitOn(line, ' ', 6) == [a, b, c, d, e, f]
    ensures Free(c, ' ') && Free(d, ' ') && Free(e, ' ')
  {
    hide SplitOn;
    var r1, r2, r3, r4;
    a, r1 := SplitCut(line, ' ', 6);
    b, r2 := SplitCut(r1, ' ', 5);
    c, r3 := SplitCut(r2, ' ', 4);
    d, r4 := SplitCut(r3, ' ', 3);
    e, f := SplitCut(r4, ' ', 2);
    SplitOne(f);
  }

  lemma {:induction false} SplitAtMost(s: string, c: char, n: nat)
    requires n > 0
    ensures 1 <= |SplitOn(s, c, n)| <= n
    decreases n
  {
    FindSound(s, c, 0);
    var i := Find(s, c, 0);
    if n > 1 && i < |s| {
      SplitAtMost(s[i + 1..], c, n - 1);
    }
  }

  /** A line gives addresses exactly when it says them. */
  lemma V1AddressesIff(lib: ProxyText.Lib, line: string, src: SockAddr, dst: SockAddr)
    ensures ParseLine(lib, line) == Ok(Some((src, dst))) <==> SaysAddresses(lib, line, src, dst)
  {
    hide SplitOn, ParsePort, ParseIp, IsPortText, V4Says, V6Says, Words, Free;
    SplitAtMost(line, ' ', 6);
    if ParseLine(lib, line) == Ok(Some((src, dst))) {
      var a, b, c, d, e, f := SixPieces(line);
      PortExact(e, src.port);
      PortExact(f, dst.port);
      IpExact(lib, c, src.ip);
      IpExact(lib, d, dst.ip);
    }
    if SaysAddresses(lib, line, src, dst) {
      var s, d, sp, dp :|
        && Free(s, ' ') && Free(d, ' ') && Free(sp, ' ')
        && IsPortText(sp, src.port) && IsPortText(dp, dst.port)
        && ((line == Words("PROXY", "TCP4", s, d, sp, dp) && V4Says(s, src.ip) && V4Says(d, dst.ip))
            || (line == Words("PROXY", "TCP6", s, d, sp, dp) && V6Says(lib, s, src.ip) && V6Says(lib, d, dst.ip)));
      PortExact(sp, src.port);
      PortExact(dp, dst.port);
      IpExact(lib, s, src.ip);
      IpExact(lib, d, dst.ip);
      KeywordsFree();
      if line == Words("PROXY", "TCP4", s, d, sp, dp) {
        WordsSplit("PROXY", "TCP4", s, d, sp, dp);
      }
      if line == Words("PROXY", "TCP6", s, d, sp, dp) {
        WordsSplit("PROXY", "TCP6", s, d, sp, dp);
      }
    }
  }

  lemma KeywordsFree()
    ensures Free("PROXY", ' ') && Free("TCP4", ' ') && Free("TCP6", ' ') && Free("UNKNOWN", ' ')
  {
  }

  /** The first piece is the whole text, or ends at a separator. */
  lemma FirstPiece(s: string, c: char, n: nat) returns (rest: string)
    requires n > 0
    ensures |SplitOn(s, c, n)| > 0
    ensures s == SplitOn(s, c, n)[0] || s == SplitOn(s, c, n)[0] + [c] + rest
  {
    SplitAtMost(s, c, n);
    rest := "";
    if |SplitOn(s, c, n)| > 1 {
      var a;
      a, rest := SplitCut(s, c, n);
    }
  }

  /** UNKNOWN as the second word, with or without anything behind it. */
  ghost predicate IsUnknownLine(line: string) {
    line == UNKNOWN_LINE || exists rest :: line == "PROXY" + [' '] + ("UNKNOWN" + [' '] + rest)
  }

  lemma UnknownOnly(lib: ProxyText.Lib, line: string)
    requires ParseLine(lib, line) == Ok(None)
    ensures IsUnknownLine(line)
  {
    hide SplitOn, ParsePort, ParseIp, Free;
    SplitAtMost(line, ' ', 6);
    var a, r1 := SplitCut(line, ' ', 6);
    assert SplitOn(line, ' ', 6)[0] == a == "PROXY";
    assert SplitOn(line, ' ', 6)[1] == SplitOn(r1, ' ', 5)[0];
    var rest := FirstPiece(r1, ' ', 5);
    assert r1 == "UNKNOWN" || r1 == "UNKNOWN" + [' '] + rest;
  }

  lemma UnknownFound(lib: ProxyText.Lib, rest: string)
    ensures ParseLine(lib, "PROXY" + [' '] + ("UNKNOWN" + [' '] + rest)) == Ok(None)
  {
    KeywordsFree();
    hide SplitOn, ParsePort, ParseIp, Free;
    SplitFirst("PROXY", "UNKNOWN" + [' '] + rest, ' ', 6);
    SplitFirst("UNKNOWN", rest, ' ', 5);
  }

  /** A line gives no addresses exactly when its second word is UNKNOWN; every other line is refused. */
  lemma V1UnknownIff(lib: ProxyText.Lib, line: string)
    ensures ParseLine(lib, line) == Ok(None) <==> IsUnknownLine(line)
    ensures ParseLine(lib, line).Err? ==> ParseLine(lib, line) == Err(BadText)
  {
    SplitAtMost(line, ' ', 6);
    ErrorKind(lib, line);
    hide ParseLine;
    if ParseLine(lib, line) == Ok(None) {
      UnknownOnly(lib, line);
    }
    UnknownMeans(lib);
    forall rest | line == "PROXY" + [' '] + ("UNKNOWN" + [' '] + rest) ensures ParseLine(lib, line) == Ok(None) {
      UnknownFound(lib, rest);
    }
  }

  lemma ErrorKind(lib: ProxyText.Lib, line: string)
    ensures ParseLine(lib, line).Err? ==> ParseLine(lib, line) == Err(BadText)
  {
    hide SplitOn, ParsePort, ParseIp;
  }

  /** How far a line may reach: 108 bytes, its end included. */
  lemma V1Length(lib: ProxyText.Lib, input: Bytes, r: Parsed, rest: Bytes)
    requires ParsesV1(lib, input, r, rest) && |input| >= 108
    requires forall m :: 0 <= m < 106 ==> !(input[m] == 13 && input[m + 1] == 10)
    ensures !(input[106] == 13 && input[107] == 10) ==> r == Err(TooLong)
    ensures input[106] == 13 && input[107] == 10 ==> r == LineMeaning(lib, input[..106]) && rest == input[108..]
  {
    hide LineMeaning;
    if input[106] == 13 && input[107] == 10 {
      assert LineEndsAt(input, 108);
    } else {
      assert NoLineEnd(input, 108);
    }
  }
}

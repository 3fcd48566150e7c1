/**
 PROXY protocol version 1 (src/proxy_proto.rs; section 2.1 of the HAProxy
 specification): one line of text.  UTF-8 decoding and IPv6 text are parameters.
 */
module ProxyText {
  import opened Common
  import opened Text
  import opened ProxyHeaders

  datatype Lib = Lib(
    utf8: Bytes -> Option<string>,
    showV6: Bytes -> string,
    parseV6: string -> Option<Bytes>)

  ghost predicate IsAscii(s: string) {
    forall i :: 0 <= i < |s| ==> s[i] < 128 as char
  }

  ghost function Ascii(s: string): Bytes
    requires IsAscii(s)
  {
    seq(|s|, i requires 0 <= i < |s| => s[i] as nat)
  }

  /** A word of the line: ASCII, without blanks or line ends. */
  ghost predicate IsWord(s: string) {
    IsAscii(s) && Free(s, ' ') && Free(s, '\r')
  }

  const MAX_V6_TEXT: nat := 39

  /** What is assumed of the library functions. */
  ghost predicate LibOk(lib: Lib) {
    && (forall s :: IsAscii(s) ==> lib.utf8(Ascii(s)) == Some(s))
    && (forall a: Bytes :: |a| == 16 ==> V6Ok(lib, a))
    && (forall s :: Free(s, ':') ==> lib.parseV6(s) == None)
  }

  ghost predicate V6Ok(lib: Lib, a: Bytes) {
    var s := lib.showV6(a);
    IsWord(s) && |s| <= MAX_V6_TEXT && !Free(s, ':') && lib.parseV6(s) == Some(a)
  }

  // -- Decimal numbers -------------------------------------------------------------------

  function Digit(d: nat): char
    requires d < 10
  {
    '0' + d as char
  }

  predicate IsDigit(c: char) {
    '0' <= c <= '9'
  }

  function DigitValue(c: char): nat
    requires IsDigit(c)
  {
    (c - '0') as nat
  }

  function Dec(n: nat): string {
    if n < 10 then [Digit(n)] else Dec(n / 10) + [Digit(n % 10)]
  }

  predicate AllDigits(s: string) {
    forall i :: 0 <= i < |s| ==> IsDigit(s[i])
  }

  function DecValue(s: string): nat
    requires AllDigits(s)
  {
    if s == [] then 0 else DecValue(s[..|s| - 1]) * 10 + DigitValue(s[|s| - 1])
  }

  lemma {:induction false} DecReads(n: nat)
    ensures Dec(n) != [] && AllDigits(Dec(n)) && DecValue(Dec(n)) == n
    ensures n > 0 ==> Dec(n)[0] != '0'
  {
    var s := Dec(n);
    if n < 10 {
      assert s[..0] == [];
    } else {
      DecReads(n / 10);
      assert s[..|s| - 1] == Dec(n / 10);
    }
  }

  lemma {:induction false} DecLength(n: nat)
    ensures n < 10 ==> |Dec(n)| == 1
    ensures n < 100 ==> |Dec(n)| <= 2
    ensures n < 1000 ==> |Dec(n)| <= 3
    ensures n < 10000 ==> |Dec(n)| <= 4
    ensures n < 100000 ==> |Dec(n)| <= 5
  {
    if n >= 10 {
      DecLength(n / 10);
    }
  }

  lemma DigitsAreWord(s: string)
    requires AllDigits(s)
    ensures IsWord(s) && Free(s, '.') && Free(s, ':')
  {
  }

  // -- Addresses as text --------------------------------------------------------------------

  function ShowV4(o: Bytes): string
    requires |o| == 4
  {
    Dec(o[0]) + ['.'] + (Dec(o[1]) + ['.'] + (Dec(o[2]) + ['.'] + Dec(o[3])))
  }

  /** One octet: up to three digits, no leading zero, at most 255. */
  function ParseOctet(s: string): Option<Byte> {
    if s == [] || |s| > 3 || !AllDigits(s) || (|s| > 1 && s[0] == '0') || DecValue(s) > 255 then None
    else Some(DecValue(s))
  }

  /** Exactly four octets. */
  function ParseV4(s: string): Option<Bytes> {
    var parts := SplitOn(s, '.', 5);
    if |parts| != 4 then None
    else
      var a, b, c, d := ParseOctet(parts[0]), ParseOctet(parts[1]), ParseOctet(parts[2]), ParseOctet(parts[3]);
      if a.None? || b.None? || c.None? || d.None? then None
      else Some([a.value, b.value, c.value, d.value])
  }

  /** A 16-bit number; a leading plus sign is accepted. */
  function ParsePort(s: string): Option<nat> {
    var digits := if s != [] && s[0] == '+' then s[1..] else s;
    if digits == [] || !AllDigits(digits) || DecValue(digits) > 65535 then None else Some(DecValue(digits))
  }

  lemma OctetReads(n: Byte)
    ensures ParseOctet(Dec(n)) == Some(n)
  {
    DecReads(n);
    DecLength(n);
  }

  lemma PortReads(n: nat)
    requires n < 65536
    ensures ParsePort(Dec(n)) == Some(n)
  {
    DecReads(n);
    assert IsDigit(Dec(n)[0]);
  }

  lemma V4Split(a: string, b: string, c: string, d: string)
    requires Free(a, '.') && Free(b, '.') && Free(c, '.') && Free(d, '.')
    ensures SplitOn(a + ['.'] + (b + ['.'] + (c + ['.'] + d)), '.', 5) == [a, b, c, d]
  {
    SplitFirst(a, b + ['.'] + (c + ['.'] + d), '.', 5);
    SplitFirst(b, c + ['.'] + d, '.', 4);
    SplitFirst(c, d, '.', 3);
    SplitLast(d, '.', 2);
  }

  lemma DecWord(n: nat)
    ensures IsWord(Dec(n)) && Free(Dec(n), '.') && Free(Dec(n), ':')
  {
    DecReads(n);
    DigitsAreWord(Dec(n));
  }

  lemma V4Reads(o: Bytes)
    requires |o| == 4
    ensures ParseV4(ShowV4(o)) == Some(o)
  {
    hide SplitOn, ParseOctet, Dec, IsWord, Free;
    DecWord(o[0]);
    DecWord(o[1]);
    DecWord(o[2]);
    DecWord(o[3]);
    V4Split(Dec(o[0]), Dec(o[1]), Dec(o[2]), Dec(o[3]));
    OctetReads(o[0]);
    OctetReads(o[1]);
    OctetReads(o[2]);
    OctetReads(o[3]);
    assert o == [o[0], o[1], o[2], o[3]];
  }

  lemma FreeConcat(a: string, b: string, c: char)
    requires Free(a, c) && Free(b, c)
    ensures Free(a + b, c)
  {
  }

  lemma FreeDot(c: char)
    requires c != '.'
    ensures Free(['.'], c)
  {
  }

  lemma V4Free(o: Bytes, c: char)
    requires |o| == 4 && c != '.'
    requires Free(Dec(o[0]), c) && Free(Dec(o[1]), c) && Free(Dec(o[2]), c) && Free(Dec(o[3]), c)
    ensures Free(ShowV4(o), c)
  {
    hide Free, Dec;
    FreeDot(c);
    FreeConcat(Dec(o[2]), ['.'], c);
    FreeConcat(Dec(o[2]) + ['.'], Dec(o[3]), c);
    FreeConcat(Dec(o[1]), ['.'], c);
    FreeConcat(Dec(o[1]) + ['.'], Dec(o[2]) + ['.'] + Dec(o[3]), c);
    FreeConcat(Dec(o[0]), ['.'], c);
    FreeConcat(Dec(o[0]) + ['.'], Dec(o[1]) + ['.'] + (Dec(o[2]) + ['.'] + Dec(o[3])), c);
  }

  lemma AsciiConcat(a: string, b: string)
    requires IsAscii(a) && IsAscii(b)
    ensures IsAscii(a + b) && Ascii(a + b) == Ascii(a) + Ascii(b)
  {
  }

  lemma AsciiDot()
    ensures IsAscii(['.'])
  {
  }

  lemma V4Word(o: Bytes)
    requires |o| == 4
    ensures IsWord(ShowV4(o)) && Free(ShowV4(o), ':') && |ShowV4(o)| <= 15
  {
    DecWord(o[0]);
    DecWord(o[1]);
    DecWord(o[2]);
    DecWord(o[3]);
    hide Free, Dec, IsAscii;
    V4Free(o, ' ');
    V4Free(o, '\r');
    V4Free(o, ':');
    AsciiDot();
    AsciiConcat(Dec(o[2]), ['.']);
    AsciiConcat(Dec(o[2]) + ['.'], Dec(o[3]));
    AsciiConcat(Dec(o[1]), ['.']);
    AsciiConcat(Dec(o[1]) + ['.'], Dec(o[2]) + ['.'] + Dec(o[3]));
    AsciiConcat(Dec(o[0]), ['.']);
    AsciiConcat(Dec(o[0]) + ['.'], Dec(o[1]) + ['.'] + (Dec(o[2]) + ['.'] + Dec(o[3])));
    DecLength(o[0]);
    DecLength(o[1]);
    DecLength(o[2]);
    DecLength(o[3]);
  }

  /** IPv4 text never parses where it has a colon. */
  lemma V4RejectsColon(s: string)
    requires !Free(s, ':')
    ensures ParseV4(s) == None
  {
    var parts := SplitOn(s, '.', 5);
    if |parts| == 4 {
      SplitKeeps(s, '.', 5, ':');
      var k :| 0 <= k < 4 && !Free(parts[k], ':');
      BadOctet(parts[k]);
    }
  }

  lemma BadOctet(s: string)
    requires !Free(s, ':')
    ensures ParseOctet(s) == None
  {
  }

  /** A character other than the separator survives in some piece. */
  lemma {:induction false} SplitKeeps(s: string, c: char, n: nat, x: char)
    requires n > 0 && x != c && !Free(s, x)
    ensures exists k :: 0 <= k < |SplitOn(s, c, n)| && !Free(SplitOn(s, c, n)[k], x)
    decreases n
  {
    hide Find;
    FindSound(s, c, 0);
    var i := Find(s, c, 0);
    if n == 1 || i == |s| {
      assert SplitOn(s, c, n)[0] == s;
    } else {
      var j :| 0 <= j < |s| && s[j] == x;
      if j < i {
        assert s[..i][j] == x;
        assert !Free(SplitOn(s, c, n)[0], x);
      } else {
        var rest := s[i + 1..];
        assert rest[j - i - 1] == x;
        SplitKeeps(rest, c, n - 1, x);
        var k :| 0 <= k < |SplitOn(rest, c, n - 1)| && !Free(SplitOn(rest, c, n - 1)[k], x);
        assert SplitOn(s, c, n)[k + 1] == SplitOn(rest, c, n - 1)[k];
      }
    }
  }

  // -- The line --------------------------------------------------------------------------------

  ghost function ShowIp(lib: Lib, ip: IpAddr): string
    requires IsIp(ip)
  {
    if ip.V4? then ShowV4(ip.octets) else lib.showV6(ip.octets)
  }

  function Proto(ip: IpAddr): string {
    if ip.V4? then "TCP4" else "TCP6"
  }

  /** What `build_v1` writes, without the line end; the protocol follows the source address. */
  ghost function Line(lib: Lib, src: SockAddr, dst: SockAddr): string
    requires IsAddr(src) && IsAddr(dst)
  {
    Words("PROXY", Proto(src.ip), ShowIp(lib, src.ip), ShowIp(lib, dst.ip), Dec(src.port), Dec(dst.port))
  }

  function Words(a: string, b: string, c: string, d: string, e: string, f: string): string {
    a + [' '] + (b + [' '] + (c + [' '] + (d + [' '] + (e + [' '] + f))))
  }

  lemma WordsSplit(a: string, b: string, c: string, d: string, e: string, f: string)
    requires Free(a, ' ') && Free(b, ' ') && Free(c, ' ') && Free(d, ' ') && Free(e, ' ')
    ensures SplitOn(Words(a, b, c, d, e, f), ' ', 6) == [a, b, c, d, e, f]
  {
    hide Free, SplitOn;
    SplitFirst(a, b + [' '] + (c + [' '] + (d + [' '] + (e + [' '] + f))), ' ', 6);
    SplitFirst(b, c + [' '] + (d + [' '] + (e + [' '] + f)), ' ', 5);
    SplitFirst(c, d + [' '] + (e + [' '] + f), ' ', 4);
    SplitFirst(d, e + [' '] + f, ' ', 3);
    SplitFirst(e, f, ' ', 2);
    SplitOne(f);
  }

  lemma SplitOne(f: string)
    ensures SplitOn(f, ' ', 1) == [f]
  {
  }

  /** ASCII without a carriage return. */
  ghost predicate IsLineText(s: string) {
    IsAscii(s) && Free(s, '\r')
  }

  lemma PairText(a: string, b: string)
    requires IsLineText(a) && IsLineText(b)
    ensures IsLineText(a + [' '] + b)
  {
  }

  lemma WordsText(a: string, b: string, c: string, d: string, e: string, f: string)
    requires IsLineText(a) && IsLineText(b) && IsLineText(c) && IsLineText(d) && IsLineText(e) && IsLineText(f)
    ensures IsLineText(Words(a, b, c, d, e, f))
    ensures |Words(a, b, c, d, e, f)| == |a| + |b| + |c| + |d| + |e| + |f| + 5
  {
    hide IsLineText;
    PairText(e, f);
    PairText(d, e + [' '] + f);
    PairText(c, d + [' '] + (e + [' '] + f));
    PairText(b, c + [' '] + (d + [' '] + (e + [' '] + f)));
    PairText(a, b + [' '] + (c + [' '] + (d + [' '] + (e + [' '] + f))));
  }

  // -- Parsing -----------------------------------------------------------------------------------

  function ParseIp(lib: Lib, proto: string, s: string): Option<IpAddr> {
    if proto == "TCP4" then
      match ParseV4(s)
      case Some(o) => Some(V4(o))
      case None => None
    else
      match lib.parseV6(s)
      case Some(o) => Some(V6(o))
      case None => None
  }

  /** The meaning of a decoded line. */
  function ParseLine(lib: Lib, line: string): Parsed {
    var parts := SplitOn(line, ' ', 6);
    var proto := if |parts| > 1 then parts[1] else [];
    if parts[0] != "PROXY" then Err(BadText)
    else if proto == "UNKNOWN" then Ok(None)
    else if |parts| < 6 then Err(BadText)
    else
      var sp, dp := ParsePort(parts[4]), ParsePort(parts[5]);
      if sp.None? || dp.None? || (proto != "TCP4" && proto != "TCP6") then Err(BadText)
      else
        var s, d := ParseIp(lib, proto, parts[2]), ParseIp(lib, proto, parts[3]);
        if s.None? || d.None? then Err(BadText)
        else Ok(Some((SockAddr(s.value, sp.value), SockAddr(d.value, dp.value))))
  }

  function LineMeaning(lib: Lib, line: Bytes): Parsed {
    match lib.utf8(line)
    case None => Err(BadText)
    case Some(text) => ParseLine(lib, text)
  }

  const CR: Byte := 13
  const LF: Byte := 10
  const MAX_LINE: nat := 108

  predicate EndsLine(b: Bytes, n: nat)
    requires n <= |b|
  {
    n >= 2 && b[n - 2] == CR && b[n - 1] == LF
  }

  /** The first line end is right before position `n`. */
  ghost predicate LineEndsAt(b: Bytes, n: nat) {
    n <= |b| && EndsLine(b, n) && forall m :: 0 <= m < n ==> !EndsLine(b, m)
  }

  /** No line end within the first `n` bytes. */
  ghost predicate NoLineEnd(b: Bytes, n: nat)
    requires n <= |b|
  {
    forall m :: 0 <= m <= n ==> !EndsLine(b, m)
  }

  /** Parsing `input` gives `r` and leaves `rest`; after a failure the stream is closed. */
  ghost predicate ParsesV1(lib: Lib, input: Bytes, r: Parsed, rest: Bytes) {
    && (forall n: nat :: LineEndsAt(input, n) && n <= MAX_LINE ==>
          r == LineMeaning(lib, input[..n - 2]) && rest == input[n..])
    && (|input| >= MAX_LINE && NoLineEnd(input, MAX_LINE) ==> r == Err(TooLong))
    && (|input| < MAX_LINE && NoLineEnd(input, |input|) ==> r == Err(UnexpectedEof))
  }

  /** `parse_v1`: reads byte by byte so that exactly the header is consumed. */
  method ParseV1(lib: Lib, reader: Reader) returns (r: Parsed)
    modifies reader
    ensures ParsesV1(lib, old(reader.rest), r, reader.rest)
  {
    hide LineMeaning;
    ghost var input := reader.rest;
    var buf := new Byte[MAX_LINE](_ => 0);
    var pos := 0;
    assert input[0..] == input;
    while pos < 2 || buf[pos - 2] != CR || buf[pos - 1] != LF
      invariant 0 <= pos <= MAX_LINE && pos <= |input|
      invariant buf[..pos] == input[..pos] && reader.rest == input[pos..]
      invariant forall m :: 0 <= m < pos ==> !EndsLine(input, m)
      decreases MAX_LINE - pos
    {
      SamePrefix(input, buf[..pos], pos);
      if pos >= MAX_LINE {
        return Err(TooLong);
      }
      var b := reader.ReadExact(1);
      if b.Err? {
        return Err(UnexpectedEof);
      }
      buf[pos] := b.value[0];
      pos := pos + 1;
      assert input[..pos] == input[..pos - 1] + [input[pos - 1]];
      assert input[pos - 1..][1..] == input[pos..];
    }
    SamePrefix(input, buf[..pos], pos);
    assert LineEndsAt(input, pos);
    assert buf[..pos - 2] == input[..pos - 2];
    OnlyOneEnd(input, pos);
    r := LineMeaning(lib, buf[..pos - 2]);
  }

  lemma SamePrefix(input: Bytes, read: Bytes, pos: nat)
    requires pos <= |input| && read == input[..pos]
    ensures EndsLine(input, pos) <==> pos >= 2 && read[pos - 2] == CR && read[pos - 1] == LF
  {
  }

  lemma OnlyOneEnd(b: Bytes, n: nat)
    requires LineEndsAt(b, n)
    ensures forall m: nat :: LineEndsAt(b, m) ==> m == n
    ensures forall m :: n <= m <= |b| ==> !NoLineEnd(b, m)
  {
    assert EndsLine(b, n);
  }

  // -- Round trip -----------------------------------------------------------------------------------

  /** The bytes of a line of text and its end. */
  ghost function HeaderBytes(line: string): Bytes
    requires IsAscii(line)
  {
    Ascii(line) + [CR, LF]
  }

  lemma LineReads(lib: Lib, line: string, tail: Bytes, r: Parsed, rest: Bytes)
    requires LibOk(lib) && IsLineText(line) && |line| + 2 <= MAX_LINE
    requires ParsesV1(lib, HeaderBytes(line) + tail, r, rest)
    ensures r == ParseLine(lib, line) && rest == tail
  {
    hide ParseLine, V6Ok;
    var input, n := HeaderBytes(line) + tail, |line| + 2;
    FirstEnd(line, tail);
    assert input[..n - 2] == Ascii(line) && input[n..] == tail;
  }

  lemma FirstEnd(line: string, tail: Bytes)
    requires IsLineText(line)
    ensures LineEndsAt(HeaderBytes(line) + tail, |line| + 2)
  {
    var input, n := HeaderBytes(line) + tail, |line| + 2;
    assert input[n - 2] == CR && input[n - 1] == LF;
    forall m | 0 <= m < n ensures !EndsLine(input, m) {
      if 2 <= m {
        assert input[m - 2] == line[m - 2] as nat;
      }
    }
  }

  lemma IpWord(lib: Lib, ip: IpAddr)
    requires LibOk(lib) && IsIp(ip)
    ensures IsWord(ShowIp(lib, ip)) && |ShowIp(lib, ip)| <= MAX_V6_TEXT
  {
    hide IsWord, ShowV4;
    if ip.V4? {
      V4Word(ip.octets);
    } else {
      assert V6Ok(lib, ip.octets);
    }
  }

  /** An address is read back under its own family, and not under the other. */
  lemma IpReads(lib: Lib, ip: IpAddr, proto: string)
    requires LibOk(lib) && IsIp(ip) && (proto == "TCP4" || proto == "TCP6")
    ensures ParseIp(lib, proto, ShowIp(lib, ip)) == if proto == Proto(ip) then Some(ip) else None
  {
    hide ParseV4, ShowV4, IsWord;
    if ip.V4? {
      V4Word(ip.octets);
      V4Reads(ip.octets);
    } else {
      assert V6Ok(lib, ip.octets);
      V4RejectsColon(lib.showV6(ip.octets));
    }
  }

  lemma ProtoWord(ip: IpAddr)
    ensures IsWord(Proto(ip)) && |Proto(ip)| == 4 && IsWord("PROXY")
  {
  }

  /** A built header fits the parser's buffer. */
  lemma V1Fits(lib: Lib, src: SockAddr, dst: SockAddr)
    requires LibOk(lib) && IsAddr(src) && IsAddr(dst)
    ensures IsLineText(Line(lib, src, dst)) && |Line(lib, src, dst)| + 2 <= MAX_LINE
  {
    hide LibOk, Words, Dec;
    ProtoWord(src.ip);
    IpWord(lib, src.ip);
    IpWord(lib, dst.ip);
    DecWord(src.port);
    DecWord(dst.port);
    DecLength(src.port);
    DecLength(dst.port);
    hide ShowIp, Proto, Free, IsAscii;
    WordsText("PROXY", Proto(src.ip), ShowIp(lib, src.ip), ShowIp(lib, dst.ip), Dec(src.port), Dec(dst.port));
  }

  lemma LineMeans(lib: Lib, src: SockAddr, dst: SockAddr)
    requires LibOk(lib) && IsAddr(src) && IsAddr(dst)
    ensures ParseLine(lib, Line(lib, src, dst)) ==
      if SameFamily(src, dst) then Ok(Some((src, dst))) else Err(BadText)
  {
    hide LibOk, Words, Dec, ParseIp, ParsePort, SplitOn, IsAscii, Free;
    ProtoWord(src.ip);
    IpWord(lib, src.ip);
    IpWord(lib, dst.ip);
    DecWord(src.port);
    WordsSplit("PROXY", Proto(src.ip), ShowIp(lib, src.ip), ShowIp(lib, dst.ip), Dec(src.port), Dec(dst.port));
    IpReads(lib, src.ip, Proto(src.ip));
    IpReads(lib, dst.ip, Proto(src.ip));
    PortReads(src.port);
    PortReads(dst.port);
  }

  /**
   Version 1, with any bytes following: what was built is read back, and the stream stands
   right behind the header, exactly when both addresses are of one family; a mixed pair is
   written under the source's family and refused by the parser.
   */
  lemma V1RoundTrip(lib: Lib, src: SockAddr, dst: SockAddr, tail: Bytes, r: Parsed, rest: Bytes)
    requires LibOk(lib) && IsAddr(src) && IsAddr(dst)
    requires IsAscii(Line(lib, src, dst)) && ParsesV1(lib, HeaderBytes(Line(lib, src, dst)) + tail, r, rest)
    ensures r == (if SameFamily(src, dst) then Ok(Some((src, dst))) else Err(BadText)) && rest == tail
  {
    hide ParsesV1, ParseLine, Line, IsLineText;
    V1Fits(lib, src, dst);
    LineReads(lib, Line(lib, src, dst), tail, r, rest);
    LineMeans(lib, src, dst);
  }

  /** `build_v1_unknown`. */
  const UNKNOWN_LINE: string := "PROXY" + [' '] + "UNKNOWN"

  lemma UnknownMeans(lib: Lib)
    ensures ParseLine(lib, UNKNOWN_LINE) == Ok(None)
  {
    SplitFirst("PROXY", "UNKNOWN", ' ', 6);
    SplitLast("UNKNOWN", ' ', 5);
    hide SplitOn, ParsePort, ParseIp;
    assert SplitOn(UNKNOWN_LINE, ' ', 6) == ["PROXY", "UNKNOWN"];
  }

  lemma UnknownText()
    ensures IsLineText(UNKNOWN_LINE) && |UNKNOWN_LINE| == 13
  {
  }

  /** The header for unknown addresses carries none, and is consumed exactly. */
  lemma V1UnknownReads(lib: Lib, tail: Bytes, r: Parsed, rest: Bytes)
    requires LibOk(lib) && IsAscii(UNKNOWN_LINE) && ParsesV1(lib, HeaderBytes(UNKNOWN_LINE) + tail, r, rest)
    ensures r == Ok(None) && rest == tail
  {
    hide ParsesV1, ParseLine, IsLineText, LibOk;
    UnknownText();
    LineReads(lib, UNKNOWN_LINE, tail, r, rest);
    UnknownMeans(lib);
  }
}

/** Where a tunnel leads, and the text that names it. */
module Destinations {
  import opened Addresses
  import opened Bytes
  import opened Text

  datatype Host = Ip(ip: IpAddr) | Domain(name: seq<Byte>)

  datatype Destination = Destination(host: Host, port: U16)

  // ---------------------------------------------------------------------------
  // Rendering
  // ---------------------------------------------------------------------------

  const DOT: Byte := 46

  function Ipv4Text(ip: Ipv4): seq<Byte> {
    Decimal(ip.a) + [DOT] + Decimal(ip.b) + [DOT] + Decimal(ip.c) + [DOT] + Decimal(ip.d)
  }

  /** A segment in lower-case hexadecimal digits. */
  function Hex(n: nat): (s: seq<Byte>)
    ensures forall k :: 0 <= k < |s| ==> 48 <= s[k] <= 57 || 97 <= s[k] <= 102
  {
    var digit: Byte := if n % 16 < 10 then 48 + n % 16 else 87 + n % 16;
    if n < 16 then [digit] else Hex(n / 16) + [digit]
  }

  function Segments(octets: Octets16): (s: seq<U16>)
    ensures |s| == 8
  {
    seq(8, k requires 0 <= k < 8 => Word(octets, 2 * k))
  }

  datatype Span = Span(start: nat, len: nat)

  /** The longest run of zero segments, the first of them if there are several. */
  function LongestZeros(segments: seq<U16>, i: nat, current: Span, longest: Span): (r: Span)
    requires i <= |segments| && current.start + current.len <= i && longest.start + longest.len <= i
    requires current.len > 0 ==> current.start + current.len == i
    ensures r.start + r.len <= |segments|
    decreases |segments| - i
  {
    if i == |segments| then longest
    else if segments[i] != 0 then LongestZeros(segments, i + 1, Span(0, 0), longest)
    else
      var grown := if current.len == 0 then Span(i, 1) else Span(current.start, current.len + 1);
      LongestZeros(segments, i + 1, grown, if grown.len > longest.len then grown else longest)
  }

  function Joined(segments: seq<U16>): seq<Byte> {
    if segments == [] then []
    else if |segments| == 1 then Hex(segments[0])
    else Hex(segments[0]) + [COLON] + Joined(segments[1..])
  }

  /** A mapped IPv4 address in its own notation; otherwise the longest run of zero segments, if it is longer
      than one, is shortened to two colons. */
  function Ipv6Text(octets: Octets16): seq<Byte> {
    if octets[..10] == seq(10, _ => 0) && octets[10] == octets[11] == 0xff then
      Ascii("::ffff:") + Ipv4Text(Ipv4(octets[12], octets[13], octets[14], octets[15]))
    else
      var segments := Segments(octets);
      var zeros := LongestZeros(segments, 0, Span(0, 0), Span(0, 0));
      if zeros.len > 1 then
        Joined(segments[..zeros.start]) + [COLON, COLON] + Joined(segments[zeros.start + zeros.len..])
      else Joined(segments)
  }

  function HostText(h: Host): seq<Byte> {
    match h
    case Ip(V4(v4)) => Ipv4Text(v4)
    case Ip(V6(octets)) => Ipv6Text(octets)
    case Domain(name) => name
  }

  /** `host:port`, without brackets around an IPv6 address. */
  function Authority(d: Destination): seq<Byte> {
    HostText(d.host) + [COLON] + Decimal(d.port)
  }

  // ---------------------------------------------------------------------------
  // What can stand in front of the colon of an authority
  // ---------------------------------------------------------------------------

  predicate Plain(text: seq<Byte>) {
    SP !in text && CR !in text && LF !in text
  }

  /** No delimiter of a request line or of an authority: no blank, no line break, no colon, and no bracket in
      front. */
  predicate Undelimited(text: seq<Byte>) {
    Plain(text) && COLON !in text && (text != [] ==> text[0] != OPEN)
  }

  /** Unreserved characters and sub-delimiters (RFC 3986, section 2). */
  predicate NameChar(b: Byte) {
    || 65 <= b <= 90 || 97 <= b <= 122 || 48 <= b <= 57
    || b in {45, 46, 95, 126}
    || b in {33, 36, 38, 39, 40, 41, 42, 43, 44, 59, 61}
  }

  predicate HexDigit(b: Byte) {
    48 <= b <= 57 || 65 <= b <= 70 || 97 <= b <= 102
  }

  /** A registered name (RFC 3986, section 3.2.2): such characters and percent-encoded bytes. */
  predicate IsRegName(text: seq<Byte>) {
    || text == []
    || (NameChar(text[0]) && IsRegName(text[1..]))
    || (|text| >= 3 && text[0] == 37 && HexDigit(text[1]) && HexDigit(text[2]) && IsRegName(text[3..]))
  }

  lemma {:induction false} RegNameIsUndelimited(text: seq<Byte>)
    requires IsRegName(text)
    ensures Undelimited(text)
  {
    if text != [] {
      if NameChar(text[0]) && IsRegName(text[1..]) {
        RegNameIsUndelimited(text[1..]);
        assert text == [text[0]] + text[1..];
      } else {
        RegNameIsUndelimited(text[3..]);
        assert text == [text[0], text[1], text[2]] + text[3..];
      }
    }
  }

  lemma {:induction false} NameCharsAreRegName(text: seq<Byte>)
    requires forall k :: 0 <= k < |text| ==> NameChar(text[k])
    ensures IsRegName(text)
  {
    if text != [] {
      NameCharsAreRegName(text[1..]);
    }
  }

  lemma Ipv4IsRegName(ip: Ipv4)
    ensures IsRegName(Ipv4Text(ip))
  {
    NameCharsAreRegName(Ipv4Text(ip));
  }

  /** Every way of writing an IPv6 address has a colon in it. */
  lemma Ipv6HasColon(octets: Octets16)
    ensures COLON in Ipv6Text(octets)
  {
    hide Ipv4Text, Joined, Segments, LongestZeros;
    var segments := Segments(octets);
    JoinedHasColon(segments);
    assert Ascii("::ffff:")[0] == COLON;
    var zeros := LongestZeros(segments, 0, Span(0, 0), Span(0, 0));
    var front, back := Joined(segments[..zeros.start]), Joined(segments[zeros.start + zeros.len..]);
    assert (front + [COLON, COLON] + back)[|front|] == COLON;
  }

  lemma JoinedHasColon(segments: seq<U16>)
    requires |segments| > 1
    ensures COLON in Joined(segments)
  {
    assert Joined(segments)[|Hex(segments[0])|] == COLON;
  }
}

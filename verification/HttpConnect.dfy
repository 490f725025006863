/** The CONNECT handshake with an upstream proxy. */
module HttpConnect {
  import opened Addresses
  import opened Bytes
  import opened Destinations
  import opened Http
  import opened HttpHost
  import opened Stream
  import opened Text
  import opened Utf8
  import opened Wrappers

  const MAX_CONNECT_RESPONSE: nat := 8192

  datatype ConnectError = ProxyClosed | ResponseTooLong | Refused

  // ---------------------------------------------------------------------------
  // The request, and a reader for it
  // ---------------------------------------------------------------------------

  function ConnectRequest(d: Destination): seq<Byte> {
    Ascii("CONNECT ") + Authority(d) + Ascii(" HTTP/1.1\r\nHost: ") + Authority(d) + Ascii("\r\n\r\n")
  }

  /** A line ends at a line feed with a carriage return before it; a carriage return elsewhere makes it
      invalid (RFC 9112, section 2.2). */
  function ReadLine(s: seq<Byte>): (r: Option<(seq<Byte>, seq<Byte>)>)
    ensures r.Some? ==> CR !in r.value.0 && LF !in r.value.0
  {
    var (line, rest) :- SplitOnce(s, LF);
    if line == [] || line[|line| - 1] != CR || CR in line[..|line| - 1] then None
    else Some((line[..|line| - 1], rest))
  }

  /** The authority form `uri-host ":" port` (RFC 9112, section 3.2.3): an address in brackets, or a host that
      ends at the first colon. A strict reader also wants that host to be a registered name or IPv4 address
      (RFC 3986, section 3.2.2); one that is not strict goes by the delimiters only. */
  function ReadAuthority(s: seq<Byte>, strict: bool): Option<(seq<Byte>, nat)> {
    if s != [] && s[0] == OPEN then
      var (address, tail) :- SplitOnce(s[1..], CLOSE);
      if tail == [] || tail[0] != COLON then None
      else
        var port :- ParseDecimal(tail[1..]);
        Some((address, port))
    else
      var (host, digits) :- SplitOnce(s, COLON);
      var port :- ParseDecimal(digits);
      if strict && !IsRegName(host) then None else Some((host, port))
  }

  /** The request line of a CONNECT request (RFC 9112, section 3.2.3). */
  function ReadRequestLine(line: seq<Byte>): Option<seq<Byte>> {
    var (verb, tail) :- SplitOnce(line, SP);
    var (target, version) :- SplitOnce(tail, SP);
    if verb == Ascii("CONNECT") && version == Ascii("HTTP/1.1") then Some(target) else None
  }

  /** A whole CONNECT request with a matching Host header and no other: the host and port it names, and the
      bytes behind its header block. */
  function ReadConnect(s: seq<Byte>, strict: bool): Option<(seq<Byte>, nat, seq<Byte>)> {
    var (first, headers) :- ReadLine(s);
    var target :- ReadRequestLine(first);
    var (host, port) :- ReadAuthority(target, strict);
    var (second, others) :- ReadLine(headers);
    var (name, value) :- SplitOnce(second, COLON);
    var (last, tunnel) :- ReadLine(others);
    if IsHost(name) && value == [SP] + target && last == [] then Some((host, port, tunnel)) else None
  }

  lemma LineRead(line: seq<Byte>, rest: seq<Byte>)
    requires CR !in line && LF !in line
    ensures ReadLine(line + [CR, LF] + rest) == Some((line, rest))
  {
    SplitAtFirst(line + [CR], LF, rest);
    assert line + [CR, LF] + rest == line + [CR] + [LF] + rest;
    assert (line + [CR])[..|line|] == line;
  }

  lemma RequestLineRead(target: seq<Byte>)
    requires SP !in target
    ensures ReadRequestLine(Ascii("CONNECT") + [SP] + (target + [SP] + Ascii("HTTP/1.1"))) == Some(target)
  {
    SplitAtFirst(Ascii("CONNECT"), SP, target + [SP] + Ascii("HTTP/1.1"));
    SplitAtFirst(target, SP, Ascii("HTTP/1.1"));
  }

  lemma AuthorityRead(d: Destination, strict: bool)
    requires Undelimited(HostText(d.host)) && (strict ==> IsRegName(HostText(d.host)))
    ensures ReadAuthority(Authority(d), strict) == Some((HostText(d.host), d.port as nat))
  {
    SplitAtFirst(HostText(d.host), COLON, Decimal(d.port));
    DecimalRoundTrip(d.port);
    assert Authority(d)[0] == if HostText(d.host) == [] then COLON else HostText(d.host)[0];
  }

  /** A text that goes on as itself one place later, up to a colon, is all colons. */
  lemma {:induction false} AllColons(s: seq<Byte>, text: seq<Byte>, k: nat)
    requires k < |text| < |s| && s[..|text|] == text && s[1..1 + |text|] == text && s[|text|] == COLON
    ensures text[k] == COLON
    decreases |text| - k
  {
    assert text[k] == s[1..1 + |text|][k] == s[k + 1];
    if k + 1 < |text| {
      assert s[k + 1] == s[..|text|][k + 1];
      AllColons(s, text, k + 1);
    }
  }

  /** A host that a reader takes from an authority is not the text in front of it, if that has delimiters. */
  lemma DelimitedIsMisread(text: seq<Byte>, digits: seq<Byte>, strict: bool)
    requires COLON in text || (text != [] && text[0] == OPEN)
    ensures var read := ReadAuthority(text + [COLON] + digits, strict); read.Some? ==> read.value.0 != text
  {
    var s := text + [COLON] + digits;
    if s[0] == OPEN && CLOSE in s[1..] {
      var (address, tail) := SplitOnce(s[1..], CLOSE).value;
      if address == text {
        assert s[1..] == address + [CLOSE] + tail;
        assert s[1..1 + |text|] == s[1..][..|text|];
        assert (address + [CLOSE] + tail)[..|address|] == address;
        assert s[..|text|] == text && s[|text|] == COLON;
        AllColons(s, text, 0);
      }
    }
  }

  lemma FixedText()
    ensures Ascii("CONNECT ") == Ascii("CONNECT") + [SP]
    ensures Ascii(" HTTP/1.1\r\nHost: ") == [SP] + Ascii("HTTP/1.1") + [CR, LF] + Ascii("Host") + [COLON, SP]
    ensures Ascii("\r\n\r\n") == [CR, LF, CR, LF]
  {
  }

  /** The request in lines. */
  lemma RequestLines(d: Destination, tunnel: seq<Byte>)
    ensures ConnectRequest(d) + tunnel ==
            (Ascii("CONNECT") + [SP] + (Authority(d) + [SP] + Ascii("HTTP/1.1"))) + [CR, LF]
            + ((Ascii("Host") + [COLON] + ([SP] + Authority(d))) + [CR, LF] + ([] + [CR, LF] + tunnel))
  {
    hide Ascii, Authority;
    FixedText();
  }

  /** The reader gets as far as the authority and through the headers whenever the host is plain. */
  lemma PlainRequestRead(d: Destination, tunnel: seq<Byte>, strict: bool)
    requires Plain(HostText(d.host))
    ensures ReadConnect(ConnectRequest(d) + tunnel, strict) ==
            match ReadAuthority(Authority(d), strict)
            case None => None
            case Some((host, port)) => Some((host, port, tunnel))
  {
    hide Ascii, ReadLine, ReadRequestLine, ReadAuthority;
    var target := Authority(d);
    var first := Ascii("CONNECT") + [SP] + (target + [SP] + Ascii("HTTP/1.1"));
    var second := Ascii("Host") + [COLON] + ([SP] + target);
    FixedTextIsPlain();
    RequestLines(d, tunnel);
    LineRead(first, second + [CR, LF] + ([] + [CR, LF] + tunnel));
    LineRead(second, [] + [CR, LF] + tunnel);
    LineRead([], tunnel);
    RequestLineRead(target);
    SplitAtFirst(Ascii("Host"), COLON, [SP] + target);
  }

  lemma FixedTextIsPlain()
    ensures Plain(Ascii("CONNECT")) && Plain(Ascii("HTTP/1.1")) && Plain(Ascii("Host"))
    ensures COLON !in Ascii("Host") && IsHost(Ascii("Host"))
  {
  }

  /** What a reader recovers never holds a blank or a line break. */
  lemma ReadHostIsPlain(s: seq<Byte>, strict: bool)
    requires ReadConnect(s, strict).Some?
    ensures Plain(ReadConnect(s, strict).value.0)
  {
    hide Ascii, ReadLine, IsHost, ReadAuthority, SplitOnce;
    var (first, headers) := ReadLine(s).value;
    var target := ReadRequestLine(first).value;
    var tail := SplitOnce(first, SP).value.1;
    PartsOf(first, SplitOnce(first, SP).value.0, SP, tail);
    PartsOf(tail, target, SP, SplitOnce(tail, SP).value.1);
    AuthorityHost(target, strict);
  }

  lemma AuthorityHost(s: seq<Byte>, strict: bool)
    requires ReadAuthority(s, strict).Some?
    ensures forall b :: b in ReadAuthority(s, strict).value.0 ==> b in s
  {
    hide SplitOnce, ParseDecimal, IsRegName;
    if s[0] == OPEN {
      var (address, tail) := SplitOnce(s[1..], CLOSE).value;
      PartsOf(s[1..], address, CLOSE, tail);
    } else {
      var (host, digits) := SplitOnce(s, COLON).value;
      PartsOf(s, host, COLON, digits);
    }
  }

  lemma PartsOf(s: seq<Byte>, front: seq<Byte>, b: Byte, back: seq<Byte>)
    requires s == front + [b] + back
    ensures forall c :: c in front || c in back ==> c in s
  {
  }

  /** A reader of the request gets the host's text, the port, and exactly one header block in front of the
      tunnel. */
  predicate Recovered(d: Destination, tunnel: seq<Byte>, strict: bool) {
    ReadConnect(ConnectRequest(d) + tunnel, strict) == Some((HostText(d.host), d.port as nat, tunnel))
  }

  /** That is so exactly when the host has no delimiters in it: no space, no line break, no colon, and no bracket
      in front. A strict reader also wants a registered name. */
  lemma RequestNamesDestinationIff(d: Destination, tunnel: seq<Byte>, strict: bool)
    ensures Recovered(d, tunnel, strict) <==>
            Undelimited(HostText(d.host)) && (strict ==> IsRegName(HostText(d.host)))
  {
    hide ReadConnect, ReadAuthority, HostText, ConnectRequest;
    var text := HostText(d.host);
    if !Plain(text) {
      if ReadConnect(ConnectRequest(d) + tunnel, strict).Some? {
        ReadHostIsPlain(ConnectRequest(d) + tunnel, strict);
      }
    } else {
      PlainRequestRead(d, tunnel, strict);
      if Undelimited(text) && (strict ==> IsRegName(text)) {
        AuthorityRead(d, strict);
      } else if !Undelimited(text) {
        DelimitedIsMisread(text, Decimal(d.port), strict);
      } else {
        UnnamedIsMisread(text, Decimal(d.port));
      }
    }
  }

  lemma UnnamedIsMisread(text: seq<Byte>, digits: seq<Byte>)
    requires Undelimited(text) && !IsRegName(text)
    ensures ReadAuthority(text + [COLON] + digits, true).None?
  {
    SplitAtFirst(text, COLON, digits);
    assert (text + [COLON] + digits)[0] == text[0];
  }

  /** A strict reader recovers exactly the destinations whose host is a registered name or IPv4 address. */
  lemma StrictReaderIff(d: Destination, tunnel: seq<Byte>)
    ensures Recovered(d, tunnel, true) <==> IsRegName(HostText(d.host))
  {
    hide Recovered;
    RequestNamesDestinationIff(d, tunnel, true);
    if IsRegName(HostText(d.host)) {
      RegNameIsUndelimited(HostText(d.host));
    }
  }

  /** A destination given as an address is recovered exactly if it is IPv4: an IPv6 address goes without the
      brackets it needs. */
  lemma RequestNamesAddressIff(ip: IpAddr, port: U16, tunnel: seq<Byte>, strict: bool)
    ensures Recovered(Destination(Ip(ip), port), tunnel, strict) <==> ip.V4?
  {
    hide Recovered, Ipv4Text, Ipv6Text;
    RequestNamesDestinationIff(Destination(Ip(ip), port), tunnel, strict);
    match ip
    case V4(v4) =>
      Ipv4IsRegName(v4);
      RegNameIsUndelimited(Ipv4Text(v4));
    case V6(octets) =>
      Ipv6HasColon(octets);
  }

  /** A name with a space in it, which both gateways can hand over, is not recovered. */
  lemma SpaceIsMisread(tunnel: seq<Byte>)
    ensures !Recovered(Destination(Domain([97, SP, 98]), 443), tunnel, false)
  {
    hide Recovered;
    assert [97, SP, 98][1] == SP;
    RequestNamesDestinationIff(Destination(Domain([97, SP, 98]), 443), tunnel, false);
  }

  // ---------------------------------------------------------------------------
  // IPv6 Host headers
  // ---------------------------------------------------------------------------

  /** From a bracketed address in a Host header the brackets go, and without them it is not recovered. */
  lemma StrippedAddressIsMisread(address: seq<Byte>, port: seq<Byte>, tunnel: seq<Byte>)
    requires CLOSE !in address && COLON in address
    ensures StripHostPort([OPEN] + (address + [CLOSE] + port)) == address
    ensures !Recovered(Destination(Domain(address), 80), tunnel, false)
  {
    hide Recovered;
    BracketsAreStripped(address, port);
    RequestNamesDestinationIff(Destination(Domain(address), 80), tunnel, false);
  }

  /** Hexadecimal digits, dots, and at least one colon. */
  predicate IsIpv6Like(address: seq<Byte>) {
    COLON in address && forall k :: 0 <= k < |address| ==> HexDigit(address[k]) || address[k] in {COLON, DOT}
  }

  /** `Host: [address]:port`. */
  function BracketedHeader(address: seq<Byte>, port: U16): Header {
    Header(Ascii("Host"), [SP] + Bracketed(address, port))
  }

  function Bracketed(address: seq<Byte>, port: U16): seq<Byte> {
    [OPEN] + (address + [CLOSE] + ([COLON] + Decimal(port)))
  }

  function BracketedRequest(address: seq<Byte>, port: U16): seq<Byte> {
    Ascii("GET / HTTP/1.1") + [CR, LF] + RenderHeaders([BracketedHeader(address, port)])
  }

  predicate IsAscii(s: seq<Byte>) {
    forall k :: 0 <= k < |s| ==> s[k] < 0x80
  }

  lemma RequestLineText()
    ensures IsAscii(Ascii("GET / HTTP/1.1")) && IsAscii(Ascii("Host"))
    ensures COLON !in Ascii("GET / HTTP/1.1") && LF !in Ascii("GET / HTTP/1.1") && LF !in Ascii("Host")
  {
  }

  lemma BracketedText(address: seq<Byte>, port: U16)
    requires IsIpv6Like(address)
    ensures COLON in address && CLOSE !in address
    ensures LF !in Bracketed(address, port) && IsAscii(Bracketed(address, port))
    ensures 48 <= Bracketed(address, port)[|Bracketed(address, port)| - 1] <= 57
  {
  }

  /** A browser's request to an IPv6 address: the gateway takes the bare address from it, and the tunnel it asks
      for is not to that address. */
  lemma Ipv6HostHeaderIsMisread(address: seq<Byte>, port: U16, tunnel: seq<Byte>)
    requires IsIpv6Like(address)
    ensures HostOf(BracketedRequest(address, port)) == Ok(address)
    ensures !Recovered(Destination(Domain(address), 80), tunnel, false)
  {
    hide Ascii, Recovered, IsUtf8, IsHost, HostOf, StripHostPort, Trim, IsIpv6Like, RenderHeaders, Bracketed, FirstHost;
    hide Printable, HostInLine;
    var h := BracketedHeader(address, port);
    RequestLineHasNoHost();
    BracketedHeaderFits(address, port);
    BracketedHeaderHost(address, port);
    BracketedRequestIsAscii(address, port);
    AsciiIsUtf8(BracketedRequest(address, port));
    RequestNamesHost(Ascii("GET / HTTP/1.1"), [h]);
    BracketedText(address, port);
    StrippedAddressIsMisread(address, [COLON] + Decimal(port), tunnel);
  }

  lemma RequestLineHasNoHost()
    ensures LF !in Ascii("GET / HTTP/1.1") && HostInLine(Ascii("GET / HTTP/1.1")).None?
  {
    hide Ascii;
    RequestLineText();
  }

  lemma BracketedHeaderFits(address: seq<Byte>, port: U16)
    requires IsIpv6Like(address)
    ensures Printable(BracketedHeader(address, port))
  {
    hide Ascii, Bracketed, IsIpv6Like;
    RequestLineText();
    FixedTextIsPlain();
    BracketedText(address, port);
  }

  /** The header names the address without its brackets. */
  lemma BracketedHeaderHost(address: seq<Byte>, port: U16)
    requires IsIpv6Like(address)
    ensures FirstHost([BracketedHeader(address, port)]) == Ok(address)
  {
    hide Ascii, IsHost, IsIpv6Like, StripHostPort, Trim, Decimal;
    FixedTextIsPlain();
    BracketedText(address, port);
    TrimsOneSpace(Bracketed(address, port));
    BracketsAreStripped(address, [COLON] + Decimal(port));
    OneHeader(BracketedHeader(address, port));
  }

  lemma BracketedRequestIsAscii(address: seq<Byte>, port: U16)
    requires IsIpv6Like(address)
    ensures IsAscii(BracketedRequest(address, port))
  {
    hide Ascii, RenderHeaders, Bracketed, IsIpv6Like;
    RequestLineText();
    BracketedText(address, port);
    OneHeader(BracketedHeader(address, port));
  }

  lemma Ipv6LikeText()
    ensures IsIpv6Like(Ascii("2001:db8::1"))
  {
    assert Ascii("2001:db8::1")[4] == COLON;
  }

  lemma OneHeader(h: Header)
    ensures RenderHeaders([h]) == Field(h) + [CR, LF] + [CR, LF]
    ensures IsHost(h.name) && Trim(h.value) != [] ==> FirstHost([h]) == Ok(StripHostPort(Trim(h.value)))
  {
    assert [h][1..] == [];
  }

  lemma NoSpaceAtEnds(text: seq<Byte>)
    requires |text| > 0 && 33 <= text[0] < 0x80 && 33 <= text[|text| - 1] < 0x80
    ensures LeadingSpace(text) == 0 && TrailingSpace(text) == 0
  {
  }

  lemma TrimsOneSpace(text: seq<Byte>)
    requires |text| > 0 && 33 <= text[0] < 0x80 && 33 <= text[|text| - 1] < 0x80
    ensures Trim([SP] + text) == text
  {
    hide LeadingSpace, TrailingSpace;
    OneLeadingSpace(text);
    NoSpaceAtEnds(text);
    assert ([SP] + text)[1..] == text;
  }

  lemma OneLeadingSpace(text: seq<Byte>)
    ensures LeadingSpace([SP] + text) == 1
  {
    assert ([SP] + text)[..1] == [SP];
  }

  lemma {:induction false} AsciiIsUtf8(s: seq<Byte>)
    requires IsAscii(s)
    ensures IsUtf8(s)
  {
    if s != [] {
      AsciiIsUtf8(s[1..]);
    }
  }

  // ---------------------------------------------------------------------------
  // The handshake
  // ---------------------------------------------------------------------------

  predicate Accepts(response: seq<Byte>) {
    Ascii("HTTP/1.1 200") <= response || Ascii("HTTP/1.0 200") <= response
  }

  /** Success is status 200 in HTTP/1.0 or HTTP/1.1. */
  lemma AcceptsIff(response: seq<Byte>)
    ensures Accepts(response) <==>
            && |response| >= 12
            && response[..7] == [72, 84, 84, 80, 47, 49, 46]
            && (response[7] == 48 || response[7] == 49)
            && response[8..12] == [32, 50, 48, 48]
  {
    assert Ascii("HTTP/1.1 200") == [72, 84, 84, 80, 47, 49, 46, 49, 32, 50, 48, 48];
    assert Ascii("HTTP/1.0 200") == [72, 84, 84, 80, 47, 49, 46, 48, 32, 50, 48, 48];
    if |response| >= 12 {
      assert response[..12] == response[..7] + [response[7]] + response[8..12];
    }
  }

  /** `send_connect_request`, one byte at a time. The tunnel opens exactly when the first header block of
      the answer ends within the limit and announces success, and then the next byte of the stream is the
      first byte of the tunnel. */
  method SendConnectRequest(stream: Connection, destination: Destination) returns (r: Result<(), ConnectError>)
    modifies stream
    ensures stream.sent == old(stream.sent) + ConnectRequest(destination)
    ensures r.Ok? <==>
            && FindHeaderEnd(old(stream.incoming)).Some?
            && FindHeaderEnd(old(stream.incoming)).value <= 8192
            && Accepts(old(stream.incoming)[..FindHeaderEnd(old(stream.incoming)).value])
    ensures r.Ok? || r == Err(Refused) ==>
              && FindHeaderEnd(old(stream.incoming)).Some?
              && stream.incoming == old(stream.incoming)[FindHeaderEnd(old(stream.incoming)).value..]
    ensures r == Err(ResponseTooLong) <==>
              if FindHeaderEnd(old(stream.incoming)).Some? then FindHeaderEnd(old(stream.incoming)).value > 8192
              else |old(stream.incoming)| >= 8192
    ensures r == Err(ProxyClosed) <==>
            FindHeaderEnd(old(stream.incoming)).None? && |old(stream.incoming)| < 8192
  {
    hide EndsAt, FindHeaderEnd, ConnectRequest, Accepts;
    ghost var answer := stream.incoming;
    stream.WriteAll(ConnectRequest(destination));
    var response := [];
    while |response| < MAX_CONNECT_RESPONSE
      invariant |response| <= MAX_CONNECT_RESPONSE
      invariant answer == response + stream.incoming
      invariant stream.sent == old(stream.sent) + ConnectRequest(destination)
      invariant FindHeaderEnd(response).None?
      decreases MAX_CONNECT_RESPONSE - |response|
    {
      var byte := stream.ReadExact(1);
      if byte.None? {
        assert answer == response;
        return Err(ProxyClosed);
      }
      assert byte.value == [byte.value[0]];
      EndOfLonger(response, byte.value[0]);
      response := response + byte.value;
      if EndsAt(response, |response|) {
        assert answer == response + stream.incoming;
        PrefixWithEnd(response, stream.incoming);
        assert answer[..|response|] == response && answer[|response|..] == stream.incoming;
        if !Accepts(response) {
          return Err(Refused);
        }
        return Ok(());
      }
    }
    PrefixWithoutEnd(response, stream.incoming);
    return Err(ResponseTooLong);
  }

  /** One more byte can only complete a header end at the very end. */
  lemma EndOfLonger(s: seq<Byte>, b: Byte)
    requires FindHeaderEnd(s).None?
    ensures FindHeaderEnd(s + [b]) == if EndsAt(s + [b], |s| + 1) then Some(|s| + 1) else None
  {
    var t := s + [b];
    assert t[..|s|] == s;
    forall d | d <= |s| ensures !EndsAt(t, d) {
      EndsInPrefix(t, |s|, d);
    }
    if EndsAt(t, |t|) {
      FirstEndIsFound(t, |t|);
    }
  }
}

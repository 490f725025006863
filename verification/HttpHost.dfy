/** The host named by an HTTP request head, on the bytes of a text that has been found to be UTF-8. */
module HttpHost {
  import opened Bytes
  import opened Text
  import opened Utf8
  import opened Wrappers

  datatype HostError = NotUtf8 | EmptyHost | MissingHost

  type HostResult = Result<seq<Byte>, HostError>

  // ---------------------------------------------------------------------------
  // Text operations
  // ---------------------------------------------------------------------------

  function WithoutCr(line: seq<Byte>): seq<Byte> {
    if line != [] && line[|line| - 1] == CR then line[..|line| - 1] else line
  }

  /** `lines`: each ends at a line feed, which goes with a carriage return before it. */
  function Lines(text: seq<Byte>): seq<seq<Byte>>
    decreases |text|
  {
    match SplitOnce(text, LF)
    case None => if text == [] then [] else [text]
    case Some((line, rest)) => [WithoutCr(line)] + Lines(rest)
  }

  function Lower(b: Byte): Byte {
    if 65 <= b <= 90 then b + 32 else b
  }

  /** `eq_ignore_ascii_case("host")`. */
  predicate IsHost(name: seq<Byte>) {
    |name| == 4 && Lower(name[0]) == 104 && Lower(name[1]) == 111 && Lower(name[2]) == 115 && Lower(name[3]) == 116
  }

  /** The characters with the Unicode property White_Space, as UTF-8. */
  predicate IsSpace(c: seq<Byte>) {
    || (|c| == 1 && (9 <= c[0] <= 13 || c[0] == 32))
    || (|c| == 2 && c[0] == 0xc2 && (c[1] == 0x85 || c[1] == 0xa0))
    || c == [0xe1, 0x9a, 0x80]
    || (|c| == 3 && c[0] == 0xe2 && c[1] == 0x80
        && (0x80 <= c[2] <= 0x8a || c[2] == 0xa8 || c[2] == 0xa9 || c[2] == 0xaf))
    || c == [0xe2, 0x81, 0x9f]
    || c == [0xe3, 0x80, 0x80]
  }

  function LeadingSpace(s: seq<Byte>): (n: nat)
    ensures n <= |s|
  {
    if |s| >= 1 && IsSpace(s[..1]) then 1
    else if |s| >= 2 && IsSpace(s[..2]) then 2
    else if |s| >= 3 && IsSpace(s[..3]) then 3
    else 0
  }

  function TrailingSpace(s: seq<Byte>): (n: nat)
    ensures n <= |s|
  {
    if |s| >= 1 && IsSpace(s[|s| - 1..]) then 1
    else if |s| >= 2 && IsSpace(s[|s| - 2..]) then 2
    else if |s| >= 3 && IsSpace(s[|s| - 3..]) then 3
    else 0
  }

  function Trim(s: seq<Byte>): (t: seq<Byte>)
    ensures LeadingSpace(t) == 0 && TrailingSpace(t) == 0
    decreases |s|
  {
    if LeadingSpace(s) > 0 then Trim(s[LeadingSpace(s)..])
    else if TrailingSpace(s) > 0 then Trim(s[..|s| - TrailingSpace(s)])
    else s
  }

  function StripHostPort(host: seq<Byte>): seq<Byte> {
    if host != [] && host[0] == OPEN then
      match SplitOnce(host[1..], CLOSE)
      case None => host
      case Some((inner, _)) => inner
    else
      match SplitOnce(host, COLON)
      case None => host
      case Some((name, _)) => name
  }

  // ---------------------------------------------------------------------------
  // The Host header
  // ---------------------------------------------------------------------------

  function HostInLine(line: seq<Byte>): Option<seq<Byte>> {
    match SplitOnce(line, COLON)
    case None => None
    case Some((name, value)) => if IsHost(name) then Some(value) else None
  }

  function HostInLines(lines: seq<seq<Byte>>): HostResult {
    if lines == [] then Err(MissingHost)
    else
      match HostInLine(lines[0])
      case None => HostInLines(lines[1..])
      case Some(value) => if Trim(value) == [] then Err(EmptyHost) else Ok(StripHostPort(Trim(value)))
  }

  function HostOf(request: seq<Byte>): HostResult {
    if !IsUtf8(request) then Err(NotUtf8) else HostInLines(Lines(request))
  }

  /** `parse_http_host`. */
  method ParseHttpHost(request: seq<Byte>) returns (r: HostResult)
    ensures r == HostOf(request)
  {
    if !IsUtf8(request) {
      return Err(NotUtf8);
    }
    var lines := Lines(request);
    var i := 0;
    while i < |lines|
      invariant 0 <= i <= |lines|
      invariant HostInLines(lines[i..]) == HostInLines(lines)
    {
      assert lines[i..][1..] == lines[i + 1..];
      var split := SplitOnce(lines[i], COLON);
      i := i + 1;
      if split.None? {
        continue;
      }
      var (name, value) := split.value;
      if IsHost(name) {
        var host := Trim(value);
        if host == [] {
          return Err(EmptyHost);
        }
        return Ok(StripHostPort(host));
      }
    }
    return Err(MissingHost);
  }

  // ---------------------------------------------------------------------------
  // A rendered request head names the host of its first Host header
  // ---------------------------------------------------------------------------

  /** The name is "host" in any letter case. */
  lemma IsHostIff(name: seq<Byte>)
    ensures IsHost(name) <==>
            |name| == 4
            && forall k :: 0 <= k < 4 ==> name[k] == [104, 111, 115, 116][k] || name[k] == [72, 79, 83, 84][k]
  {
  }

  /** The lines of a text, by the four ways a text can begin: a line feed ends a line, with a carriage return
      before it if there is one, and what is left behind the last line feed is a line unless it is empty. */
  lemma LineRules(line: seq<Byte>, rest: seq<Byte>)
    requires LF !in line
    ensures Lines([]) == []
    ensures line != [] ==> Lines(line) == [line]
    ensures Lines(line + [CR, LF] + rest) == [line] + Lines(rest)
    ensures line == [] || line[|line| - 1] != CR ==> Lines(line + [LF] + rest) == [line] + Lines(rest)
  {
    LineInFront(line, rest);
    SplitAtFirst(line, LF, rest);
  }

  datatype Header = Header(name: seq<Byte>, value: seq<Byte>)

  /** A header line cannot contain a line feed, and a name cannot contain a colon. */
  predicate Printable(h: Header) {
    COLON !in h.name && LF !in h.name && LF !in h.value
  }

  function Field(h: Header): seq<Byte> {
    h.name + [COLON] + h.value
  }

  function RenderHeaders(hs: seq<Header>): seq<Byte> {
    if hs == [] then [CR, LF] else Field(hs[0]) + [CR, LF] + RenderHeaders(hs[1..])
  }

  function FirstHost(hs: seq<Header>): HostResult {
    if hs == [] then Err(MissingHost)
    else if IsHost(hs[0].name) then
      (if Trim(hs[0].value) == [] then Err(EmptyHost) else Ok(StripHostPort(Trim(hs[0].value))))
    else FirstHost(hs[1..])
  }

  /** A line of text in front of more text. */
  lemma LineInFront(line: seq<Byte>, rest: seq<Byte>)
    requires LF !in line
    ensures Lines(line + [CR, LF] + rest) == [line] + Lines(rest)
  {
    var withCr := line + [CR];
    SplitAtFirst(withCr, LF, rest);
    assert line + [CR, LF] + rest == withCr + [LF] + rest;
    assert withCr[..|withCr| - 1] == line;
  }

  lemma {:induction false} HeadersNameHost(hs: seq<Header>)
    requires forall k :: 0 <= k < |hs| ==> Printable(hs[k])
    ensures HostInLines(Lines(RenderHeaders(hs))) == FirstHost(hs)
  {
    if hs == [] {
      LineInFront([], []);
      assert [] + [CR, LF] + [] == RenderHeaders(hs);
      FirstLine([], [], RenderHeaders(hs));
      assert Lines([]) == [];
    } else {
      var rest := RenderHeaders(hs[1..]);
      LineInFront(Field(hs[0]), rest);
      FirstLine(Field(hs[0]), rest, RenderHeaders(hs));
      SplitAtFirst(hs[0].name, COLON, hs[0].value);
      HeadersNameHost(hs[1..]);
    }
  }

  lemma FirstLine(line: seq<Byte>, rest: seq<Byte>, text: seq<Byte>)
    requires Lines(text) == [line] + Lines(rest)
    ensures HostInLines(Lines(text)) ==
            match HostInLine(line)
            case None => HostInLines(Lines(rest))
            case Some(value) => if Trim(value) == [] then Err(EmptyHost) else Ok(StripHostPort(Trim(value)))
  {
    assert Lines(text)[1..] == Lines(rest);
  }

  /** For any request line that is not itself a Host line and any printable headers, the parser returns what
      the first header called Host, in any letter case, says: trimmed, and without its port. */
  lemma RequestNamesHost(requestLine: seq<Byte>, hs: seq<Header>)
    requires LF !in requestLine && HostInLine(requestLine).None?
    requires forall k :: 0 <= k < |hs| ==> Printable(hs[k])
    requires IsUtf8(requestLine + [CR, LF] + RenderHeaders(hs))
    ensures HostOf(requestLine + [CR, LF] + RenderHeaders(hs)) == FirstHost(hs)
  {
    LineInFront(requestLine, RenderHeaders(hs));
    FirstLine(requestLine, RenderHeaders(hs), requestLine + [CR, LF] + RenderHeaders(hs));
    HeadersNameHost(hs);
  }

  /** A head is refused as text exactly if it is not UTF-8. */
  lemma NotUtf8Iff(request: seq<Byte>)
    ensures HostOf(request) == Err(NotUtf8) <==> !IsUtf8(request)
  {
    LinesAreText(Lines(request));
  }

  lemma {:induction false} LinesAreText(lines: seq<seq<Byte>>)
    ensures HostInLines(lines) != Err(NotUtf8)
  {
    if lines != [] && HostInLine(lines[0]).None? {
      LinesAreText(lines[1..]);
    }
  }

  /** A port is removed from a name or IPv4 address. */
  lemma PortIsStripped(host: seq<Byte>, port: seq<Byte>)
    requires host != [] && COLON !in host && host[0] != OPEN
    ensures StripHostPort(host + [COLON] + port) == host && StripHostPort(host) == host
  {
    SplitAtFirst(host, COLON, port);
    assert (host + [COLON] + port)[0] == host[0];
  }

  /** Without a closing bracket, or without a colon, a host is left as it is. */
  lemma OtherHostsAreKept(host: seq<Byte>)
    requires if host != [] && host[0] == OPEN then CLOSE !in host[1..] else COLON !in host
    ensures StripHostPort(host) == host
  {
  }

  /** From a bracketed IPv6 address the brackets and whatever follows them are removed. */
  lemma BracketsAreStripped(host: seq<Byte>, port: seq<Byte>)
    requires CLOSE !in host
    ensures StripHostPort([OPEN] + (host + [CLOSE] + port)) == host
  {
    SplitAtFirst(host, CLOSE, port);
    assert ([OPEN] + (host + [CLOSE] + port))[1..] == host + [CLOSE] + port;
  }
}

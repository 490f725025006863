/** The SOCKS5 client handshake (RFC 1928, sections 3, 4 and 6; RFC 1929, section 2). */
module Socks5 {
  import opened Addresses
  import opened Bytes
  import opened Destinations
  import opened Stream
  import opened Wrappers

  datatype Socks5Error =
    | Closed | CredentialsTooLong | AuthenticationFailed | AllMethodsRejected | InvalidMethodReply
    | DomainTooLong | ConnectFailed | InvalidAddressType

  // ---------------------------------------------------------------------------
  // What the client writes
  // ---------------------------------------------------------------------------

  datatype Credentials = Credentials(username: Option<seq<Byte>>, password: Option<seq<Byte>>)

  function OrEmpty(text: Option<seq<Byte>>): seq<Byte> {
    match text
    case None => []
    case Some(bytes) => bytes
  }

  /** User and password are each limited to 255 bytes. */
  predicate CredentialsFit(c: Credentials) {
    |OrEmpty(c.username)| <= 0xff && |OrEmpty(c.password)| <= 0xff
  }

  function Greeting(c: Credentials): seq<Byte> {
    if c.username.Some? || c.password.Some? then [5, 2, 0, 2] else [5, 1, 0]
  }

  function AuthRequest(c: Credentials): seq<Byte>
    requires CredentialsFit(c)
  {
    [1, |OrEmpty(c.username)|] + OrEmpty(c.username) + [|OrEmpty(c.password)|] + OrEmpty(c.password)
  }

  predicate DestinationFits(d: Destination) {
    d.host.Domain? ==> |d.host.name| <= 0xff
  }

  function EncodeHost(h: Host): seq<Byte>
    requires h.Domain? ==> |h.name| <= 0xff
  {
    match h
    case Ip(V4(v4)) => [1] + Octets(v4)
    case Ip(V6(octets)) => [4] + octets
    case Domain(name) => [3, |name|] + name
  }

  function ConnectRequest(d: Destination): seq<Byte>
    requires DestinationFits(d)
  {
    [5, 1, 0] + EncodeHost(d.host) + Bytes16(d.port)
  }

  // ---------------------------------------------------------------------------
  // An independent reading of the request (RFC 1928, section 4)
  // ---------------------------------------------------------------------------

  /** The address field at the front of `s`, from its type byte on, and what follows it. */
  function DecodeHost(s: seq<Byte>): Option<(Host, seq<Byte>)> {
    if |s| >= 5 && s[0] == 1 then Some((Ip(V4(Ipv4(s[1], s[2], s[3], s[4]))), s[5..]))
    else if |s| >= 17 && s[0] == 4 then Some((Ip(V6(s[1..17])), s[17..]))
    else if |s| >= 2 && s[0] == 3 && |s| >= 2 + s[1] as nat then
      Some((Domain(s[2..2 + s[1] as nat]), s[2 + s[1] as nat..]))
    else None
  }

  /** A CONNECT request that is exactly one message. */
  function DecodeRequest(s: seq<Byte>): Option<Destination> {
    if |s| < 3 || s[..3] != [5, 1, 0] then None
    else
      match DecodeHost(s[3..])
      case None => None
      case Some((host, rest)) => if |rest| == 2 then Some(Destination(host, Word(rest, 0))) else None
  }

  lemma HostRoundTrip(h: Host, rest: seq<Byte>)
    requires h.Domain? ==> |h.name| <= 0xff
    ensures DecodeHost(EncodeHost(h) + rest) == Some((h, rest))
  {
    var s := EncodeHost(h) + rest;
    match h
    case Ip(V4(v4)) =>
      assert s[1] == v4.a && s[2] == v4.b && s[3] == v4.c && s[4] == v4.d;
      assert s[5..] == rest;
    case Ip(V6(octets)) =>
      assert s[1..17] == octets && s[17..] == rest;
    case Domain(name) =>
      assert s[2..2 + |name|] == name && s[2 + |name|..] == rest;
  }

  /** A server that follows the RFC reads the destination out of the request, and nothing is left over. */
  lemma RequestRoundTrip(d: Destination)
    requires DestinationFits(d)
    ensures DecodeRequest(ConnectRequest(d)) == Some(d)
  {
    var s := ConnectRequest(d);
    assert s[..3] == [5, 1, 0];
    assert s[3..] == EncodeHost(d.host) + Bytes16(d.port);
    HostRoundTrip(d.host, Bytes16(d.port));
    Be16OfBytes16(d.port);
  }

  // ---------------------------------------------------------------------------
  // An independent reading of what goes before the request
  // ---------------------------------------------------------------------------

  /** The methods of a greeting (RFC 1928, section 3), and what follows it. */
  function ReadGreeting(s: seq<Byte>): Option<(seq<Byte>, seq<Byte>)> {
    if |s| < 2 || s[0] != 5 || |s| < 2 + s[1] as nat then None
    else Some((s[2..2 + s[1] as nat], s[2 + s[1] as nat..]))
  }

  /** User name and password of a subnegotiation request (RFC 1929, section 2), and what follows it. */
  function ReadCredentials(s: seq<Byte>): Option<(seq<Byte>, seq<Byte>, seq<Byte>)> {
    if |s| < 2 || s[0] != 1 || |s| < 3 + s[1] as nat then None
    else
      var tail := s[2 + s[1] as nat..];
      if |tail| < 1 + tail[0] as nat then None
      else Some((s[2..2 + s[1] as nat], tail[1..1 + tail[0] as nat], tail[1 + tail[0] as nat..]))
  }

  lemma GreetingRoundTrip(c: Credentials, rest: seq<Byte>)
    ensures ReadGreeting(Greeting(c) + rest) ==
            Some((if c.username.Some? || c.password.Some? then [0, 2] else [0], rest))
  {
    var s := Greeting(c) + rest;
    assert s[2..2 + s[1] as nat] == (if c.username.Some? || c.password.Some? then [0, 2] else [0]);
    assert s[2 + s[1] as nat..] == rest;
  }

  lemma CredentialsRoundTrip(c: Credentials, rest: seq<Byte>)
    requires CredentialsFit(c)
    ensures ReadCredentials(AuthRequest(c) + rest) == Some((OrEmpty(c.username), OrEmpty(c.password), rest))
  {
    var user, password := OrEmpty(c.username), OrEmpty(c.password);
    var s := AuthRequest(c) + rest;
    var tail := [|password|] + password + rest;
    assert s == [1, |user|] + user + tail;
    assert s[2..2 + |user|] == user && s[2 + |user|..] == tail;
    assert tail[1..1 + |password|] == password && tail[1 + |password|..] == rest;
  }

  // ---------------------------------------------------------------------------
  // What the server says when all goes well
  // ---------------------------------------------------------------------------

  /** A successful server side: the chosen method, its reply to credentials if it asked for them, and a
      CONNECT reply with a bound address of any type. */
  datatype Script = Script(askedAuth: bool, reserved: Byte, bound: Host, boundPort: U16)

  predicate ScriptFits(s: Script) {
    s.bound.Domain? ==> |s.bound.name| <= 0xff
  }

  function MethodReply(s: Script): seq<Byte> {
    if s.askedAuth then [5, 2, 1, 0] else [5, 0]
  }

  function ConnectReply(s: Script): seq<Byte>
    requires ScriptFits(s)
  {
    [5, 0, s.reserved] + EncodeHost(s.bound) + Bytes16(s.boundPort)
  }

  function ServerBytes(s: Script): seq<Byte>
    requires ScriptFits(s)
  {
    MethodReply(s) + ConnectReply(s)
  }

  /** The stream starts with a successful server side and goes on with `rest`. */
  ghost predicate Succeeds(stream: seq<Byte>, s: Script, rest: seq<Byte>) {
    ScriptFits(s) && stream == ServerBytes(s) + rest
  }

  /** Length of the CONNECT reply at the front of `s`, from its type byte and, for a domain, its length. */
  function ReplyLength(s: seq<Byte>): (n: Option<nat>)
    ensures n.Some? ==> 6 <= n.value <= |s|
  {
    if |s| < 4 || s[0] != 5 || s[1] != 0 then None
    else
      var addrLen: Option<nat> :=
        if s[3] == 1 then Some(4) else if s[3] == 4 then Some(16)
        else if s[3] == 3 && |s| >= 5 then Some(1 + s[4] as nat) else None;
      if addrLen.None? || 4 + addrLen.value + 2 > |s| then None else Some(4 + addrLen.value + 2)
  }

  /** Length of the whole successful server side at the front of `s`. */
  function HandshakeLength(s: seq<Byte>): (n: Option<nat>)
    ensures n.Some? ==> n.value <= |s|
  {
    if |s| < 2 || s[0] != 5 then None
    else
      var skip: Option<nat> :=
        if s[1] == 0 then Some(2) else if s[1] == 2 && |s| >= 4 && s[2] == 1 && s[3] == 0 then Some(4) else None;
      if skip.None? || ReplyLength(s[skip.value..]).None? then None
      else Some(skip.value + ReplyLength(s[skip.value..]).value)
  }

  predicate AsksAuth(s: seq<Byte>) {
    |s| >= 2 && s[1] == 2
  }

  lemma ReplyLengthOfScript(s: Script, rest: seq<Byte>)
    requires ScriptFits(s)
    ensures ReplyLength(ConnectReply(s) + rest) == Some(|ConnectReply(s)|)
  {
    var t := ConnectReply(s) + rest;
    assert t[3] == EncodeHost(s.bound)[0];
    if s.bound.Domain? {
      assert t[4] == EncodeHost(s.bound)[1];
    }
  }

  /** The bound address of a reply of that length. */
  lemma ReplyHost(t: seq<Byte>) returns (bound: Host)
    requires ReplyLength(t).Some?
    ensures bound.Domain? ==> |bound.name| <= 0xff
    ensures EncodeHost(bound) == t[3..ReplyLength(t).value - 2]
  {
    var n := ReplyLength(t).value;
    if t[3] == 1 {
      bound := Ip(V4(Ipv4(t[4], t[5], t[6], t[7])));
    } else if t[3] == 4 {
      bound := Ip(V6(t[4..20]));
    } else {
      bound := Domain(t[5..n - 2]);
    }
  }

  lemma ThreeParts(t: seq<Byte>, n: nat)
    requires 5 <= n <= |t|
    ensures t[..n] == [t[0], t[1], t[2]] + t[3..n - 2] + Bytes16(Word(t, n - 2))
  {
    Bytes16OfBe16(t[n - 2], t[n - 1]);
  }

  /** The other way round: a stream with such a length starts with a successful server side. */
  lemma LengthGivesScript(stream: seq<Byte>) returns (s: Script)
    requires HandshakeLength(stream).Some?
    ensures Succeeds(stream, s, stream[HandshakeLength(stream).value..])
    ensures |ServerBytes(s)| == HandshakeLength(stream).value
  {
    var skip := if stream[1] == 0 then 2 else 4;
    var t := stream[skip..];
    var n := ReplyLength(t).value;
    var bound := ReplyHost(t);
    ThreeParts(t, n);
    s := Script(skip == 4, t[2], bound, Word(t, n - 2));
    assert stream[..skip] == MethodReply(s);
    Reassemble(stream, MethodReply(s), ConnectReply(s), t, n);
  }

  lemma Reassemble(stream: seq<Byte>, front: seq<Byte>, reply: seq<Byte>, t: seq<Byte>, n: nat)
    requires |front| <= |stream| && stream[..|front|] == front && t == stream[|front|..]
    requires n <= |t| && t[..n] == reply
    ensures stream == front + reply + stream[|front| + n..]
  {
    assert stream == front + t && t == t[..n] + t[n..];
    assert t[n..] == stream[|front| + n..];
  }

  lemma ScriptGivesLength(stream: seq<Byte>, s: Script, rest: seq<Byte>)
    requires Succeeds(stream, s, rest)
    ensures HandshakeLength(stream) == Some(|ServerBytes(s)|) && stream[|ServerBytes(s)|..] == rest
  {
    hide ReplyLength, ConnectReply;
    var front := MethodReply(s);
    assert stream == front + (ConnectReply(s) + rest);
    assert stream[|front|..] == ConnectReply(s) + rest;
    ReplyLengthOfScript(s, rest);
  }

  /** The length is exact: the bytes it covers are a successful server side, and every successful server
      side at the front of a stream is what it covers. */
  lemma HandshakeLengthIsExact(stream: seq<Byte>, n: nat)
    ensures HandshakeLength(stream) == Some(n) <==>
            n <= |stream| && exists s :: Succeeds(stream, s, stream[n..]) && |ServerBytes(s)| == n
  {
    hide HandshakeLength, ServerBytes;
    if HandshakeLength(stream) == Some(n) {
      var s := LengthGivesScript(stream);
    }
    if n <= |stream| && exists s :: Succeeds(stream, s, stream[n..]) && |ServerBytes(s)| == n {
      var s :| Succeeds(stream, s, stream[n..]) && |ServerBytes(s)| == n;
      ScriptGivesLength(stream, s, stream[n..]);
    }
  }

  // ---------------------------------------------------------------------------
  // The handshake
  // ---------------------------------------------------------------------------

  /** What the client has written when the handshake ends well. */
  function ClientBytes(c: Credentials, askedAuth: bool, d: Destination): seq<Byte>
    requires DestinationFits(d) && (askedAuth ==> CredentialsFit(c))
  {
    Greeting(c) + (if askedAuth then AuthRequest(c) else []) + ConnectRequest(d)
  }

  /** What the client writes to a server that answers with `server`, whether or not the handshake ends well:
      the greeting, then credentials if the server picks that method and they fit, then the request unless the
      server has turned the client down by then or the destination does not fit. */
  function Written(c: Credentials, server: seq<Byte>, d: Destination): seq<Byte> {
    var request := if DestinationFits(d) then ConnectRequest(d) else [];
    if |server| < 2 || server[0] != 5 then Greeting(c)
    else if server[1] == 0 then Greeting(c) + request
    else if server[1] != 2 || !CredentialsFit(c) then Greeting(c)
    else if |server| < 4 || server[2] != 1 || server[3] != 0 then Greeting(c) + AuthRequest(c)
    else Greeting(c) + AuthRequest(c) + request
  }

  /** What a server finds in the client's bytes, for every server and every outcome. The greeting offers method 0,
      and method 2 too if any credentials are configured. A server that picks method 2 then reads exactly the
      configured user name and password, empty where there is none, unless one of them is longer than 255
      bytes. Behind that, or at once behind method 0, stands exactly the request for the destination, unless the
      server has turned the client down or the destination's name is too long. */
  lemma WrittenReads(c: Credentials, server: seq<Byte>, d: Destination)
    ensures var user := if c.username.Some? then c.username.value else [];
            var password := if c.password.Some? then c.password.value else [];
            var methods := if c.username.Some? || c.password.Some? then [0, 2] else [0];
            var named := d.host.Domain? ==> |d.host.name| <= 255;
            var greeting := ReadGreeting(Written(c, server, d));
            && greeting.Some? && greeting.value.0 == methods
            && var rest := greeting.value.1;
            if [5, 0] <= server then
              if named then DecodeRequest(rest) == Some(d) else rest == []
            else if [5, 2] <= server && |user| <= 255 && |password| <= 255 then
              && ReadCredentials(rest).Some?
              && ReadCredentials(rest).value.0 == user && ReadCredentials(rest).value.1 == password
              && var request := ReadCredentials(rest).value.2;
              if [5, 2, 1, 0] <= server && named then DecodeRequest(request) == Some(d) else request == []
            else rest == []
  {
    hide Greeting, AuthRequest, ConnectRequest, ReadGreeting, ReadCredentials, DecodeRequest;
    var request := if DestinationFits(d) then ConnectRequest(d) else [];
    assert Greeting(c) + [] == Greeting(c);
    GreetingRoundTrip(c, []);
    GreetingRoundTrip(c, request);
    if DestinationFits(d) {
      RequestRoundTrip(d);
    }
    if CredentialsFit(c) {
      assert AuthRequest(c) + [] == AuthRequest(c);
      assert Greeting(c) + AuthRequest(c) + request == Greeting(c) + (AuthRequest(c) + request);
      GreetingRoundTrip(c, AuthRequest(c));
      GreetingRoundTrip(c, AuthRequest(c) + request);
      CredentialsRoundTrip(c, []);
      CredentialsRoundTrip(c, request);
    }
  }

  /** The handshake ends well: the server's bytes start with a successful server side, and everything the client
      has to send fits. */
  predicate Accepted(c: Credentials, server: seq<Byte>, d: Destination) {
    HandshakeLength(server).Some? && (AsksAuth(server) ==> CredentialsFit(c)) && DestinationFits(d)
  }

  lemma AcceptedWritten(c: Credentials, server: seq<Byte>, d: Destination)
    requires Accepted(c, server, d)
    ensures Written(c, server, d) == ClientBytes(c, AsksAuth(server), d)
  {
    assert Greeting(c) + [] == Greeting(c);
  }

  /** How the CONNECT reply at the front of `s` is taken. */
  function ReplyOutcome(s: seq<Byte>): (r: Result<(), Socks5Error>)
    ensures r.Ok? <==> ReplyLength(s).Some?
  {
    if |s| < 4 then Err(Closed)
    else if s[0] != 5 || s[1] != 0 then Err(ConnectFailed)
    else if s[3] != 1 && s[3] != 3 && s[3] != 4 then Err(InvalidAddressType)
    else if ReplyLength(s).None? then Err(Closed)
    else Ok(())
  }

  /** How the handshake ends. */
  function Outcome(c: Credentials, s: seq<Byte>, d: Destination): Result<(), Socks5Error> {
    if |s| < 2 then Err(Closed)
    else if s[0] == 5 && s[1] == 0 then
      if DestinationFits(d) then ReplyOutcome(s[2..]) else Err(DomainTooLong)
    else if s[0] == 5 && s[1] == 2 then
      if !CredentialsFit(c) then Err(CredentialsTooLong)
      else if |s| < 4 then Err(Closed)
      else if s[2] != 1 || s[3] != 0 then Err(AuthenticationFailed)
      else if DestinationFits(d) then ReplyOutcome(s[4..]) else Err(DomainTooLong)
    else if s[0] == 5 && s[1] == 0xff then Err(AllMethodsRejected)
    else Err(InvalidMethodReply)
  }

  lemma OutcomeOkIff(c: Credentials, s: seq<Byte>, d: Destination)
    ensures Outcome(c, s, d).Ok? <==> Accepted(c, s, d)
  {
    hide ReplyLength;
  }

  /** The exact condition of every way the handshake can end. */
  lemma OutcomesExact(c: Credentials, s: seq<Byte>, d: Destination)
    ensures var r := Outcome(c, s, d);
            var fits := && (c.username.Some? ==> |c.username.value| <= 255)
                        && (c.password.Some? ==> |c.password.value| <= 255);
            var named := d.host.Domain? ==> |d.host.name| <= 255;
            var open, granted := [5, 0] <= s, [5, 2, 1, 0] <= s && fits;
            var reply := if open then s[2..] else if granted then s[4..] else [];
            var asked := (open || granted) && named;
            && (r.Ok? <==> Accepted(c, s, d))
            && (r == Err(AllMethodsRejected) <==> [5, 255] <= s)
            && (r == Err(InvalidMethodReply) <==> |s| >= 2 && !([5, 0] <= s || [5, 2] <= s || [5, 255] <= s))
            && (r == Err(CredentialsTooLong) <==> [5, 2] <= s && !fits)
            && (r == Err(AuthenticationFailed) <==> [5, 2] <= s && fits && |s| >= 4 && !([5, 2, 1, 0] <= s))
            && (r == Err(DomainTooLong) <==> (open || granted) && !named)
            && (r == Err(ConnectFailed) <==> asked && |reply| >= 4 && !([5, 0] <= reply))
            && (r == Err(InvalidAddressType) <==> asked && |reply| >= 4 && [5, 0] <= reply && reply[3] !in {1, 3, 4})
  {
    hide ReplyLength;
  }

  /** `Socks5Connector::connect` on an open connection. When it succeeds it has consumed the server side and not
      one byte of the tunnel behind it. The method the server picks is not compared with the methods offered. */
  method Connect(stream: Connection, credentials: Credentials, destination: Destination)
    returns (r: Result<(), Socks5Error>)
    modifies stream
    ensures r == Outcome(credentials, old(stream.incoming), destination)
    ensures r.Ok? <==> Accepted(credentials, old(stream.incoming), destination)
    ensures r.Ok? ==> stream.incoming == old(stream.incoming)[HandshakeLength(old(stream.incoming)).value..]
    ensures stream.sent == old(stream.sent) + Written(credentials, old(stream.incoming), destination)
    ensures r.Ok? ==>
              Written(credentials, old(stream.incoming), destination) ==
              ClientBytes(credentials, AsksAuth(old(stream.incoming)), destination)
  {
    hide ReplyLength, AuthRequest, ConnectRequest, Greeting, CredentialsFit, DestinationFits, ClientBytes;
    hide HandshakeLength, AsksAuth, Accepted, ReplyOutcome;
    ghost var server := stream.incoming;
    if Accepted(credentials, server, destination) {
      AcceptedWritten(credentials, server, destination);
    }
    OutcomeOkIff(credentials, server, destination);
    stream.WriteAll(Greeting(credentials));
    var methodReply := stream.ReadExact(2);
    if methodReply.None? {
      return Err(Closed);
    }
    assert methodReply.value == [server[0], server[1]];
    var skip := 2;
    if methodReply.value == [5, 0] {
    } else if methodReply.value == [5, 2] {
      if !CredentialsFit(credentials) {
        return Err(CredentialsTooLong);
      }
      stream.WriteAll(AuthRequest(credentials));
      var authReply := stream.ReadExact(2);
      if authReply.None? {
        return Err(Closed);
      }
      assert authReply.value == [server[2], server[3]];
      if authReply.value != [1, 0] {
        return Err(AuthenticationFailed);
      }
      skip := 4;
    } else if methodReply.value == [5, 0xff] {
      return Err(AllMethodsRejected);
    } else {
      return Err(InvalidMethodReply);
    }
    assert stream.incoming == server[skip..];
    if !DestinationFits(destination) {
      return Err(DomainTooLong);
    }
    stream.WriteAll(ConnectRequest(destination));
    var ok := ReadConnectReply(stream);
    if ok.Ok? {
      AcceptedLength(server, skip);
    }
    return ok;
  }

  lemma AcceptedLength(server: seq<Byte>, skip: nat)
    requires |server| >= skip && ReplyLength(server[skip..]).Some?
    requires (skip == 2 && [5, 0] <= server) || (skip == 4 && [5, 2, 1, 0] <= server)
    ensures HandshakeLength(server) == Some(skip + ReplyLength(server[skip..]).value)
    ensures server[HandshakeLength(server).value..] == server[skip..][ReplyLength(server[skip..]).value..]
  {
    hide ReplyLength;
  }

  /** The reply to the CONNECT request, up to its last byte. */
  method ReadConnectReply(stream: Connection) returns (r: Result<(), Socks5Error>)
    modifies stream`incoming
    ensures r == ReplyOutcome(old(stream.incoming))
    ensures r.Ok? ==> stream.incoming == old(stream.incoming)[ReplyLength(old(stream.incoming)).value..]
  {
    ghost var server := stream.incoming;
    var header := stream.ReadExact(4);
    if header.None? {
      return Err(Closed);
    }
    assert forall k :: 0 <= k < 4 ==> header.value[k] == server[k];
    if header.value[0] != 5 || header.value[1] != 0 {
      return Err(ConnectFailed);
    }
    var addrLen: nat;
    ghost var read := 4;
    match header.value[3] {
      case 1 => addrLen := 4;
      case 3 =>
        var length := stream.ReadExact(1);
        if length.None? {
          return Err(Closed);
        }
        assert length.value[0] == server[4];
        addrLen := length.value[0];
        read := 5;
      case 4 => addrLen := 16;
      case _ => return Err(InvalidAddressType);
    }
    assert stream.incoming == server[read..];
    var discarded := stream.ReadExact(addrLen + 2);
    if discarded.None? {
      return Err(Closed);
    }
    assert server[read..][addrLen + 2..] == server[read + addrLen + 2..];
    return Ok(());
  }

  // ---------------------------------------------------------------------------
  // Methods that were not offered
  // ---------------------------------------------------------------------------

  /** The methods in the client's greeting. */
  function Offered(c: Credentials): seq<Byte> {
    Greeting(c)[2..]
  }

  predicate HasCredentials(c: Credentials) {
    c.username.Some? || c.password.Some?
  }

  /** The server of an accepted handshake has picked an offered method exactly when credentials are configured
      or it did not ask for them. */
  lemma PickedMethodOfferedIff(c: Credentials, server: seq<Byte>)
    requires HandshakeLength(server).Some?
    ensures server[1] in Offered(c) <==> HasCredentials(c) || !AsksAuth(server)
  {
    assert Offered(c) == if HasCredentials(c) then [0, 2] else [0];
  }

  /** A client without credentials accepts this server, which asks for credentials it was not offered. */
  const UNOFFERED: seq<Byte> := [5, 2, 1, 0, 5, 0, 0, 1, 0, 0, 0, 0, 0, 0]

  lemma UnofferedIsAccepted(d: Destination)
    requires DestinationFits(d)
    ensures Accepted(Credentials(None, None), UNOFFERED, d)
    ensures HandshakeLength(UNOFFERED) == Some(14) && UNOFFERED[1] !in Offered(Credentials(None, None))
  {
    assert UNOFFERED[4..] == [5, 0, 0, 1, 0, 0, 0, 0, 0, 0];
  }

  /** Connecting implies an offered method, whatever the server says, exactly when credentials are configured. */
  lemma OnlyOfferedMethodsIff(c: Credentials, d: Destination)
    requires DestinationFits(d) && CredentialsFit(c)
    ensures (forall server :: Accepted(c, server, d) ==> server[1] in Offered(c)) <==> HasCredentials(c)
  {
    if HasCredentials(c) {
      forall server | Accepted(c, server, d) ensures server[1] in Offered(c) {
        PickedMethodOfferedIff(c, server);
      }
    } else {
      UnofferedIsAccepted(d);
      PickedMethodOfferedIff(c, UNOFFERED);
    }
  }
}

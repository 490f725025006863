/** The TLS gateway relay: a buffered reader in front of the client, the ClientHello captured from it, and
    the bytes that reach the upstream server. */
module TlsGateway {
  import opened Bytes
  import opened Destinations
  import opened Stream
  import opened Tls
  import opened TlsLaws
  import opened Wrappers

  const BUFFER_CAPACITY: nat := 8192

  const MAX_RECORD: nat := 16 * 1024

  // ---------------------------------------------------------------------------
  // The buffered reader
  // ---------------------------------------------------------------------------

  /** What has been taken from the socket but not read yet, and what is still in the socket. */
  datatype Source = Source(buffer: seq<Byte>, socket: seq<Byte>) {
    function Unread(): seq<Byte> {
      buffer + socket
    }
  }

  /** A fill of the empty buffer: at most its capacity, and nothing only at the end of the stream. */
  ghost predicate Fill(before: Source, filled: Source) {
    && filled.Unread() == before.Unread()
    && |filled.buffer| <= BUFFER_CAPACITY
    && (filled.buffer == [] ==> before.socket == [])
  }

  /** As much of the buffer as fits. */
  ghost predicate FromBuffer(before: Source, max: nat, chunk: seq<Byte>, after: Source) {
    && chunk == before.buffer[..if |before.buffer| < max then |before.buffer| else max]
    && after == Source(before.buffer[|chunk|..], before.socket)
  }

  ghost predicate FromSocket(before: Source, max: nat, chunk: seq<Byte>, after: Source) {
    && after.buffer == []
    && before.socket == chunk + after.socket
    && |chunk| <= max
    && (chunk == [] ==> before.socket == [])
  }

  /** One read of at most `max` bytes: from the buffer if it holds anything; else, for a large request,
      straight from the socket; else from the buffer after one fill of it. */
  ghost predicate ReadStep(before: Source, max: nat, chunk: seq<Byte>, after: Source) {
    if before.buffer != [] then FromBuffer(before, max, chunk, after)
    else if max >= BUFFER_CAPACITY then FromSocket(before, max, chunk, after)
    else exists filled :: Fill(before, filled) && FromBuffer(filled, max, chunk, after)
  }

  class BufReader {
    const inner: Connection
    var buffer: seq<Byte>

    constructor (inner: Connection)
      ensures this.inner == inner && buffer == []
    {
      this.inner := inner;
      buffer := [];
    }

    ghost function State(): Source
      reads this, inner
    {
      Source(buffer, inner.incoming)
    }

    method Read(max: nat) returns (chunk: seq<Byte>)
      requires max > 0
      modifies this, inner`incoming
      ensures ReadStep(old(State()), max, chunk, State())
    {
      if buffer == [] && max >= BUFFER_CAPACITY {
        chunk := inner.Read(max);
        return;
      }
      if buffer == [] {
        buffer := inner.Read(BUFFER_CAPACITY);
        assert Fill(old(State()), State());
      }
      ghost var filled := State();
      var n := if |buffer| < max then |buffer| else max;
      chunk := buffer[..n];
      buffer := buffer[n..];
      assert FromBuffer(filled, max, chunk, State());
    }

    /** `read_exact` on the buffered reader. */
    method ReadExact(n: nat) returns (r: Option<seq<Byte>>)
      modifies this, inner`incoming
      ensures r.Some? ==> |r.value| == n && Reads(old(State()), n, r.value, State())
      ensures r.Some? ==> old(State()).Unread() == r.value + State().Unread()
      ensures r.None? ==> |old(State()).Unread()| < n
    {
      hide ReadStep, Reads, Source.Unread;
      ghost var start := State();
      ReadsNothing(start, n);
      var bytes := [];
      while |bytes| < n
        invariant |bytes| <= n
        invariant start.Unread() == bytes + State().Unread()
        invariant Reads(start, n, bytes, State())
        decreases n - |bytes|
      {
        ghost var before := State();
        var chunk := Read(n - |bytes|);
        ReadStepConserves(before, n - |bytes|, chunk, State());
        if chunk == [] {
          return None;
        }
        ReadsOneMore(start, n, bytes, before, chunk, State());
        assert bytes + (chunk + State().Unread()) == (bytes + chunk) + State().Unread();
        bytes := bytes + chunk;
      }
      return Some(bytes);
    }
  }

  lemma FromBufferConserves(before: Source, max: nat, chunk: seq<Byte>, after: Source)
    requires max > 0 && FromBuffer(before, max, chunk, after)
    ensures before.Unread() == chunk + after.Unread()
    ensures |chunk| <= max && (chunk == [] ==> before.buffer == [])
  {
    assert before.buffer == chunk + before.buffer[|chunk|..];
  }

  /** Nothing is lost or reordered by a read, and only the end of the stream gives an empty one. */
  lemma ReadStepConserves(before: Source, max: nat, chunk: seq<Byte>, after: Source)
    requires max > 0 && ReadStep(before, max, chunk, after)
    ensures before.Unread() == chunk + after.Unread()
    ensures |chunk| <= max
    ensures chunk == [] ==> before.Unread() == []
  {
    if before.buffer != [] {
      FromBufferConserves(before, max, chunk, after);
    } else if max < BUFFER_CAPACITY {
      var filled :| Fill(before, filled) && FromBuffer(filled, max, chunk, after);
      FromBufferConserves(filled, max, chunk, after);
    }
  }

  /** Reads that together deliver `bytes`, each asking for all that is still missing from `n`. */
  ghost predicate Reads(before: Source, n: nat, bytes: seq<Byte>, after: Source)
    decreases |bytes|
  {
    if bytes == [] then after == before
    else
      exists k: nat, middle ::
        && k < |bytes| && k <= n
        && Reads(before, n, bytes[..k], middle)
        && ReadStep(middle, n - k, bytes[k..], after)
  }

  lemma ReadsNothing(start: Source, n: nat)
    ensures Reads(start, n, [], start)
  {
  }

  lemma ReadsOneMore(start: Source, n: nat, bytes: seq<Byte>, middle: Source, chunk: seq<Byte>, after: Source)
    requires Reads(start, n, bytes, middle) && |bytes| <= n
    requires chunk != [] && ReadStep(middle, n - |bytes|, chunk, after)
    ensures Reads(start, n, bytes + chunk, after)
  {
    var all := bytes + chunk;
    assert all[..|bytes|] == bytes && all[|bytes|..] == chunk;
  }

  lemma {:induction false} ReadsConserve(before: Source, n: nat, bytes: seq<Byte>, after: Source)
    requires Reads(before, n, bytes, after) && |bytes| <= n
    ensures before.Unread() == bytes + after.Unread()
    decreases |bytes|
  {
    hide ReadStep, Source.Unread;
    if bytes != [] {
      var k: nat, middle :|
        && k < |bytes| && k <= n
        && Reads(before, n, bytes[..k], middle)
        && ReadStep(middle, n - k, bytes[k..], after);
      ReadsConserve(before, n, bytes[..k], middle);
      ReadStepConserves(middle, n - k, bytes[k..], after);
      assert bytes == bytes[..k] + bytes[k..];
      assert bytes[..k] + (bytes[k..] + after.Unread()) == bytes + after.Unread();
    }
  }

  // ---------------------------------------------------------------------------
  // Reading the ClientHello
  // ---------------------------------------------------------------------------

  datatype GatewayError = Closed | NotHandshake | BadRecordLength | Sni(error: SniError) | Unreachable

  /** Length of the record at the front of a stream. */
  function RecordLength(stream: seq<Byte>): nat
    requires |stream| >= 5
  {
    Word(stream, 3)
  }

  /** The host named by the first record of a stream. */
  function FirstRecordHost(stream: seq<Byte>): (r: Result<seq<Byte>, GatewayError>)
    ensures r.Ok? ==> |stream| >= 5 && 1 <= RecordLength(stream) <= MAX_RECORD && 5 + RecordLength(stream) <= |stream|
  {
    if |stream| < 5 then Err(Closed)
    else if stream[0] != 0x16 then Err(NotHandshake)
    else
      var n := RecordLength(stream);
      if n == 0 || n > MAX_RECORD then Err(BadRecordLength)
      else if |stream| < 5 + n then Err(Closed)
      else
        match SniOfRecord(stream[5..5 + n])
        case Ok(host) => Ok(host)
        case Err(e) => Err(Sni(e))
  }

  /** A TLS record of type handshake (RFC 8446, section 5.1) at the front of a stream. */
  predicate HandshakeRecord(stream: seq<Byte>, version: seq<Byte>, body: seq<Byte>, rest: seq<Byte>) {
    |version| == 2 && 1 <= |body| <= 16384 && stream == [22] + version + Bytes16(|body|) + body + rest
  }

  lemma RecordParts(stream: seq<Byte>) returns (version: seq<Byte>, body: seq<Byte>, rest: seq<Byte>)
    requires |stream| >= 5 && stream[0] == 22
    requires 1 <= RecordLength(stream) <= 16384 && 5 + RecordLength(stream) <= |stream|
    ensures HandshakeRecord(stream, version, body, rest) && body == stream[5..5 + RecordLength(stream)]
  {
    var n := RecordLength(stream);
    version, body, rest := stream[1..3], stream[5..5 + n], stream[5 + n..];
    Bytes16OfBe16(stream[3], stream[4]);
    assert stream == [stream[0]] + version + [stream[3], stream[4]] + body + rest;
  }

  lemma PartsOfRecord(stream: seq<Byte>, version: seq<Byte>, body: seq<Byte>, rest: seq<Byte>)
    requires HandshakeRecord(stream, version, body, rest)
    ensures |stream| >= 5 + |body| && stream[0] == 22 && RecordLength(stream) == |body|
    ensures stream[5..5 + |body|] == body
  {
    Be16OfBytes16(|body|);
    assert stream[3] == Bytes16(|body|)[0] && stream[4] == Bytes16(|body|)[1];
  }

  /** The gateway takes a host from exactly the streams that open with a handshake record of at most 16384 bytes,
      of any version, that holds a ClientHello with that host. */
  lemma FirstRecordIsExact(stream: seq<Byte>, host: seq<Byte>)
    ensures FirstRecordHost(stream) == Ok(host) <==>
            exists version, body, rest ::
              HandshakeRecord(stream, version, body, rest) && exists w :: Carries(body, host, w)
  {
    hide SniOfRecord, Carries;
    if FirstRecordHost(stream) == Ok(host) {
      var version, body, rest := RecordParts(stream);
      SniIsExact(body, host);
    }
    if version, body, rest :|
      HandshakeRecord(stream, version, body, rest) && exists w :: Carries(body, host, w)
    {
      SniIsExact(body, host);
      PartsOfRecord(stream, version, body, rest);
    }
  }

  /** The other streams, by what is wrong with them. */
  lemma FirstRecordErrors(stream: seq<Byte>)
    ensures FirstRecordHost(stream) == Err(NotHandshake) <==> |stream| >= 5 && stream[0] != 22
    ensures FirstRecordHost(stream) == Err(BadRecordLength) <==>
            |stream| >= 5 && stream[0] == 22 && (RecordLength(stream) == 0 || RecordLength(stream) > 16384)
    ensures FirstRecordHost(stream) == Err(Closed) <==>
            || |stream| < 5
            || (stream[0] == 22 && 1 <= RecordLength(stream) <= 16384 && |stream| < 5 + RecordLength(stream))
    ensures FirstRecordHost(stream) != Err(Unreachable)
  {
    hide SniOfRecord;
  }

  /** The reads that take the first record of `stream` off a fresh reader. */
  ghost predicate TakesRecord(stream: seq<Byte>, middle: Source, after: Source)
    requires |stream| >= 5 && 5 + RecordLength(stream) <= |stream|
  {
    && Reads(Source([], stream), 5, stream[..5], middle)
    && Reads(middle, RecordLength(stream), stream[5..5 + RecordLength(stream)], after)
  }

  /** `read_tls_sni`: the result depends on the client's bytes only, not on how they arrive. Captured bytes,
      buffered bytes and the bytes still in the socket make up the client's stream. */
  method ReadTlsSni(reader: BufReader)
    returns (captured: seq<Byte>, r: Result<seq<Byte>, GatewayError>, ghost middle: Source)
    requires reader.buffer == []
    modifies reader, reader.inner`incoming
    ensures r == FirstRecordHost(old(reader.inner.incoming))
    ensures r != Err(Closed) ==> old(reader.inner.incoming) == captured + reader.State().Unread()
    ensures r.Ok? ==> |captured| == 5 + RecordLength(old(reader.inner.incoming))
    ensures r.Ok? ==> TakesRecord(old(reader.inner.incoming), middle, reader.State())
  {
    hide Reads, SniOfRecord;
    ghost var stream := reader.inner.incoming;
    assert reader.State() == Source([], stream) && reader.State().Unread() == stream;
    captured, middle := [], reader.State();
    var header := reader.ReadExact(5);
    if header.None? {
      return captured, Err(Closed), middle;
    }
    middle := reader.State();
    captured := header.value;
    assert stream[..5] == header.value;
    assert forall k :: 0 <= k < 5 ==> header.value[k] == stream[k];
    if header.value[0] != 0x16 {
      return captured, Err(NotHandshake), middle;
    }
    var recordLen: nat := Be16(header.value[3], header.value[4]);
    if recordLen == 0 || recordLen > MAX_RECORD {
      return captured, Err(BadRecordLength), middle;
    }
    var body := reader.ReadExact(recordLen);
    if body.None? {
      return captured, Err(Closed), middle;
    }
    captured := captured + body.value;
    assert stream == header.value + (body.value + reader.State().Unread());
    assert stream == captured + reader.State().Unread();
    assert stream[5..5 + recordLen] == body.value;
    var sni := ParseTlsSniFromRecord(body.value);
    match sni {
      case Ok(host) => return captured, Ok(host), middle;
      case Err(e) => return captured, Err(Sni(e)), middle;
    }
  }

  // ---------------------------------------------------------------------------
  // The relay
  // ---------------------------------------------------------------------------

  /** What reaches the upstream server: the captured record, what the buffered reader had not taken from the
      socket, and what the client goes on to send. */
  function Relayed(early: seq<Byte>, after: Source, answer: seq<Byte>): seq<Byte>
    requires |early| >= 5 && 5 + RecordLength(early) <= |early|
  {
    early[..5 + RecordLength(early)] + after.socket + answer
  }

  /** `relay_tls_gateway`. The client's stream comes in two parts: what it sends unprompted, which is incoming
      from the start, and `answer`, which it sends only when it hears back, so after its record has been
      forwarded. `upstream` is what the connector hands out for the named host's port 443 when that is
      reachable. The captured record goes there first; the buffered reader is then taken apart, which drops
      what its buffer still holds; the rest is copied from the bare socket, and the server's bytes come back.
      The upstream server sees the client's stream exactly when that buffer was empty. */
  method RelayTlsGateway(client: Connection, upstream: Connection, reachable: bool, answer: seq<Byte>)
    returns (r: Result<Destination, GatewayError>, ghost dropped: seq<Byte>)
    requires client != upstream
    modifies client, upstream
    ensures r.Ok? <==> FirstRecordHost(old(client.incoming)).Ok? && reachable
    ensures r.Ok? ==> r.value == Destination(Domain(FirstRecordHost(old(client.incoming)).value), 443)
    ensures r.Err? ==> r.error == match FirstRecordHost(old(client.incoming)) case Ok(_) => Unreachable case Err(e) => e
    ensures r.Err? ==>
              && upstream.sent == old(upstream.sent) && upstream.incoming == old(upstream.incoming)
              && client.sent == old(client.sent)
    ensures r.Ok? ==> client.sent == old(client.sent) + old(upstream.incoming) && upstream.incoming == []
    ensures r.Ok? ==> dropped <= old(client.incoming)[5 + RecordLength(old(client.incoming))..]
    ensures r.Ok? ==> exists middle, after ::
              && TakesRecord(old(client.incoming), middle, after) && after.buffer == dropped
              && upstream.sent == old(upstream.sent) + Relayed(old(client.incoming), after, answer)
    ensures r.Ok? ==> (upstream.sent == old(upstream.sent) + (old(client.incoming) + answer) <==> dropped == [])
  {
    hide FirstRecordHost, Reads, Source.Unread;
    ghost var stream, before := client.incoming, upstream.sent;
    var reader := new BufReader(client);
    var captured, sni, middle := ReadTlsSni(reader);
    dropped := [];
    if sni.Err? {
      return Err(sni.error), dropped;
    }
    var destination := Destination(Domain(sni.value), 443);
    if !reachable {
      return Err(Unreachable), dropped;
    }
    ghost var after := reader.State();
    upstream.WriteAll(captured);
    client.Arrive(answer);
    dropped := reader.buffer;
    ghost var tail := after.socket;
    CopyBidirectional(client, upstream);
    ghost var n := |captured|;
    UnreadIs(after);
    assert stream == captured + (dropped + tail);
    assert stream[..n] == captured && stream[n..] == dropped + tail;
    assert upstream.sent == before + captured + (tail + answer) == before + (captured + tail + answer);
    SentIsWhole(before, captured, dropped, tail, answer);
    return Ok(destination), dropped;
  }

  lemma UnreadIs(s: Source)
    ensures s.Unread() == s.buffer + s.socket
  {
  }

  lemma SentIsWhole(before: seq<Byte>, captured: seq<Byte>, dropped: seq<Byte>, tail: seq<Byte>, answer: seq<Byte>)
    ensures before + (captured + tail + answer) == before + (captured + (dropped + tail) + answer) <==> dropped == []
  {
    if before + (captured + tail + answer) == before + (captured + (dropped + tail) + answer) {
      assert |before + (captured + tail + answer)| == |before + (captured + (dropped + tail) + answer)|;
    }
  }

  // ---------------------------------------------------------------------------
  // When the relay is lossless however the bytes arrive
  // ---------------------------------------------------------------------------

  lemma OneRead(start: Source, bytes: seq<Byte>, after: Source)
    requires bytes != [] && ReadStep(start, |bytes|, bytes, after)
    ensures Reads(start, |bytes|, bytes, after)
  {
    ReadsNothing(start, |bytes|);
    ReadsOneMore(start, |bytes|, [], start, bytes, after);
    assert [] + bytes == bytes;
  }

  /** All but the last byte of a record, straight from the socket or through the buffer. */
  lemma AllButLast(body: seq<Byte>, rest: seq<Byte>)
    requires |body| >= 2
    ensures ReadStep(Source([], body + rest), |body|, body[..|body| - 1], Source([], body[|body| - 1..] + rest))
  {
    var front, back := body[..|body| - 1], body[|body| - 1..] + rest;
    assert body + rest == front + back;
    if |body| < BUFFER_CAPACITY {
      assert Fill(Source([], body + rest), Source(front, back));
      assert FromBuffer(Source(front, back), |body|, front, Source([], back));
    }
  }

  /** The last byte of a record, through a fill of the buffer that takes `extra` bytes more. */
  lemma LastByteThrough(body: seq<Byte>, rest: seq<Byte>, extra: nat)
    requires body != [] && extra <= |rest| && extra < BUFFER_CAPACITY
    ensures Reads(Source([], body + rest), |body|, body, Source(rest[..extra], rest[extra..]))
  {
    hide Reads, ReadStep;
    var n, start, after := |body|, Source([], body + rest), Source(rest[..extra], rest[extra..]);
    var front, back := body[..n - 1], body[n - 1..] + rest;
    assert back[1..1 + extra] == rest[..extra] && back[1 + extra..] == rest[extra..];
    FillThenRead(back, 1, extra, after);
    ReadsNothing(start, n);
    assert [] + front == front && front + back[..1] == body;
    if n == 1 {
      assert back == body + rest;
      ReadsOneMore(start, n, [], start, back[..1], after);
    } else {
      AllButLast(body, rest);
      ReadsOneMore(start, n, [], start, front, Source([], back));
      ReadsOneMore(start, n, front, Source([], back), back[..1], after);
    }
  }

  /** What the client sends behind the record unprompted can be dropped, in any length that a full buffer leaves
      behind the record's last byte. */
  lemma DropOf(stream: seq<Byte>, extra: nat) returns (middle: Source, after: Source)
    requires |stream| >= 5 && RecordLength(stream) >= 1 && 5 + RecordLength(stream) + extra <= |stream|
    requires extra < BUFFER_CAPACITY
    ensures TakesRecord(stream, middle, after) && |after.buffer| == extra
  {
    hide Reads, ReadStep;
    var n := RecordLength(stream);
    var body, rest := stream[5..5 + n], stream[5 + n..];
    middle, after := Source([], body + rest), Source(rest[..extra], rest[extra..]);
    assert stream[5..] == body + rest;
    FillThenRead(stream, 5, 0, middle);
    OneRead(Source([], stream), stream[..5], middle);
    LastByteThrough(body, rest, extra);
  }

  lemma DropIsPossible(stream: seq<Byte>) returns (middle: Source, after: Source)
    requires |stream| >= 5 && RecordLength(stream) >= 1 && 5 + RecordLength(stream) < |stream|
    ensures TakesRecord(stream, middle, after) && after.buffer != []
  {
    middle, after := DropOf(stream, 1);
  }

  lemma StepLeavesRoom(before: Source, max: nat, chunk: seq<Byte>, after: Source)
    requires ReadStep(before, max, chunk, after) && chunk != [] && |before.buffer| <= BUFFER_CAPACITY
    ensures |after.buffer| < BUFFER_CAPACITY
  {
  }

  lemma {:induction false} ReadsLeaveRoom(before: Source, n: nat, bytes: seq<Byte>, after: Source)
    requires Reads(before, n, bytes, after) && |before.buffer| < BUFFER_CAPACITY
    ensures |after.buffer| < BUFFER_CAPACITY
    decreases |bytes|
  {
    hide ReadStep;
    if bytes != [] {
      var k: nat, middle :|
        && k < |bytes| && k <= n
        && Reads(before, n, bytes[..k], middle)
        && ReadStep(middle, n - k, bytes[k..], after);
      ReadsLeaveRoom(before, n, bytes[..k], middle);
      StepLeavesRoom(middle, n - k, bytes[k..], after);
    }
  }

  /** Exactly how much the relay can drop: anything up to 8191 bytes of what is there behind the record. */
  lemma DropSizes(stream: seq<Byte>, extra: nat)
    requires |stream| >= 5 && RecordLength(stream) >= 1 && 5 + RecordLength(stream) <= |stream|
    ensures (exists middle, after :: TakesRecord(stream, middle, after) && |after.buffer| == extra) <==>
            extra <= 8191 && 5 + RecordLength(stream) + extra <= |stream|
  {
    hide Reads;
    if middle, after :| TakesRecord(stream, middle, after) && |after.buffer| == extra {
      ReadsLeaveRoom(Source([], stream), 5, stream[..5], middle);
      ReadsLeaveRoom(middle, RecordLength(stream), stream[5..5 + RecordLength(stream)], after);
      RecordTaken(stream, middle, after);
    }
    if extra <= 8191 && 5 + RecordLength(stream) + extra <= |stream| {
      var middle, after := DropOf(stream, extra);
    }
  }

  /** A fill of `max + extra` bytes answers a read of `max` and leaves `extra` behind. */
  lemma FillThenRead(socket: seq<Byte>, max: nat, extra: nat, after: Source)
    requires 1 <= max < BUFFER_CAPACITY && max + extra <= |socket| && max + extra <= BUFFER_CAPACITY
    requires after == Source(socket[max..max + extra], socket[max + extra..])
    ensures ReadStep(Source([], socket), max, socket[..max], after)
  {
    var filled := Source(socket[..max + extra], socket[max + extra..]);
    assert filled.Unread() == socket;
    assert Fill(Source([], socket), filled);
    assert filled.buffer[..max] == socket[..max] && filled.buffer[max..] == socket[max..max + extra];
  }

  /** No way of delivering the client's bytes makes the relay drop any of them exactly when what the client
      sends unprompted ends with the record that holds the ClientHello. What it sends after hearing back is
      never in danger. */
  lemma LosslessIff(early: seq<Byte>, answer: seq<Byte>)
    requires FirstRecordHost(early).Ok?
    ensures (forall middle, after :: TakesRecord(early, middle, after) ==>
               Relayed(early, after, answer) == early + answer) <==>
            |early| == 5 + RecordLength(early)
  {
    hide FirstRecordHost, TakesRecord;
    var n := 5 + RecordLength(early);
    forall middle, after | TakesRecord(early, middle, after)
      ensures |after.buffer| + |after.socket| == |early| - n
      ensures Relayed(early, after, answer) == early + answer <==> after.buffer == []
    {
      RecordTaken(early, middle, after);
      SentIsWhole([], early[..n], after.buffer, after.socket, answer);
      assert early == early[..n] + (after.buffer + after.socket);
      assert [] + (early + answer) == early + answer;
      assert [] + Relayed(early, after, answer) == Relayed(early, after, answer);
    }
    if |early| != n {
      var middle, after := DropIsPossible(early);
    }
  }

  lemma RecordTaken(stream: seq<Byte>, middle: Source, after: Source)
    requires |stream| >= 5 && 5 + RecordLength(stream) <= |stream| && TakesRecord(stream, middle, after)
    ensures stream[5 + RecordLength(stream)..] == after.buffer + after.socket
  {
    var n := RecordLength(stream);
    ReadsConserve(Source([], stream), 5, stream[..5], middle);
    ReadsConserve(middle, n, stream[5..5 + n], after);
    assert Source([], stream).Unread() == stream;
    assert stream[5..] == middle.Unread();
    assert stream[5..][n..] == after.Unread();
  }
}

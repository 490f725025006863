/** The HTTP gateway relay: a client's request head decides the destination, and its stream goes there whole. */
module HttpGateway {
  import opened Bytes
  import opened Destinations
  import opened Http
  import opened HttpHost
  import opened Stream
  import opened Wrappers

  datatype GatewayError = Head(head: HeadError) | BadHost(host: HostError) | Unreachable

  /** The header block at the front of a stream. */
  function HeaderBlock(stream: seq<Byte>): seq<Byte>
    requires FindHeaderEnd(stream).Some?
  {
    stream[..FindHeaderEnd(stream).value]
  }

  /** `relay_http_gateway`. `upstream` is what the connector hands out for the host's port 80 when the host is
      reachable. The buffered head goes there first, then whatever the client still sends, while the server's
      bytes come back. */
  method RelayHttpGateway(client: Connection, upstream: Connection, reachable: bool)
    returns (r: Result<Destination, GatewayError>)
    requires client != upstream
    modifies client, upstream
    ensures r.Ok? ==>
              && upstream.sent == old(upstream.sent) + old(client.incoming) && client.incoming == []
              && client.sent == old(client.sent) + old(upstream.incoming) && upstream.incoming == []
              && FindHeaderEnd(old(client.incoming)).Some?
              && HostOf(HeaderBlock(old(client.incoming))).Ok?
              && r.value == Destination(Domain(HostOf(HeaderBlock(old(client.incoming))).value), 80)
    ensures r.Err? ==>
              && upstream.sent == old(upstream.sent) && upstream.incoming == old(upstream.incoming)
              && client.sent == old(client.sent)
    ensures var end := FindHeaderEnd(old(client.incoming));
            && (end.Some? && end.value <= MAX_REQUEST_HEAD ==>
                  (r.Ok? <==> HostOf(HeaderBlock(old(client.incoming))).Ok? && reachable))
            && (end.None? || end.value > MAX_CAPACITY ==> r.Err? && r.error.Head?)
            && (r == Err(Unreachable) ==> !reachable)
            && (r.Err? && r.error.BadHost? ==>
                  end.Some? && HostOf(HeaderBlock(old(client.incoming))) == Err(r.error.host))
  {
    hide HostOf;
    ghost var stream := client.incoming;
    var request, _ := ReadHttpRequestHead(client);
    if request.Err? {
      return Err(Head(request.error));
    }
    var headerEnd := FindHeaderEnd(request.value);
    assert request.value[..headerEnd.value] == HeaderBlock(stream);
    var host := ParseHttpHost(request.value[..headerEnd.value]);
    if host.Err? {
      return Err(BadHost(host.error));
    }
    var destination := Destination(Domain(host.value), 80);
    if !reachable {
      return Err(Unreachable);
    }
    upstream.WriteAll(request.value);
    CopyBidirectional(client, upstream);
    return Ok(destination);
  }
}

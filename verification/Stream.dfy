/** A TCP connection seen from one end: the bytes the peer will still deliver before it closes, handed out
    in pieces whose sizes nobody controls, and the bytes written so far. */
module Stream {
  import opened Bytes
  import opened Wrappers

  class Connection {
    var incoming: seq<Byte>
    var sent: seq<Byte>

    constructor (incoming: seq<Byte>)
      ensures this.incoming == incoming && sent == []
    {
      this.incoming := incoming;
      sent := [];
    }

    /** One read: any non-empty piece of what is left, or nothing at the end of the stream. */
    method Read(max: nat) returns (chunk: seq<Byte>)
      requires max > 0
      modifies this`incoming
      ensures old(incoming) == chunk + incoming
      ensures |chunk| <= max
      ensures chunk == [] <==> old(incoming) == []
    {
      if incoming == [] {
        return [];
      }
      var n :| 1 <= n <= max && n <= |incoming|;
      chunk := incoming[..n];
      incoming := incoming[n..];
    }

    /** `read_exact`: fails, with the stream used up, when the peer closes too early. */
    method ReadExact(n: nat) returns (r: Option<seq<Byte>>)
      modifies this`incoming
      ensures r.Some? <==> n <= |old(incoming)|
      ensures r.Some? ==> r.value == old(incoming)[..n] && incoming == old(incoming)[n..]
      ensures r.None? ==> incoming == []
    {
      ghost var stream := incoming;
      var bytes := [];
      while |bytes| < n
        invariant |bytes| <= n && stream == bytes + incoming
        decreases n - |bytes|
      {
        var chunk := Read(n - |bytes|);
        if chunk == [] {
          return None;
        }
        bytes := bytes + chunk;
      }
      return Some(bytes);
    }

    /** The peer goes on sending. */
    method Arrive(more: seq<Byte>)
      modifies this`incoming
      ensures incoming == old(incoming) + more
    {
      incoming := incoming + more;
    }

    method WriteAll(bytes: seq<Byte>)
      modifies this`sent
      ensures sent == old(sent) + bytes
    {
      sent := sent + bytes;
    }
  }

  /** One piece from `source` to `sink`; `open` is false at the end of the source's stream. */
  method CopyPiece(source: Connection, sink: Connection) returns (open: bool)
    requires source != sink
    modifies source`incoming, sink`sent
    ensures exists chunk ::
              && old(source.incoming) == chunk + source.incoming && sink.sent == old(sink.sent) + chunk
              && (open <==> chunk != []) && (!open ==> source.incoming == [])
  {
    var chunk := source.Read(8192);
    sink.WriteAll(chunk);
    open := chunk != [];
  }

  /** What has been sent and what is still to come make up the same stream. */
  ghost predicate Conserved(sent: seq<Byte>, incoming: seq<Byte>, sent': seq<Byte>, incoming': seq<Byte>) {
    sent + incoming == sent' + incoming'
  }

  lemma PieceConserves(sent: seq<Byte>, incoming: seq<Byte>, chunk: seq<Byte>, rest: seq<Byte>)
    requires incoming == chunk + rest
    ensures Conserved(sent, incoming, sent + chunk, rest)
  {
  }

  /** `copy_bidirectional`: both directions, piece by piece in any order, until both streams have ended. */
  method CopyBidirectional(a: Connection, b: Connection)
    requires a != b
    modifies a, b
    ensures b.sent == old(b.sent) + old(a.incoming) && a.incoming == []
    ensures a.sent == old(a.sent) + old(b.incoming) && b.incoming == []
  {
    var aOpen, bOpen := true, true;
    while aOpen || bOpen
      invariant Conserved(old(b.sent), old(a.incoming), b.sent, a.incoming) && (!aOpen ==> a.incoming == [])
      invariant Conserved(old(a.sent), old(b.incoming), a.sent, b.incoming) && (!bOpen ==> b.incoming == [])
      decreases |a.incoming| + |b.incoming|, aOpen, bOpen
    {
      var fromA: bool :| if fromA then aOpen else bOpen;
      ghost var toB, toA, leftA, leftB := b.sent, a.sent, a.incoming, b.incoming;
      if fromA {
        aOpen := CopyPiece(a, b);
        PieceConserves(toB, leftA, b.sent[|toB|..], a.incoming);
      } else {
        bOpen := CopyPiece(b, a);
        PieceConserves(toA, leftB, a.sent[|toA|..], b.incoming);
      }
    }
    assert b.sent + [] == b.sent && a.sent + [] == a.sent;
  }
}

/** Finding the end of an HTTP header block, and reading the request head of a gateway client. */
module Http {
  import opened Bytes
  import opened Stream
  import opened Wrappers

  const MAX_REQUEST_HEAD: nat := 16 * 1024

  // ---------------------------------------------------------------------------
  // The end of a header block
  // ---------------------------------------------------------------------------

  /** CR LF CR LF ends at `e`. */
  predicate EndsAt(s: seq<Byte>, e: int) {
    4 <= e <= |s| && s[e - 4] == 13 && s[e - 3] == 10 && s[e - 2] == 13 && s[e - 1] == 10
  }

  function FindFrom(s: seq<Byte>, i: nat): (r: Option<nat>)
    decreases |s| - i
  {
    if i + 4 > |s| then None
    else if s[i..i + 4] == [13, 10, 13, 10] then Some(i + 4)
    else FindFrom(s, i + 1)
  }

  /** `find_http_header_end`: the first window of four bytes that is CR LF CR LF. */
  function FindHeaderEnd(s: seq<Byte>): (r: Option<nat>)
    ensures r.Some? ==> 4 <= r.value <= |s| && EndsAt(s, r.value) && forall d :: d < r.value ==> !EndsAt(s, d)
    ensures r.None? ==> forall d :: !EndsAt(s, d)
  {
    FindFromIsFirst(s, 0);
    FindFrom(s, 0)
  }

  lemma {:induction false} FindFromIsFirst(s: seq<Byte>, i: nat)
    ensures FindFrom(s, i).Some? ==>
              EndsAt(s, FindFrom(s, i).value) && forall d :: i + 4 <= d < FindFrom(s, i).value ==> !EndsAt(s, d)
    ensures FindFrom(s, i).None? ==> forall d :: i + 4 <= d ==> !EndsAt(s, d)
    decreases |s| - i
  {
    if i + 4 <= |s| {
      var w := s[i..i + 4];
      assert w == [s[i], s[i + 1], s[i + 2], s[i + 3]];
      assert EndsAt(s, i + 4) <==> w == [13, 10, 13, 10];
      if w != [13, 10, 13, 10] {
        FindFromIsFirst(s, i + 1);
      }
    }
  }

  /** There is only one first end. */
  lemma FirstEndIsFound(s: seq<Byte>, e: nat)
    requires EndsAt(s, e) && forall d :: d < e ==> !EndsAt(s, d)
    ensures FindHeaderEnd(s) == Some(e)
  {
  }

  /** The four bytes in front of `d` end a line and the empty line behind it. */
  predicate BlankLineBefore(s: seq<Byte>, d: int) {
    4 <= d <= |s| && s[d - 4..d] == [13, 10, 13, 10]
  }

  lemma BlankLineIsEnd(s: seq<Byte>, d: int)
    ensures EndsAt(s, d) <==> BlankLineBefore(s, d)
  {
    if 4 <= d <= |s| {
      assert s[d - 4..d] == [s[d - 4], s[d - 3], s[d - 2], s[d - 1]];
    }
  }

  /** The end that is found is that of the first blank line. */
  lemma HeaderEndIff(s: seq<Byte>, e: nat)
    ensures FindHeaderEnd(s) == Some(e) <==> BlankLineBefore(s, e) && forall d :: d < e ==> !BlankLineBefore(s, d)
    ensures FindHeaderEnd(s).None? <==> forall d :: !BlankLineBefore(s, d)
  {
    hide EndsAt, BlankLineBefore;
    forall d: int ensures EndsAt(s, d) <==> BlankLineBefore(s, d) {
      BlankLineIsEnd(s, d);
    }
    if EndsAt(s, e) && forall d :: d < e ==> !EndsAt(s, d) {
      FirstEndIsFound(s, e);
    }
  }

  /** A prefix has the ends of the whole that fit into it. */
  lemma EndsInPrefix(s: seq<Byte>, n: nat, e: int)
    requires n <= |s| && e <= n
    ensures EndsAt(s[..n], e) <==> EndsAt(s, e)
  {
  }

  lemma EndsInSuffix(s: seq<Byte>, from: nat, e: int)
    requires from <= |s|
    ensures EndsAt(s[from..], e) <==> e >= 4 && EndsAt(s, from + e)
  {
  }

  /** Once the first `before` bytes are known to hold no end, looking from three bytes before them on finds
      exactly what a search of everything would find. */
  lemma SuffixSearchAgrees(s: seq<Byte>, before: nat)
    requires before <= |s| && FindHeaderEnd(s[..before]).None?
    ensures var from := if before < 3 then 0 else before - 3;
            FindHeaderEnd(s) ==
            match FindHeaderEnd(s[from..])
            case None => None
            case Some(e) => Some(from + e)
  {
    hide EndsAt, FindHeaderEnd;
    var from := if before < 3 then 0 else before - 3;
    var whole, found := FindHeaderEnd(s), FindHeaderEnd(s[from..]);
    if whole.Some? {
      if whole.value <= before {
        EndsInPrefix(s, before, whole.value);
      }
      EndsInSuffix(s, from, whole.value - from);
      forall d | d < whole.value - from ensures !EndsAt(s[from..], d) {
        EndsInSuffix(s, from, d);
      }
      FirstEndIsFound(s[from..], whole.value - from);
    } else if found.Some? {
      EndsInSuffix(s, from, found.value);
    }
  }

  // ---------------------------------------------------------------------------
  // The request head
  // ---------------------------------------------------------------------------

  datatype HeadError = HeadTooLong | ClosedEarly

  /** The buffer's first capacity, and the room asked for before every read. */
  const SPARE: nat := 1024

  /** The capacity the buffer has when it cannot grow any more. */
  const MAX_CAPACITY: nat := 32 * 1024

  /** `reserve(1024)`: with less room than that, a vector of bytes grows to twice its capacity, or to what is
      needed if that is more. */
  function Reserved(capacity: nat, len: nat): (grown: nat)
    requires len <= capacity
    ensures grown >= len + SPARE && grown >= capacity
  {
    if capacity - len >= SPARE then capacity
    else if 2 * capacity >= len + SPARE then 2 * capacity else len + SPARE
  }

  function Flatten(chunks: seq<seq<Byte>>): seq<Byte> {
    if chunks == [] then [] else Flatten(chunks[..|chunks| - 1]) + chunks[|chunks| - 1]
  }

  datatype Progress = Reading(request: seq<Byte>, capacity: nat) | Found(request: seq<Byte>)
  {
    /** Another read is due. */
    predicate Hungry() {
      Reading? && |request| < MAX_REQUEST_HEAD
    }

    /** A read can return this: something, and no more than the buffer has room for. */
    predicate Fits(chunk: seq<Byte>) {
      Hungry() && |request| <= capacity && 1 <= |chunk| <= Reserved(capacity, |request|) - |request|
    }
  }

  /** Where the reader stands after these pieces have arrived. */
  function After(chunks: seq<seq<Byte>>): (p: Progress) {
    if chunks == [] then Reading([], SPARE)
    else
      match After(chunks[..|chunks| - 1])
      case Found(request) => Found(request)
      case Reading(request, capacity) =>
        var grown := request + chunks[|chunks| - 1];
        if FindHeaderEnd(grown).Some? then Found(grown)
        else Reading(grown, if |request| <= capacity then Reserved(capacity, |request|) else capacity)
  }

  /** Pieces that reads of the growing buffer can return one after the other. */
  predicate Arrives(chunks: seq<seq<Byte>>) {
    chunks == [] ||
    (Arrives(chunks[..|chunks| - 1]) && After(chunks[..|chunks| - 1]).Fits(chunks[|chunks| - 1]))
  }

  /** A complete run of the reader on a stream: nothing is read once it has its answer, and without one it
      reads until the stream ends. */
  predicate Delivery(chunks: seq<seq<Byte>>, stream: seq<Byte>) {
    && Arrives(chunks)
    && Flatten(chunks) <= stream
    && (After(chunks).Hungry() ==> Flatten(chunks) == stream)
  }

  /** The result of a run. */
  function Outcome(chunks: seq<seq<Byte>>): Result<seq<Byte>, HeadError> {
    match After(chunks)
    case Found(request) => Ok(request)
    case Reading(request, _) => Err(if |request| >= MAX_REQUEST_HEAD then HeadTooLong else ClosedEarly)
  }

  lemma NoPieces()
    ensures After([]) == Reading([], SPARE) && Flatten([]) == [] && Arrives([])
  {
  }

  lemma OneMorePiece(chunks: seq<seq<Byte>>, chunk: seq<Byte>)
    requires Arrives(chunks) && After(chunks).Fits(chunk)
    ensures Arrives(chunks + [chunk])
    ensures Flatten(chunks + [chunk]) == Flatten(chunks) + chunk
    ensures var p, grown := After(chunks), After(chunks).request + chunk;
            After(chunks + [chunk]) ==
            if FindHeaderEnd(grown).Some? then Found(grown) else Reading(grown, Reserved(p.capacity, |p.request|))
  {
    assert (chunks + [chunk])[..|chunks|] == chunks;
  }

  /** The capacities that doubling goes through. */
  predicate IsCapacity(c: nat) {
    c == 1024 || c == 2048 || c == 4096 || c == 8192 || c == 16384 || c == MAX_CAPACITY
  }

  lemma CapacityGrows(capacity: nat, len: nat)
    requires IsCapacity(capacity) && len <= capacity && len < MAX_REQUEST_HEAD
    ensures IsCapacity(Reserved(capacity, len))
  {
  }

  /** What every run keeps: the request is what has arrived, it fits the buffer, and the buffer is bounded. */
  lemma {:induction false} ArrivedFits(chunks: seq<seq<Byte>>)
    requires Arrives(chunks)
    ensures var p := After(chunks);
            && p.request == Flatten(chunks) && |p.request| <= MAX_CAPACITY
            && (p.Reading? <==> FindHeaderEnd(p.request).None?)
            && (p.Reading? ==> IsCapacity(p.capacity) && |p.request| <= p.capacity)
    decreases |chunks|
  {
    hide FindHeaderEnd;
    if chunks == [] {
      assert FindHeaderEnd([]).None?;
    } else {
      ArrivedFits(chunks[..|chunks| - 1]);
      var p := After(chunks[..|chunks| - 1]);
      CapacityGrows(p.capacity, |p.request|);
    }
  }

  /** `read_http_request_head`. The result is a prefix of the client's stream that holds the first header
      end of the stream; nothing is lost. A head that ends within the limit is always read, however the
      stream is cut up, and one that ends beyond the buffer's last capacity never is; a stream without one
      ends in an error that does not depend on the cutting either. */
  method ReadHttpRequestHead(client: Connection)
    returns (r: Result<seq<Byte>, HeadError>, ghost chunks: seq<seq<Byte>>)
    modifies client`incoming
    ensures Delivery(chunks, old(client.incoming)) && r == Outcome(chunks)
    ensures old(client.incoming) == Flatten(chunks) + client.incoming
    ensures r.Ok? ==> old(client.incoming) == r.value + client.incoming
    ensures r.Ok? ==> FindHeaderEnd(r.value).Some? && FindHeaderEnd(r.value) == FindHeaderEnd(old(client.incoming))
    ensures var end := FindHeaderEnd(old(client.incoming));
            && (end.Some? && end.value <= MAX_REQUEST_HEAD ==> r.Ok?)
            && (end.Some? && end.value > MAX_CAPACITY ==> r == Err(HeadTooLong))
            && (r == Err(ClosedEarly) <==> end.None? && |old(client.incoming)| < MAX_REQUEST_HEAD)
  {
    hide EndsAt, FindHeaderEnd, After, Flatten, Arrives;
    ghost var stream := client.incoming;
    var request, capacity: nat := [], SPARE;
    chunks := [];
    NoPieces();
    while true
      invariant stream == request + client.incoming
      invariant Arrives(chunks) && After(chunks) == Reading(request, capacity) && Flatten(chunks) == request
      decreases MAX_REQUEST_HEAD - |request|
    {
      ArrivedFits(chunks);
      if |request| >= MAX_REQUEST_HEAD {
        PrefixWithoutEnd(request, client.incoming);
        return Err(HeadTooLong), chunks;
      }
      var before := |request|;
      capacity := Reserved(capacity, before);
      var chunk := client.Read(capacity - before);
      if chunk == [] {
        assert stream == request;
        return Err(ClosedEarly), chunks;
      }
      assert request == (request + chunk)[..before];
      OneMorePiece(chunks, chunk);
      request := request + chunk;
      chunks := chunks + [chunk];
      ArrivedFits(chunks);
      SuffixSearchAgrees(request, before);
      var from := if before < 3 then 0 else before - 3;
      if FindHeaderEnd(request[from..]).Some? || FindHeaderEnd(request).Some? {
        PrefixWithEnd(request, client.incoming);
        EndWithin(request);
        return Ok(request), chunks;
      }
    }
  }

  lemma EndWithin(s: seq<Byte>)
    requires FindHeaderEnd(s).Some?
    ensures FindHeaderEnd(s).value <= |s|
  {
  }

  // ---------------------------------------------------------------------------
  // When the way the stream is cut up matters
  // ---------------------------------------------------------------------------

  ghost predicate CanBeAccepted(stream: seq<Byte>) {
    exists chunks :: Delivery(chunks, stream) && Outcome(chunks).Ok?
  }

  ghost predicate CanBeRefused(stream: seq<Byte>) {
    exists chunks :: Delivery(chunks, stream) && Outcome(chunks).Err?
  }

  /** A stream that trickles in byte by byte. */
  function Trickle(s: seq<Byte>): (chunks: seq<seq<Byte>>)
    ensures |chunks| == |s|
  {
    if s == [] then [] else Trickle(s[..|s| - 1]) + [[s[|s| - 1]]]
  }

  lemma {:induction false} TrickleArrives(s: seq<Byte>)
    requires FindHeaderEnd(s).None? && |s| <= MAX_REQUEST_HEAD
    ensures Arrives(Trickle(s)) && After(Trickle(s)).Reading?
    ensures After(Trickle(s)).request == s == Flatten(Trickle(s))
    ensures s != [] ==> After(Trickle(s)).capacity >= |s| + SPARE - 1
    decreases |s|
  {
    hide FindHeaderEnd, EndsAt, After, Flatten, Arrives;
    NoPieces();
    if s != [] {
      var front, last := s[..|s| - 1], [s[|s| - 1]];
      assert s == front + last;
      if FindHeaderEnd(front).Some? {
        PrefixWithEnd(front, last);
      }
      TrickleArrives(front);
      ArrivedFits(Trickle(front));
      OneMorePiece(Trickle(front), last);
    }
  }

  /** All of a stream up to some point byte by byte, then the rest of the head at once. */
  lemma AcceptedRun(stream: seq<Byte>) returns (chunks: seq<seq<Byte>>)
    requires FindHeaderEnd(stream).Some? && FindHeaderEnd(stream).value <= MAX_CAPACITY
    ensures Delivery(chunks, stream) && Outcome(chunks).Ok?
  {
    hide EndsAt, FindHeaderEnd, After, Flatten, Arrives;
    EndWithin(stream);
    var end := FindHeaderEnd(stream).value;
    var k := if end <= MAX_REQUEST_HEAD then end - 1 else MAX_REQUEST_HEAD - 1;
    var front, last := stream[..k], stream[k..end];
    NoEndBefore(stream, k);
    TrickleArrives(front);
    ArrivedFits(Trickle(front));
    OneMorePiece(Trickle(front), last);
    chunks := Trickle(front) + [last];
    assert front + last == stream[..end];
    EndAtEnd(stream);
  }

  /** A stream without an end in its first 16384 bytes, byte by byte. */
  lemma RefusedRun(stream: seq<Byte>) returns (chunks: seq<seq<Byte>>)
    requires FindHeaderEnd(stream).Some? ==> FindHeaderEnd(stream).value > MAX_REQUEST_HEAD
    ensures Delivery(chunks, stream) && Outcome(chunks).Err?
  {
    hide EndsAt, FindHeaderEnd, After, Flatten, Arrives;
    var k := if |stream| < MAX_REQUEST_HEAD then |stream| else MAX_REQUEST_HEAD;
    if FindHeaderEnd(stream).Some? {
      EndWithin(stream);
    }
    NoEndBefore(stream, k);
    TrickleArrives(stream[..k]);
    chunks := Trickle(stream[..k]);
  }

  /** What decides a run: where the head ends. */
  lemma RunDecides(chunks: seq<seq<Byte>>, stream: seq<Byte>)
    requires Delivery(chunks, stream)
    ensures Outcome(chunks).Ok? ==> FindHeaderEnd(stream).Some? && FindHeaderEnd(stream).value <= MAX_CAPACITY
    ensures Outcome(chunks).Err? && FindHeaderEnd(stream).Some? ==> FindHeaderEnd(stream).value > MAX_REQUEST_HEAD
  {
    hide EndsAt, FindHeaderEnd, After, Flatten, Arrives;
    ArrivedFits(chunks);
    var s, rest := Flatten(chunks), stream[|Flatten(chunks)|..];
    assert stream == s + rest;
    if FindHeaderEnd(s).Some? {
      EndWithin(s);
      PrefixWithEnd(s, rest);
    } else {
      PrefixWithoutEnd(s, rest);
    }
  }

  /** Three ranges: a head that ends within 16384 bytes is accepted however its bytes arrive, one that ends
      beyond 32768 (or never) is refused however they arrive, and in between the cutting decides. */
  lemma AcceptanceByEnd(stream: seq<Byte>)
    ensures CanBeAccepted(stream) <==> FindHeaderEnd(stream).Some? && FindHeaderEnd(stream).value <= 32768
    ensures CanBeRefused(stream) <==>
            (FindHeaderEnd(stream).Some? ==> FindHeaderEnd(stream).value > 16384)
  {
    hide Delivery, Outcome, FindHeaderEnd;
    if FindHeaderEnd(stream).Some? && FindHeaderEnd(stream).value <= MAX_CAPACITY {
      var chunks := AcceptedRun(stream);
    }
    if FindHeaderEnd(stream).Some? ==> FindHeaderEnd(stream).value > MAX_REQUEST_HEAD {
      var chunks := RefusedRun(stream);
    }
    forall chunks | Delivery(chunks, stream)
      ensures Outcome(chunks).Ok? ==> FindHeaderEnd(stream).Some? && FindHeaderEnd(stream).value <= MAX_CAPACITY
      ensures Outcome(chunks).Err? && FindHeaderEnd(stream).Some? ==>
                FindHeaderEnd(stream).value > MAX_REQUEST_HEAD
    {
      RunDecides(chunks, stream);
    }
  }

  /** Whether a head is accepted depends on the cutting exactly when it ends in the middle range. */
  lemma CuttingMattersIff(stream: seq<Byte>)
    ensures CanBeAccepted(stream) && CanBeRefused(stream) <==>
            FindHeaderEnd(stream).Some? && 16384 < FindHeaderEnd(stream).value <= 32768
  {
    hide CanBeAccepted, CanBeRefused, FindHeaderEnd;
    AcceptanceByEnd(stream);
  }

  /** The stream up to its first end has that end at its end. */
  lemma EndAtEnd(stream: seq<Byte>)
    requires FindHeaderEnd(stream).Some?
    ensures FindHeaderEnd(stream[..FindHeaderEnd(stream).value]) == FindHeaderEnd(stream)
  {
    hide EndsAt;
    var e := FindHeaderEnd(stream).value;
    assert EndsAt(stream, e);
    EndsInPrefix(stream, e, e);
    forall d: int | d < e ensures !EndsAt(stream[..e], d) {
      EndsInPrefix(stream, e, d);
    }
    FirstEndIsFound(stream[..e], e);
  }

  lemma NoEndBefore(stream: seq<Byte>, n: nat)
    requires n <= |stream| && (FindHeaderEnd(stream).Some? ==> FindHeaderEnd(stream).value > n)
    ensures FindHeaderEnd(stream[..n]).None?
  {
    if FindHeaderEnd(stream[..n]).Some? {
      EndsInPrefix(stream, n, FindHeaderEnd(stream[..n]).value);
    }
  }

  lemma PrefixWithEnd(s: seq<Byte>, rest: seq<Byte>)
    requires FindHeaderEnd(s).Some?
    ensures FindHeaderEnd(s + rest) == FindHeaderEnd(s)
  {
    var e := FindHeaderEnd(s).value;
    assert (s + rest)[..|s|] == s;
    EndsInPrefix(s + rest, |s|, e);
    forall d | d < e ensures !EndsAt(s + rest, d) {
      EndsInPrefix(s + rest, |s|, d);
    }
    FirstEndIsFound(s + rest, e);
  }

  lemma PrefixWithoutEnd(s: seq<Byte>, rest: seq<Byte>)
    requires FindHeaderEnd(s).None?
    ensures FindHeaderEnd(s + rest).Some? ==> FindHeaderEnd(s + rest).value > |s|
  {
    if FindHeaderEnd(s + rest).Some? && FindHeaderEnd(s + rest).value <= |s| {
      assert (s + rest)[..|s|] == s;
      EndsInPrefix(s + rest, |s|, FindHeaderEnd(s + rest).value);
    }
  }
}

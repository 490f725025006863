/** Rewritten packets as a receiver sees them: field by field, with the checks of RFC 791, RFC 768 and RFC 9293. */
module ReceiverLaws {
  import opened Addresses
  import opened Bytes
  import opened Checksum
  import opened Flow
  import opened NatLaws
  import opened Packet
  import opened PacketFormat
  import opened Wrappers

  /** The one's-complement sum of the words is all ones (RFC 1071, section 1). */
  predicate SumsToAllOnes(s: seq<Byte>) {
    WordSum(s) > 0 && WordSum(s) % 65535 == 0
  }

  lemma VerifiesSums(s: seq<Byte>)
    ensures Verifies(s) <==> SumsToAllOnes(s)
  {
    ResidueCongruent(WordSum(s));
  }

  /** Where the checksum stands in a TCP segment (RFC 9293, section 3.1) or a UDP datagram (RFC 768). */
  function ChecksumOffset(protocol: Byte): nat {
    if protocol == 6 then 16 else 6
  }

  /** A TCP or UDP datagram that the redirector rewrites: its buffer holds the transport header. */
  predicate Carries(f: Fields) {
    && f.WellFormed()
    && (f.protocol == 6 || f.protocol == 17)
    && |f.rest| >= (if f.protocol == 6 then 20 else 8)
  }

  function SegmentLength(f: Fields): U16
    requires f.WellFormed()
  {
    f.totalLen - 20 - |f.options|
  }

  /** The total length reaches past the checksum. */
  predicate Whole(f: Fields) {
    f.WellFormed() && SegmentLength(f) >= ChecksumOffset(f.protocol) + 2
  }

  /** What the transport checksum of a datagram is taken over: addresses, protocol and length of the segment, and
      the segment. */
  function ReceivedBlock(f: Fields): seq<Byte>
    requires f.WellFormed()
  {
    Octets(f.src) + Octets(f.dst) + [0, f.protocol] + Bytes16(SegmentLength(f)) + f.rest[..SegmentLength(f)]
  }

  // ---------------------------------------------------------------------------
  // The layout of an encoded datagram
  // ---------------------------------------------------------------------------

  lemma CarriesIsAccepted(f: Fields)
    requires Carries(f)
    ensures Accepted(Encode(f))
    ensures Shape(Encode(f)) ==
            Layout(20 + |f.options|, f.totalLen, 20 + |f.options| + ChecksumOffset(f.protocol))
    ensures ParseMeta(Encode(f)) ==
            Some(Meta(if f.protocol == 6 then Tcp else Udp, V4(f.src), Word(f.rest, 0), V4(f.dst), Word(f.rest, 2)))
  {
    hide Encode;
    EncodedHeader(f);
    EncodedBytes(f);
  }

  lemma BlockOfEncoded(f: Fields, l: Layout)
    requires Carries(f) && l.Fits(Encode(f)) && l.headerLen == 20 + |f.options| && l.totalLen == f.totalLen
    ensures PseudoSegment(Encode(f), l) == ReceivedBlock(f)
  {
    hide Encode;
    EncodedBytes(f);
    var p, h, n := Encode(f), l.headerLen, SegmentLength(f);
    assert p[12..16] == Octets(f.src) && p[16..20] == Octets(f.dst);
    assert p[h..f.totalLen] == p[h..][..n] == f.rest[..n];
  }

  // ---------------------------------------------------------------------------
  // Rewritten fields
  // ---------------------------------------------------------------------------

  /** The same datagram with another destination and other checksums. */
  function Redirected(f: Fields, ip: Ipv4, port: U16, headerSum: U16, segmentSum: U16): (g: Fields)
    requires Carries(f)
    ensures Carries(g) && (Whole(g) <==> Whole(f))
  {
    f.(dst := ip, checksum := Bytes16(headerSum),
       rest := Put16(Put16(f.rest, 2, port), ChecksumOffset(f.protocol), segmentSum))
  }

  function Restored(f: Fields, ip: Ipv4, port: U16, headerSum: U16, segmentSum: U16): (g: Fields)
    requires Carries(f)
    ensures Carries(g) && (Whole(g) <==> Whole(f))
  {
    f.(src := ip, checksum := Bytes16(headerSum),
       rest := Put16(Put16(f.rest, 0, port), ChecksumOffset(f.protocol), segmentSum))
  }

  lemma StampedFields(p: seq<Byte>, l: Layout) returns (headerSum: U16, segmentSum: U16)
    requires l.Fits(p)
    ensures Stamp(p, l) == Put16(Put16(p, 10, headerSum), l.checksumAt, segmentSum)
    ensures p[0] > 0 ==> headerSum != 0xffff
    ensures p[9] > 0 ==> segmentSum != (if p[9] == 17 then 0 else 0xffff)
  {
    StampForgetsOldChecksums(p, l);
    var e := Erase(p, l);
    headerSum, segmentSum := Complement(e[..l.headerLen]), SegmentField(e, l);
    PutsOverErased(p, l, headerSum, segmentSum);
    if p[0] > 0 {
      WordSumAt(e[..l.headerLen], 0);
    }
    if p[9] > 0 {
      var block := PseudoSegment(e, l);
      assert block[8] == 0 && block[9] == p[9];
      WordSumAt(block, 8);
    }
  }

  lemma PutsOverErased(p: seq<Byte>, l: Layout, w: U16, w': U16)
    requires l.Fits(p)
    ensures Put16(Put16(Erase(p, l), 10, w), l.checksumAt, w') == Put16(Put16(p, 10, w), l.checksumAt, w')
  {
    hide Erase;
  }

  /** The header of an encoded datagram. */
  function Front(f: Fields): (s: seq<Byte>)
    requires f.WellFormed()
    ensures |s| == 20 + |f.options| && Encode(f) == s + f.rest
  {
    Encode(f)[..20 + |f.options|]
  }

  lemma RedirectedFront(f: Fields, ip: Ipv4, port: U16, headerSum: U16, segmentSum: U16)
    requires Carries(f)
    ensures Front(Redirected(f, ip, port, headerSum, segmentSum)) == Put16(PutAddress(Front(f), 16, ip), 10, headerSum)
  {
  }

  lemma RestoredFront(f: Fields, ip: Ipv4, port: U16, headerSum: U16, segmentSum: U16)
    requires Carries(f)
    ensures Front(Restored(f, ip, port, headerSum, segmentSum)) == Put16(PutAddress(Front(f), 12, ip), 10, headerSum)
  {
  }

  /** Updates of a header and of what stands behind it. */
  lemma PutsInParts(front: seq<Byte>, rest: seq<Byte>, a: nat, ip: Ipv4, j: nat, port: U16, w: U16, k: nat, w': U16)
    requires a + 4 <= |front| && |front| >= 20 && j + 2 <= |rest| && k + 2 <= |rest|
    ensures Put16(Put16(Put16(PutAddress(front + rest, a, ip), |front| + j, port), 10, w), |front| + k, w') ==
            Put16(PutAddress(front, a, ip), 10, w) + Put16(Put16(rest, j, port), k, w')
  {
    hide Put16, PutAddress;
    AddressInFirst(front, rest, a, ip);
    var moved := PutAddress(front, a, ip);
    PutInSecond(moved, rest, j, port);
    PutInFirst(moved, Put16(rest, j, port), 10, w);
    PutInSecond(Put16(moved, 10, w), Put16(rest, j, port), k, w');
  }

  lemma AddressInFirst(front: seq<Byte>, rest: seq<Byte>, a: nat, ip: Ipv4)
    requires a + 4 <= |front|
    ensures PutAddress(front + rest, a, ip) == PutAddress(front, a, ip) + rest
  {
  }

  lemma PutInFirst(front: seq<Byte>, rest: seq<Byte>, i: nat, w: U16)
    requires i + 2 <= |front|
    ensures Put16(front + rest, i, w) == Put16(front, i, w) + rest
  {
  }

  lemma EncodedRedirect(f: Fields, ip: Ipv4, port: U16, headerSum: U16, segmentSum: U16)
    requires Carries(f)
    ensures var h := 20 + |f.options|;
            Encode(Redirected(f, ip, port, headerSum, segmentSum)) ==
            Put16(Put16(Put16(PutAddress(Encode(f), 16, ip), h + 2, port), 10, headerSum),
                  h + ChecksumOffset(f.protocol), segmentSum)
  {
    hide Encode, Front, Put16, PutAddress;
    RedirectedFront(f, ip, port, headerSum, segmentSum);
    PutsInParts(Front(f), f.rest, 16, ip, 2, port, headerSum, ChecksumOffset(f.protocol), segmentSum);
  }

  lemma EncodedReturn(f: Fields, ip: Ipv4, port: U16, headerSum: U16, segmentSum: U16)
    requires Carries(f)
    ensures var h := 20 + |f.options|;
            Encode(Restored(f, ip, port, headerSum, segmentSum)) ==
            Put16(Put16(Put16(PutAddress(Encode(f), 12, ip), h, port), 10, headerSum),
                  h + ChecksumOffset(f.protocol), segmentSum)
  {
    hide Encode, Front, Put16, PutAddress;
    RestoredFront(f, ip, port, headerSum, segmentSum);
    PutsInParts(Front(f), f.rest, 12, ip, 0, port, headerSum, ChecksumOffset(f.protocol), segmentSum);
  }

  // ---------------------------------------------------------------------------
  // Main results
  // ---------------------------------------------------------------------------

  /** The checksums a rewritten datagram leaves with pass the receiver's checks: the header's always, the
      transport one, over the block that carries the datagram's own protocol number, if the total length reaches
      past it. Zero, which would mean "no checksum", is never stored for UDP, and a checksum is otherwise the
      smaller of the two values that pass. */
  predicate PassesChecks(g: Fields, headerSum: U16, segmentSum: U16) {
    && g.WellFormed()
    && SumsToAllOnes(Encode(g)[..20 + |g.options|])
    && (Whole(g) ==> SumsToAllOnes(ReceivedBlock(g)))
    && headerSum != 0xffff
    && segmentSum != (if g.protocol == 17 then 0 else 0xffff)
  }

  /** Redirecting a datagram changes its destination address, its destination port and its two checksums, and
      the result passes the receiver's checks. */
  lemma RedirectReceived(f: Fields, ip: Ipv4, port: U16) returns (headerSum: U16, segmentSum: U16)
    requires Carries(f)
    ensures Accepted(Encode(f))
    ensures RewrittenDestination(Encode(f), ip, port) == Encode(Redirected(f, ip, port, headerSum, segmentSum))
    ensures PassesChecks(Redirected(f, ip, port, headerSum, segmentSum), headerSum, segmentSum)
  {
    hide Encode, Redirected, Stamp, PseudoSegment, ReceivedBlock, Accepted, Shape, SumsToAllOnes, Verifies;
    CarriesIsAccepted(f);
    var p, l := Encode(f), Shape(Encode(f));
    var moved := SetDestination(p, l, ip, port);
    headerSum, segmentSum := StampedFields(moved, l);
    EncodedRedirect(f, ip, port, headerSum, segmentSum);
    FirstBytes(f);
    var g := Redirected(f, ip, port, headerSum, segmentSum);
    RedirectedKeeps(f, ip, port, headerSum, segmentSum);
    SealedPasses(g, moved, l);
  }

  lemma ReturnReceived(f: Fields, ip: Ipv4, port: U16) returns (headerSum: U16, segmentSum: U16)
    requires Carries(f)
    ensures Accepted(Encode(f))
    ensures RewrittenSource(Encode(f), ip, port) == Encode(Restored(f, ip, port, headerSum, segmentSum))
    ensures PassesChecks(Restored(f, ip, port, headerSum, segmentSum), headerSum, segmentSum)
  {
    hide Encode, Restored, Stamp, PseudoSegment, ReceivedBlock, Accepted, Shape, SumsToAllOnes, Verifies;
    CarriesIsAccepted(f);
    var p, l := Encode(f), Shape(Encode(f));
    var moved := SetSource(p, l, ip, port);
    headerSum, segmentSum := StampedFields(moved, l);
    EncodedReturn(f, ip, port, headerSum, segmentSum);
    FirstBytes(f);
    var g := Restored(f, ip, port, headerSum, segmentSum);
    RestoredKeeps(f, ip, port, headerSum, segmentSum);
    SealedPasses(g, moved, l);
  }

  lemma FirstBytes(f: Fields)
    requires Carries(f)
    ensures Encode(f)[0] > 0 && Encode(f)[9] == f.protocol > 0
  {
  }

  lemma RedirectedKeeps(f: Fields, ip: Ipv4, port: U16, headerSum: U16, segmentSum: U16)
    requires Carries(f)
    ensures var g := Redirected(f, ip, port, headerSum, segmentSum);
            g.options == f.options && g.totalLen == f.totalLen && g.protocol == f.protocol
  {
  }

  lemma RestoredKeeps(f: Fields, ip: Ipv4, port: U16, headerSum: U16, segmentSum: U16)
    requires Carries(f)
    ensures var g := Restored(f, ip, port, headerSum, segmentSum);
            g.options == f.options && g.totalLen == f.totalLen && g.protocol == f.protocol
  {
  }

  /** A stamped packet that is an encoding passes the sums of the two checks. */
  lemma SealedPasses(g: Fields, moved: seq<Byte>, l: Layout)
    requires Carries(g) && l.Fits(moved) && Stamp(moved, l) == Encode(g)
    requires l == Layout(20 + |g.options|, g.totalLen, 20 + |g.options| + ChecksumOffset(g.protocol))
    ensures SumsToAllOnes(Encode(g)[..20 + |g.options|])
    ensures Whole(g) ==> SumsToAllOnes(ReceivedBlock(g))
  {
    hide Encode, Stamp, PseudoSegment, ReceivedBlock, SumsToAllOnes, Verifies;
    HeaderVerifies(moved, l);
    VerifiesSums(Encode(g)[..20 + |g.options|]);
    if Whole(g) {
      SegmentVerifies(moved, l);
      CarriesIsAccepted(g);
      BlockOfEncoded(g, l);
      VerifiesSums(ReceivedBlock(g));
    }
  }

  /** The checks determine the transport checksum, so what is stored is the only right value. */
  lemma ChecksDetermineChecksum(f: Fields, ip: Ipv4, port: U16, headerSum: U16, w: U16, w': U16)
    requires Carries(f) && Whole(f)
    requires PassesChecks(Redirected(f, ip, port, headerSum, w), headerSum, w)
    requires PassesChecks(Redirected(f, ip, port, headerSum, w'), headerSum, w')
    ensures w == w'
  {
    var g, g' := Redirected(f, ip, port, headerSum, w), Redirected(f, ip, port, headerSum, w');
    var i := 12 + ChecksumOffset(f.protocol);
    var b, b' := ReceivedBlock(g), ReceivedBlock(g');
    BlockWord(f, ip, port, headerSum, w, w');
    WordSumPut(b, i, w');
    SameRemainder(WordSum(b), WordSum(b'), w, w');
  }

  lemma BlockWord(f: Fields, ip: Ipv4, port: U16, headerSum: U16, w: U16, w': U16)
    requires Carries(f) && Whole(f)
    ensures var b := ReceivedBlock(Redirected(f, ip, port, headerSum, w));
            var b' := ReceivedBlock(Redirected(f, ip, port, headerSum, w'));
            var i := 12 + ChecksumOffset(f.protocol);
            i % 2 == 0 && i + 2 <= |b| && Word(b, i) == w && b' == Put16(b, i, w')
  {
    var at, n := ChecksumOffset(f.protocol), SegmentLength(f);
    var moved := Put16(f.rest, 2, port);
    assert Put16(moved, at, w')[..n] == Put16(Put16(moved, at, w)[..n], at, w');
    WordOfPut16(moved, at, w);
    assert ReceivedBlock(Redirected(f, ip, port, headerSum, w))[12..] == Put16(moved, at, w)[..n];
    assert ReceivedBlock(Redirected(f, ip, port, headerSum, w'))[12..] == Put16(moved, at, w')[..n];
  }

  lemma SameRemainder(n: nat, n': nat, w: U16, w': U16)
    requires n' == n - w + w' && n % 65535 == 0 && n' % 65535 == 0
    ensures w == w' || (w == 0 && w' == 65535) || (w == 65535 && w' == 0)
  {
  }
}

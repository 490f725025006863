/** What rewriting a packet guarantees: valid checksums, and an algebra of endpoint rewrites. */
module NatLaws {
  import opened Addresses
  import opened Bytes
  import opened Checksum
  import opened Packet
  import opened PacketFormat
  import opened Wrappers

  // ---------------------------------------------------------------------------
  // Checksum fields
  // ---------------------------------------------------------------------------

  /** The four bytes that hold the two checksums. */
  predicate InField(l: Layout, k: int) {
    k == 10 || k == 11 || k == l.checksumAt || k == l.checksumAt + 1
  }

  /** The packet with both checksum fields zeroed. */
  function Erase(p: seq<Byte>, l: Layout): (q: seq<Byte>)
    requires l.Fits(p)
    ensures |q| == |p|
    ensures forall k :: 0 <= k < |p| ==> q[k] == if InField(l, k) then 0 else p[k]
  {
    Put16(Put16(p, 10, 0), l.checksumAt, 0)
  }

  function SegmentField(e: seq<Byte>, l: Layout): U16
    requires l.Fits(e)
  {
    TransportField(e[9], Complement(PseudoSegment(e, l)))
  }

  /** An erased packet with both fields filled in. */
  function Sealed(e: seq<Byte>, l: Layout): (q: seq<Byte>)
    requires l.Fits(e)
    ensures |q| == |e|
  {
    Put16(Put16(e, 10, Complement(e[..l.headerLen])), l.checksumAt, SegmentField(e, l))
  }

  /** Recalculation forgets whatever the checksum fields held before. */
  lemma StampForgetsOldChecksums(p: seq<Byte>, l: Layout)
    requires l.Fits(p)
    ensures Stamp(p, l) == Sealed(Erase(p, l), l)
  {
    var e, at, h, t := Erase(p, l), l.checksumAt, l.headerLen, l.totalLen;
    var stamped := StampHeader(p, h);
    var blank := Put16(stamped, at, 0);
    assert Put16(p, 10, 0)[..h] == e[..h];
    assert blank[12..16] == e[12..16] && blank[16..20] == e[16..20] && blank[h..t] == e[h..t];
    assert PseudoSegment(blank, l) == PseudoSegment(e, l);
    assert Stamp(p, l) == Put16(blank, at, SegmentField(e, l));
    assert Stamp(p, l) == Sealed(e, l);
  }

  /** Recalculation touches nothing but the two fields, and does not depend on what they held. */
  lemma StampShape(p: seq<Byte>, l: Layout)
    requires l.Fits(p)
    ensures forall k :: 0 <= k < |p| && !InField(l, k) ==> Stamp(p, l)[k] == p[k]
    ensures Erase(Stamp(p, l), l) == Erase(p, l)
  {
    StampForgetsOldChecksums(p, l);
    var e, q := Erase(p, l), Stamp(p, l);
    assert forall k :: 0 <= k < |p| && !InField(l, k) ==> e[k] == p[k] && q[k] == e[k];
    EraseByPoints(q, p, l);
  }

  /** Packets that agree away from the checksum fields erase to the same bytes. */
  lemma EraseByPoints(p: seq<Byte>, q: seq<Byte>, l: Layout)
    requires l.Fits(p) && |q| == |p|
    requires forall k :: 0 <= k < |p| && !InField(l, k) ==> q[k] == p[k]
    ensures Erase(p, l) == Erase(q, l)
  {
    assert forall k :: 0 <= k < |p| ==> Erase(p, l)[k] == Erase(q, l)[k];
  }

  // ---------------------------------------------------------------------------
  // Checksums verify
  // ---------------------------------------------------------------------------

  lemma HeaderVerifies(p: seq<Byte>, l: Layout)
    requires l.Fits(p)
    ensures Verifies(Stamp(p, l)[..l.headerLen])
  {
    StampForgetsOldChecksums(p, l);
    var e, h := Erase(p, l), l.headerLen;
    var field := Complement(e[..h]);
    StoredComplementVerifies(e[..h], 10, field);
    PutInSlice(e, 0, h, 10, field);
    PutOutsideSlice(Put16(e, 10, field), 0, h, l.checksumAt, SegmentField(e, l));
  }

  lemma PutInSlice(p: seq<Byte>, from: nat, to: nat, i: nat, w: U16)
    requires from <= i && i + 2 <= to <= |p|
    ensures Put16(p, i, w)[from..to] == Put16(p[from..to], i - from, w)
  {
  }

  lemma PutOutsideSlice(p: seq<Byte>, from: nat, to: nat, i: nat, w: U16)
    requires from <= to <= |p| && i + 2 <= |p|
    requires i + 2 <= from || to <= i
    ensures Put16(p, i, w)[from..to] == p[from..to]
  {
  }

  lemma PutInSecond(front: seq<Byte>, back: seq<Byte>, i: nat, w: U16)
    requires i + 2 <= |back|
    ensures Put16(front + back, |front| + i, w) == front + Put16(back, i, w)
  {
  }

  lemma UdpChecksumNeverZero(p: seq<Byte>, l: Layout)
    requires l.Fits(p) && p[9] == 17
    ensures Word(Stamp(p, l), l.checksumAt) != 0
  {
    StampForgetsOldChecksums(p, l);
    var e := Erase(p, l);
    UdpFieldNeverZero(e, l);
    WordOfPut16(Put16(e, 10, Complement(e[..l.headerLen])), l.checksumAt, SegmentField(e, l));
  }

  lemma UdpFieldNeverZero(e: seq<Byte>, l: Layout)
    requires l.Fits(e) && e[9] == 17
    ensures SegmentField(e, l) != 0
  {
  }

  /** The part of the checksummed block in front of the segment. */
  function PseudoHeader(p: seq<Byte>, l: Layout): (s: seq<Byte>)
    requires l.Fits(p)
    ensures |s| == 12
    ensures PseudoSegment(p, l) == s + p[l.headerLen..l.totalLen]
  {
    p[12..16] + p[16..20] + [0, p[9]] + Bytes16(l.totalLen - l.headerLen)
  }

  lemma SamePseudoHeader(p: seq<Byte>, q: seq<Byte>, l: Layout)
    requires l.Fits(p) && l.Fits(q)
    requires q[9] == p[9] && q[12..20] == p[12..20]
    ensures PseudoHeader(q, l) == PseudoHeader(p, l)
  {
    assert q[12..16] == q[12..20][..4] && p[12..16] == p[12..20][..4];
    assert q[16..20] == q[12..20][4..] && p[16..20] == p[12..20][4..];
  }

  /** The checksummed block of a sealed packet, when the field is inside the segment. */
  lemma SealedSegment(e: seq<Byte>, l: Layout)
    requires l.Fits(e) && l.Covered()
    ensures PseudoSegment(Sealed(e, l), l) ==
            Put16(PseudoSegment(e, l), 12 + (l.checksumAt - l.headerLen), SegmentField(e, l))
  {
    var q, h, t, at, w := Sealed(e, l), l.headerLen, l.totalLen, l.checksumAt, SegmentField(e, l);
    var half := Put16(e, 10, Complement(e[..h]));
    PutInSlice(half, h, t, at, w);
    PutOutsideSlice(e, h, t, 10, Complement(e[..h]));
    assert q[12..20] == e[12..20];
    SamePseudoHeader(e, q, l);
    PutInSecond(PseudoHeader(e, l), e[h..t], at - h, w);
  }

  lemma FieldInSegment(e: seq<Byte>, l: Layout)
    requires l.Fits(e) && l.Covered()
    ensures var i := 12 + (l.checksumAt - l.headerLen);
            PseudoSegment(e, l)[i] == e[l.checksumAt] && PseudoSegment(e, l)[i + 1] == e[l.checksumAt + 1]
  {
    assert PseudoSegment(e, l) == PseudoHeader(e, l) + e[l.headerLen..l.totalLen];
  }

  lemma SegmentVerifies(p: seq<Byte>, l: Layout)
    requires l.Fits(p) && l.Covered()
    ensures Verifies(PseudoSegment(Stamp(p, l), l))
  {
    StampForgetsOldChecksums(p, l);
    var e := Erase(p, l);
    SealedSegment(e, l);
    FieldInSegment(e, l);
    StoredComplementVerifies(PseudoSegment(e, l), 12 + (l.checksumAt - l.headerLen), SegmentField(e, l));
  }

  // ---------------------------------------------------------------------------
  // When the total length cuts the checksum field off
  // ---------------------------------------------------------------------------

  lemma ResidueStep(n: nat)
    ensures Residue(n + 1) == if Residue(n) == 65535 then 1 else Residue(n) + 1
  {
  }

  /** Blocks that happen to verify with the field cut off, by the residue of their other words: with all of the
      field outside, those that sum to all ones; with its low byte outside, those where that byte is zero. */
  predicate Lucky(residue: U16, protocol: Byte, half: bool) {
    if half then residue % 0x100 == 0xff && !(protocol == 17 && residue == 65535) else residue == 65535
  }

  lemma LuckyIff(n: nat, protocol: Byte, half: bool)
    ensures var w := TransportField(protocol, 65535 - Residue(n));
            Residue(n + (if half then w / 0x100 * 0x100 else 0)) == 65535 <==> Lucky(Residue(n), protocol, half)
  {
    if n > 0 && half {
      var r, q := Residue(n), (n - 1) / 65535;
      var w := TransportField(protocol, 65535 - r);
      assert n == 65535 * q + r;
      if w == 65535 - r {
        assert n + w / 0x100 * 0x100 - 1 == 65535 * q + (65534 - w % 0x100);
      } else {
        assert n + w / 0x100 * 0x100 - 1 == 65535 * (q + 1) + 65279;
      }
    }
  }

  lemma WordSumLast(s: seq<Byte>, b: Byte)
    requires |s| % 2 == 0
    ensures WordSum(s + [b]) == WordSum(s) + b * 0x100
  {
    WordSumConcat(s, [b]);
  }

  /** What a sealed packet sums to when the field is cut off, in full or after its first byte. */
  lemma CutOffSegment(e: seq<Byte>, l: Layout)
    requires l.Fits(e) && !l.Covered() && e[l.checksumAt] == 0
    ensures WordSum(PseudoSegment(Sealed(e, l), l)) ==
            WordSum(PseudoSegment(e, l)) +
            (if l.checksumAt + 1 == l.totalLen then SegmentField(e, l) / 0x100 * 0x100 else 0)
  {
    var q, h, t, at, w := Sealed(e, l), l.headerLen, l.totalLen, l.checksumAt, SegmentField(e, l);
    assert q[12..20] == e[12..20];
    SamePseudoHeader(e, q, l);
    if at + 1 == t {
      var front := PseudoHeader(e, l) + e[h..at];
      assert q[h..at] == e[h..at];
      assert PseudoSegment(e, l) == front + [0];
      assert PseudoSegment(q, l) == front + [w / 0x100];
      WordSumLast(front, 0);
      WordSumLast(front, w / 0x100);
    } else {
      assert q[h..t] == e[h..t];
    }
  }

  /** The packet with its new endpoint in place is erased and sealed; this says when the result verifies. */
  lemma CutOffVerifies(e: seq<Byte>, l: Layout)
    requires l.Fits(e) && !l.Covered() && e[l.checksumAt] == 0
    ensures Verifies(PseudoSegment(Sealed(e, l), l)) <==>
            Lucky(Residue(WordSum(PseudoSegment(e, l))), e[9], l.checksumAt + 1 == l.totalLen)
  {
    CutOffSegment(e, l);
    LuckyIff(WordSum(PseudoSegment(e, l)), e[9], l.checksumAt + 1 == l.totalLen);
  }

  /** Of two neighbouring sums, at most one verifies. */
  lemma CutOffNeighbours(e: seq<Byte>, e': seq<Byte>, l: Layout)
    requires l.Fits(e) && l.Fits(e') && !l.Covered()
    requires e[l.checksumAt] == 0 && e'[l.checksumAt] == 0 && e[9] == e'[9]
    requires WordSum(PseudoSegment(e', l)) == WordSum(PseudoSegment(e, l)) + 1
    ensures !Verifies(PseudoSegment(Sealed(e, l), l)) || !Verifies(PseudoSegment(Sealed(e', l), l))
  {
    hide PseudoSegment, Sealed, Residue, WordSum, Verifies;
    ResidueStep(WordSum(PseudoSegment(e, l)));
    CutOffVerifies(e, l);
    CutOffVerifies(e', l);
  }

  /** Counting up the last byte of an address adds one to the sum of the pseudo-header. */
  lemma NextAddressSum(e: seq<Byte>, l: Layout, i: nat, e': seq<Byte>)
    requires l.Fits(e) && (i == 15 || i == 19) && e[i] < 255 && e' == e[i := e[i] + 1]
    ensures WordSum(PseudoSegment(e', l)) == WordSum(PseudoSegment(e, l)) + 1
  {
    var b, b', j := PseudoSegment(e, l), PseudoSegment(e', l), i - 13;
    assert e'[l.headerLen..l.totalLen] == e[l.headerLen..l.totalLen];
    assert b[j] == e[i - 1] && b[j + 1] == e[i];
    assert b' == b[j + 1 := e[i] + 1];
    assert b' == Put16(b, j, Word(b, j) + 1);
    WordSumPut(b, j, Word(b, j) + 1);
  }

  lemma EraseNeighbour(q: seq<Byte>, l: Layout, i: nat)
    requires l.Fits(q) && (i == 15 || i == 19) && q[i] < 255
    ensures Erase(q, l)[i] == q[i]
    ensures Erase(q[i := q[i] + 1], l) == Erase(q, l)[i := q[i] + 1]
  {
    hide Erase;
  }

  /** Of two packets that differ by one in the last byte of an address, at most one verifies. */
  lemma CutOffCanFail(q: seq<Byte>, l: Layout, i: nat, q': seq<Byte>)
    requires l.Fits(q) && !l.Covered()
    requires (i == 15 || i == 19) && q[i] < 255 && q' == q[i := q[i] + 1]
    ensures !Verifies(PseudoSegment(Stamp(q, l), l)) || !Verifies(PseudoSegment(Stamp(q', l), l))
  {
    StampForgetsOldChecksums(q, l);
    StampForgetsOldChecksums(q', l);
    var e, e' := Erase(q, l), Erase(q', l);
    assert e' == e[i := e[i] + 1] by {
      EraseNeighbour(q, l, i);
    }
    NextAddressSum(e, l, i, e');
    CutOffNeighbours(e, e', l);
  }

  /** The same packet from another client: the last byte of the source address is `b`. */
  function FromClient(p: seq<Byte>, b: Byte): (q: seq<Byte>)
    requires Accepted(p)
    ensures Accepted(q) && Shape(q) == Shape(p)
  {
    SameShape(p, p[15 := b]);
    p[15 := b]
  }

  /** The same packet to another client: the last byte of the destination address is `b`. */
  function ToClient(p: seq<Byte>, b: Byte): (q: seq<Byte>)
    requires Accepted(p)
    ensures Accepted(q) && Shape(q) == Shape(p)
  {
    SameShape(p, p[19 := b]);
    p[19 := b]
  }

  predicate RedirectVerifies(p: seq<Byte>, ip: Ipv4, port: U16)
    requires Accepted(p)
  {
    Verifies(PseudoSegment(RewrittenDestination(p, ip, port), Shape(p)))
  }

  predicate ReturnVerifies(p: seq<Byte>, ip: Ipv4, port: U16)
    requires Accepted(p)
  {
    Verifies(PseudoSegment(RewrittenSource(p, ip, port), Shape(p)))
  }

  /** The residue of the block that the transport checksum of a packet is computed over. */
  function BlockResidue(p: seq<Byte>, l: Layout): U16
    requires l.Fits(p)
  {
    Residue(WordSum(PseudoSegment(Erase(p, l), l)))
  }

  lemma StampVerifiesIff(p: seq<Byte>, l: Layout)
    requires l.Fits(p)
    ensures Verifies(PseudoSegment(Stamp(p, l), l)) <==>
            l.Covered() || Lucky(BlockResidue(p, l), p[9], l.checksumAt + 1 == l.totalLen)
  {
    hide Lucky;
    if l.Covered() {
      SegmentVerifies(p, l);
    } else {
      StampForgetsOldChecksums(p, l);
      CutOffVerifies(Erase(p, l), l);
    }
  }

  /** Exactly which redirected packets carry a verifying transport checksum: those whose total length reaches
      past the field, and of the others those with a lucky sum. */
  lemma RedirectVerifiesIff(p: seq<Byte>, ip: Ipv4, port: U16)
    requires Accepted(p)
    ensures var l := Shape(p);
            RedirectVerifies(p, ip, port) <==>
            || l.Covered()
            || Lucky(BlockResidue(SetDestination(p, l, ip, port), l), p[9], l.checksumAt + 1 == l.totalLen)
  {
    hide Lucky;
    StampVerifiesIff(SetDestination(p, Shape(p), ip, port), Shape(p));
  }

  lemma ReturnVerifiesIff(p: seq<Byte>, ip: Ipv4, port: U16)
    requires Accepted(p)
    ensures var l := Shape(p);
            ReturnVerifies(p, ip, port) <==>
            || l.Covered()
            || Lucky(BlockResidue(SetSource(p, l, ip, port), l), p[9], l.checksumAt + 1 == l.totalLen)
  {
    hide Lucky;
    StampVerifiesIff(SetSource(p, Shape(p), ip, port), Shape(p));
  }

  /** A TCP datagram whose total length ends with its IPv4 header, in a buffer that goes on. */
  function ShortDatagram(src: Ipv4, dst: Ipv4): (p: seq<Byte>) {
    Encode(Fields(0, 20, [0, 0], 0, 64, 6, [0, 0], src, dst, [], seq(20, _ => 0)))
  }

  /** It is accepted although its total length covers nothing of the transport header, so the laws about
      packets that are not covered speak of something; some client's does leave without verifying. */
  lemma ShortDatagramIsAccepted(src: Ipv4, dst: Ipv4, ip: Ipv4, port: U16)
    ensures var p := ShortDatagram(src, dst);
            && Accepted(p) && !Shape(p).Covered()
            && (!RedirectVerifies(FromClient(p, 0), ip, port) || !RedirectVerifies(FromClient(p, 1), ip, port))
            && (!ReturnVerifies(ToClient(p, 0), ip, port) || !ReturnVerifies(ToClient(p, 1), ip, port))
  {
    hide Encode, RedirectVerifies, ReturnVerifies, FromClient, ToClient;
    var f := Fields(0, 20, [0, 0], 0, 64, 6, [0, 0], src, dst, [], seq(20, _ => 0));
    EncodedHeader(f);
    EncodedBytes(f);
    var p := ShortDatagram(src, dst);
    assert Accepted(p) && !Shape(p).Covered();
    NeighbourRedirects(p, ip, port, 0);
    NeighbourReturns(p, ip, port, 0);
  }

  lemma NeighbourRedirects(p: seq<Byte>, ip: Ipv4, port: U16, b: Byte)
    requires Accepted(p) && !Shape(p).Covered() && b < 255
    ensures !RedirectVerifies(FromClient(p, b), ip, port) || !RedirectVerifies(FromClient(p, b + 1), ip, port)
  {
    var l := Shape(p);
    var moved := SetDestination(FromClient(p, b), l, ip, port);
    var moved' := SetDestination(FromClient(p, b + 1), l, ip, port);
    assert moved' == moved[15 := b + 1];
    CutOffCanFail(moved, l, 15, moved');
  }

  lemma NeighbourReturns(p: seq<Byte>, ip: Ipv4, port: U16, b: Byte)
    requires Accepted(p) && !Shape(p).Covered() && b < 255
    ensures !ReturnVerifies(ToClient(p, b), ip, port) || !ReturnVerifies(ToClient(p, b + 1), ip, port)
  {
    var l := Shape(p);
    var moved, moved' := SetSource(ToClient(p, b), l, ip, port), SetSource(ToClient(p, b + 1), l, ip, port);
    assert moved' == moved[19 := b + 1];
    CutOffCanFail(moved, l, 19, moved');
  }

  /** Whatever endpoint it redirects to, destination rewriting leaves a verifying transport checksum for every
      client exactly on the packets whose total length reaches past the checksum field. Only the buffer length
      is checked by the code, so shorter packets are accepted; of any two neighbouring clients that send one,
      at least one gets a checksum that does not verify. */
  lemma DestinationVerifiesIffCovered(p: seq<Byte>, ip: Ipv4, port: U16)
    requires Accepted(p)
    ensures (forall b: Byte :: RedirectVerifies(FromClient(p, b), ip, port)) <==> Shape(p).Covered()
  {
    hide FromClient;
    if Shape(p).Covered() {
      forall b: Byte ensures RedirectVerifies(FromClient(p, b), ip, port) {
        SegmentVerifies(SetDestination(FromClient(p, b), Shape(p), ip, port), Shape(p));
      }
    } else {
      NeighbourRedirects(p, ip, port, 0);
    }
  }

  /** The same for the source endpoint that an answer is given, over the clients it goes to. */
  lemma SourceVerifiesIffCovered(p: seq<Byte>, ip: Ipv4, port: U16)
    requires Accepted(p)
    ensures (forall b: Byte :: ReturnVerifies(ToClient(p, b), ip, port)) <==> Shape(p).Covered()
  {
    hide ToClient;
    if Shape(p).Covered() {
      forall b: Byte ensures ReturnVerifies(ToClient(p, b), ip, port) {
        SegmentVerifies(SetSource(ToClient(p, b), Shape(p), ip, port), Shape(p));
      }
    } else {
      NeighbourReturns(p, ip, port, 0);
    }
  }

  /** A rewritten packet carries valid checksums, whichever endpoint was rewritten. */
  lemma RewrittenPacketsVerify(p: seq<Byte>, ip: Ipv4, port: U16, source: bool)
    requires Accepted(p)
    ensures var q := if source then RewrittenSource(p, ip, port) else RewrittenDestination(p, ip, port);
            var l := Shape(p);
            && Verifies(q[..l.headerLen])
            && (l.Covered() ==> Verifies(PseudoSegment(q, l)))
            && (p[9] == 17 ==> Word(q, l.checksumAt) != 0)
  {
    var l := Shape(p);
    var moved := if source then SetSource(p, l, ip, port) else SetDestination(p, l, ip, port);
    HeaderVerifies(moved, l);
    if l.Covered() {
      SegmentVerifies(moved, l);
    }
    if p[9] == 17 {
      UdpChecksumNeverZero(moved, l);
    }
  }

  // ---------------------------------------------------------------------------
  // The algebra of rewrites
  // ---------------------------------------------------------------------------

  /** The two packets differ at most in their checksum fields. */
  ghost predicate Agree(p: seq<Byte>, q: seq<Byte>, l: Layout) {
    |p| == |q| && forall k :: 0 <= k < |p| && !InField(l, k) ==> p[k] == q[k]
  }

  lemma AgreeStampsAlike(p: seq<Byte>, q: seq<Byte>, l: Layout)
    requires l.Fits(p) && Agree(p, q, l)
    ensures Stamp(p, l) == Stamp(q, l)
  {
    EraseByPoints(p, q, l);
    StampForgetsOldChecksums(p, l);
    StampForgetsOldChecksums(q, l);
  }

  lemma StampAgrees(p: seq<Byte>, l: Layout)
    requires l.Fits(p)
    ensures Agree(Stamp(p, l), p, l)
  {
    StampShape(p, l);
  }

  lemma RecalculationIdempotent(p: seq<Byte>, l: Layout)
    requires l.Fits(p)
    ensures Stamp(Stamp(p, l), l) == Stamp(p, l)
  {
    StampAgrees(p, l);
    AgreeStampsAlike(Stamp(p, l), p, l);
  }

  lemma DestinationShape(p: seq<Byte>, ip: Ipv4, port: U16)
    requires Accepted(p)
    ensures var q := RewrittenDestination(p, ip, port);
            && Accepted(q) && Shape(q) == Shape(p)
            && Agree(q, SetDestination(p, Shape(p), ip, port), Shape(p))
  {
    var l := Shape(p);
    StampAgrees(SetDestination(p, l, ip, port), l);
    SameShape(p, RewrittenDestination(p, ip, port));
  }

  lemma SourceShape(p: seq<Byte>, ip: Ipv4, port: U16)
    requires Accepted(p)
    ensures var q := RewrittenSource(p, ip, port);
            && Accepted(q) && Shape(q) == Shape(p)
            && Agree(q, SetSource(p, Shape(p), ip, port), Shape(p))
  {
    var l := Shape(p);
    StampAgrees(SetSource(p, l, ip, port), l);
    SameShape(p, RewrittenSource(p, ip, port));
  }

  lemma SetDestinationOver(p: seq<Byte>, q: seq<Byte>, l: Layout, ip: Ipv4, port: U16, ip': Ipv4, port': U16)
    requires l.Fits(p) && Agree(q, SetDestination(p, l, ip, port), l)
    ensures Agree(SetDestination(q, l, ip', port'), SetDestination(p, l, ip', port'), l)
  {
  }

  lemma SetSourceOver(p: seq<Byte>, q: seq<Byte>, l: Layout, ip: Ipv4, port: U16, ip': Ipv4, port': U16)
    requires l.Fits(p) && Agree(q, SetSource(p, l, ip, port), l)
    ensures Agree(SetSource(q, l, ip', port'), SetSource(p, l, ip', port'), l)
  {
  }

  lemma SetEndpointsCommute(p: seq<Byte>, q: seq<Byte>, r: seq<Byte>, l: Layout,
                            src: Ipv4, srcPort: U16, dst: Ipv4, dstPort: U16)
    requires l.Fits(p) && |q| == |r| == |p|
    requires Agree(q, SetDestination(p, l, dst, dstPort), l) && Agree(r, SetSource(p, l, src, srcPort), l)
    ensures Agree(SetSource(q, l, src, srcPort), SetDestination(r, l, dst, dstPort), l)
  {
  }

  /** The later of two rewrites of the destination is the one that counts. */
  lemma LaterDestinationWins(p: seq<Byte>, ip: Ipv4, port: U16, ip': Ipv4, port': U16)
    requires Accepted(p)
    ensures Accepted(RewrittenDestination(p, ip, port))
    ensures RewrittenDestination(RewrittenDestination(p, ip, port), ip', port') == RewrittenDestination(p, ip', port')
  {
    var l, q := Shape(p), RewrittenDestination(p, ip, port);
    DestinationShape(p, ip, port);
    SetDestinationOver(p, q, l, ip, port, ip', port');
    AgreeStampsAlike(SetDestination(q, l, ip', port'), SetDestination(p, l, ip', port'), l);
  }

  lemma LaterSourceWins(p: seq<Byte>, ip: Ipv4, port: U16, ip': Ipv4, port': U16)
    requires Accepted(p)
    ensures Accepted(RewrittenSource(p, ip, port))
    ensures RewrittenSource(RewrittenSource(p, ip, port), ip', port') == RewrittenSource(p, ip', port')
  {
    var l, q := Shape(p), RewrittenSource(p, ip, port);
    SourceShape(p, ip, port);
    SetSourceOver(p, q, l, ip, port, ip', port');
    AgreeStampsAlike(SetSource(q, l, ip', port'), SetSource(p, l, ip', port'), l);
  }

  /** Source and destination rewrites may be done in either order. */
  lemma EndpointRewritesCommute(p: seq<Byte>, src: Ipv4, srcPort: U16, dst: Ipv4, dstPort: U16)
    requires Accepted(p)
    ensures Accepted(RewrittenDestination(p, dst, dstPort)) && Accepted(RewrittenSource(p, src, srcPort))
    ensures RewrittenSource(RewrittenDestination(p, dst, dstPort), src, srcPort)
            == RewrittenDestination(RewrittenSource(p, src, srcPort), dst, dstPort)
  {
    var l := Shape(p);
    var q, r := RewrittenDestination(p, dst, dstPort), RewrittenSource(p, src, srcPort);
    DestinationShape(p, dst, dstPort);
    SourceShape(p, src, srcPort);
    SetEndpointsCommute(p, q, r, l, src, srcPort, dst, dstPort);
    AgreeStampsAlike(SetSource(q, l, src, srcPort), SetDestination(r, l, dst, dstPort), l);
  }

  /** Both checksum fields hold what recalculation would store. */
  ghost predicate Canonical(p: seq<Byte>) {
    Accepted(p) && Stamp(p, Shape(p)) == p
  }

  lemma OwnEndpoints(p: seq<Byte>)
    requires Accepted(p)
    ensures var m := ParseMeta(p).value;
            && SetDestination(p, Shape(p), m.dstIp.v4, m.dstPort) == p
            && SetSource(p, Shape(p), m.srcIp.v4, m.srcPort) == p
  {
    var l, m := Shape(p), ParseMeta(p).value;
    assert PutAddress(p, 16, m.dstIp.v4) == p && PutAddress(p, 12, m.srcIp.v4) == p;
    assert m.dstPort == Word(p, l.headerLen + 2) && m.srcPort == Word(p, l.headerLen);
    Put16Same(p, l.headerLen + 2);
    Put16Same(p, l.headerLen);
  }

  /** Rewriting an endpoint and writing the old one back restores every byte of a canonical packet. */
  lemma RewriteIsReversible(p: seq<Byte>, ip: Ipv4, port: U16)
    requires Canonical(p)
    ensures var m := ParseMeta(p).value;
            && Accepted(RewrittenDestination(p, ip, port)) && Accepted(RewrittenSource(p, ip, port))
            && RewrittenDestination(RewrittenDestination(p, ip, port), m.dstIp.v4, m.dstPort) == p
            && RewrittenSource(RewrittenSource(p, ip, port), m.srcIp.v4, m.srcPort) == p
  {
    var m := ParseMeta(p).value;
    LaterDestinationWins(p, ip, port, m.dstIp.v4, m.dstPort);
    LaterSourceWins(p, ip, port, m.srcIp.v4, m.srcPort);
    OwnEndpoints(p);
  }

  /** Every rewritten packet is canonical, so the laws above apply to whatever the redirector sends. */
  lemma RewrittenIsCanonical(p: seq<Byte>, ip: Ipv4, port: U16)
    requires Accepted(p)
    ensures Canonical(RewrittenDestination(p, ip, port)) && Canonical(RewrittenSource(p, ip, port))
  {
    DestinationShape(p, ip, port);
    SourceShape(p, ip, port);
    RecalculationIdempotent(SetDestination(p, Shape(p), ip, port), Shape(p));
    RecalculationIdempotent(SetSource(p, Shape(p), ip, port), Shape(p));
  }

  // ---------------------------------------------------------------------------
  // What is left alone, and what reparsing gives
  // ---------------------------------------------------------------------------

  /** Only the address, the port and the two checksum fields can change. */
  lemma RewriteFrame(p: seq<Byte>, ip: Ipv4, port: U16, k: nat)
    requires Accepted(p) && k < |p| && !InField(Shape(p), k)
    ensures !(16 <= k < 20) && !(Shape(p).headerLen + 2 <= k < Shape(p).headerLen + 4) ==>
              RewrittenDestination(p, ip, port)[k] == p[k]
    ensures !(12 <= k < 16) && !(Shape(p).headerLen <= k < Shape(p).headerLen + 2) ==>
              RewrittenSource(p, ip, port)[k] == p[k]
  {
    DestinationShape(p, ip, port);
    SourceShape(p, ip, port);
  }

  lemma HeaderOf(p: seq<Byte>)
    requires ParseHeader(p).Some?
    ensures var h := ParseHeader(p).value;
            && h.protocol == p[9]
            && h.src == Ipv4(p[12], p[13], p[14], p[15]) && h.dst == Ipv4(p[16], p[17], p[18], p[19])
  {
  }

  lemma MetaOf(p: seq<Byte>)
    requires Accepted(p)
    ensures var m, h := ParseMeta(p).value, Shape(p).headerLen;
            && ProtocolOf(p[9]) == Some(m.protocol)
            && m.srcIp == V4(Ipv4(p[12], p[13], p[14], p[15])) && m.dstIp == V4(Ipv4(p[16], p[17], p[18], p[19]))
            && m.srcPort == Word(p, h) && m.dstPort == Word(p, h + 2)
  {
    HeaderOf(p);
  }

  /** Reparsing a rewritten packet gives the old metadata with only that endpoint replaced. */
  lemma RewrittenDestinationMeta(p: seq<Byte>, ip: Ipv4, port: U16)
    requires Accepted(p)
    ensures ParseMeta(RewrittenDestination(p, ip, port)) == Some(ParseMeta(p).value.(dstIp := V4(ip), dstPort := port))
  {
    hide ParseMeta, RewrittenDestination, Shape;
    var q, l := RewrittenDestination(p, ip, port), Shape(p);
    DestinationShape(p, ip, port);
    MetaOf(p);
    MetaOf(q);
    var moved := SetDestination(p, l, ip, port);
    assert moved[16..20] == [ip.a, ip.b, ip.c, ip.d];
    assert q[16] == ip.a && q[17] == ip.b && q[18] == ip.c && q[19] == ip.d;
    assert q[9] == p[9] && q[12] == p[12] && q[13] == p[13] && q[14] == p[14] && q[15] == p[15];
    WordOfPut16(PutAddress(p, 16, ip), l.headerLen + 2, port);
    assert Word(q, l.headerLen + 2) == Word(moved, l.headerLen + 2);
    assert Word(q, l.headerLen) == Word(p, l.headerLen);
  }

  lemma RewrittenSourceMeta(p: seq<Byte>, ip: Ipv4, port: U16)
    requires Accepted(p)
    ensures ParseMeta(RewrittenSource(p, ip, port)) == Some(ParseMeta(p).value.(srcIp := V4(ip), srcPort := port))
  {
    hide ParseMeta, RewrittenSource, Shape;
    var q, l := RewrittenSource(p, ip, port), Shape(p);
    SourceShape(p, ip, port);
    MetaOf(p);
    MetaOf(q);
    var moved := SetSource(p, l, ip, port);
    assert moved[12..16] == [ip.a, ip.b, ip.c, ip.d];
    assert q[12] == ip.a && q[13] == ip.b && q[14] == ip.c && q[15] == ip.d;
    assert q[9] == p[9] && q[16] == p[16] && q[17] == p[17] && q[18] == p[18] && q[19] == p[19];
    WordOfPut16(PutAddress(p, 12, ip), l.headerLen, port);
    assert Word(q, l.headerLen) == Word(moved, l.headerLen);
    assert Word(q, l.headerLen + 2) == Word(p, l.headerLen + 2);
  }
}

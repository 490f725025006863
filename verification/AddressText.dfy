/** Reading addresses back from their text: dotted decimals, and the forms of RFC 4291, section 2.2, for IPv6. */
module AddressText {
  import opened Addresses
  import opened Bytes
  import opened Destinations
  import opened Text
  import opened Wrappers

  // ---------------------------------------------------------------------------
  // IPv4
  // ---------------------------------------------------------------------------

  function ReadOctet(s: seq<Byte>): Option<Byte> {
    var n :- ParseDecimal(s);
    if n < 0x100 then Some(n) else None
  }

  function ReadIpv4(s: seq<Byte>): Option<Ipv4> {
    var (first, afterFirst) :- SplitOnce(s, DOT);
    var (second, afterSecond) :- SplitOnce(afterFirst, DOT);
    var (third, fourth) :- SplitOnce(afterSecond, DOT);
    var a :- ReadOctet(first);
    var b :- ReadOctet(second);
    var c :- ReadOctet(third);
    var d :- ReadOctet(fourth);
    Some(Ipv4(a, b, c, d))
  }

  lemma Ipv4TextIsExact(ip: Ipv4)
    ensures ReadIpv4(Ipv4Text(ip)) == Some(ip)
  {
    var a, b, c, d := Decimal(ip.a), Decimal(ip.b), Decimal(ip.c), Decimal(ip.d);
    assert Ipv4Text(ip) == a + [DOT] + (b + [DOT] + (c + [DOT] + d));
    SplitAtFirst(a, DOT, b + [DOT] + (c + [DOT] + d));
    SplitAtFirst(b, DOT, c + [DOT] + d);
    SplitAtFirst(c, DOT, d);
    DecimalRoundTrip(ip.a);
    DecimalRoundTrip(ip.b);
    DecimalRoundTrip(ip.c);
    DecimalRoundTrip(ip.d);
  }

  // ---------------------------------------------------------------------------
  // Hexadecimal segments
  // ---------------------------------------------------------------------------

  /** The value of a digit, in either case. */
  function DigitValue(b: Byte): Option<nat> {
    if 48 <= b <= 57 then Some(b - 48)
    else if 97 <= b <= 102 then Some(b - 87)
    else if 65 <= b <= 70 then Some(b - 55)
    else None
  }

  function ParseHex(s: seq<Byte>): Option<nat>
    decreases |s|
  {
    if s == [] then None
    else
      var last :- DigitValue(s[|s| - 1]);
      if |s| == 1 then Some(last)
      else
        var front :- ParseHex(s[..|s| - 1]);
        Some(16 * front + last)
  }

  lemma {:induction false} HexRoundTrip(n: nat)
    ensures |Hex(n)| >= 1 && ParseHex(Hex(n)) == Some(n)
    ensures COLON !in Hex(n) && DOT !in Hex(n)
  {
    if n >= 16 {
      HexRoundTrip(n / 16);
      assert Hex(n)[..|Hex(n)| - 1] == Hex(n / 16);
    }
  }

  function ReadSegment(s: seq<Byte>): Option<U16> {
    var n :- ParseHex(s);
    if n < 0x1_0000 then Some(n) else None
  }

  /** Segments between colons; the last may be an IPv4 address, which stands for two. */
  function ReadSegments(s: seq<Byte>): Option<seq<U16>>
    decreases |s|
  {
    match SplitOnce(s, COLON)
    case None =>
      if s == [] then Some([])
      else if DOT in s then
        var ip :- ReadIpv4(s);
        Some([Be16(ip.a, ip.b), Be16(ip.c, ip.d)])
      else
        var n :- ReadSegment(s);
        Some([n])
    case Some((first, rest)) =>
      if rest == [] then None
      else
        var n :- ReadSegment(first);
        var later :- ReadSegments(rest);
        Some([n] + later)
  }

  /** Where two colons first stand next to each other from `i` on. */
  function DoubleColon(s: seq<Byte>, i: nat): (r: Option<nat>)
    ensures r.Some? ==> i <= r.value && r.value + 2 <= |s|
    decreases |s| - i
  {
    if i + 2 > |s| then None
    else if s[i] == COLON && s[i + 1] == COLON then Some(i)
    else DoubleColon(s, i + 1)
  }

  function Zeros(n: nat): (s: seq<U16>)
    ensures |s| == n && forall k :: 0 <= k < n ==> s[k] == 0
  {
    seq(n, _ => 0)
  }

  /** Eight segments, or fewer around two colons, which stand for the missing zeros. */
  function ReadIpv6(s: seq<Byte>): Option<seq<U16>> {
    match DoubleColon(s, 0)
    case None =>
      var segments :- ReadSegments(s);
      if |segments| == 8 then Some(segments) else None
    case Some(i) =>
      var front :- ReadSegments(s[..i]);
      var back :- ReadSegments(s[i + 2..]);
      if |front| + |back| < 8 then Some(front + Zeros(8 - |front| - |back|) + back) else None
  }

  // ---------------------------------------------------------------------------
  // Joined segments
  // ---------------------------------------------------------------------------

  lemma {:induction false} JoinedRoundTrip(segments: seq<U16>)
    ensures ReadSegments(Joined(segments)) == Some(segments)
    ensures segments != [] ==> Joined(segments) != []
  {
    hide ReadSegments, Hex, ParseHex;
    if segments == [] {
      NothingRead();
    } else {
      HexRoundTrip(segments[0]);
      if |segments| == 1 {
        OneSegment(Hex(segments[0]), segments[0]);
        assert segments == [segments[0]];
      } else {
        JoinedRoundTrip(segments[1..]);
        FirstSegment(Hex(segments[0]), Joined(segments[1..]), segments[0], segments[1..]);
        assert segments == [segments[0]] + segments[1..];
      }
    }
  }

  lemma OneSegment(s: seq<Byte>, n: U16)
    requires s != [] && COLON !in s && DOT !in s && ReadSegment(s) == Some(n)
    ensures ReadSegments(s) == Some([n])
  {
    NoSplit(s);
  }

  lemma NoSplit(s: seq<Byte>)
    requires COLON !in s
    ensures SplitOnce(s, COLON).None?
  {
  }

  /** No two colons meet inside joined segments, and none stands at either end. */
  lemma {:induction false} JoinedHasNoDoubleColon(segments: seq<U16>)
    ensures var s := Joined(segments);
            && (forall k :: 0 <= k < |s| - 1 ==> s[k] != COLON || s[k + 1] != COLON)
            && (s != [] ==> s[0] != COLON && s[|s| - 1] != COLON)
  {
    if segments != [] {
      HexRoundTrip(segments[0]);
      if |segments| > 1 {
        JoinedHasNoDoubleColon(segments[1..]);
        JoinedRoundTrip(segments[1..]);
      }
    }
  }

  lemma {:induction false} NoDoubleColon(s: seq<Byte>, i: nat)
    requires forall k :: i <= k < |s| - 1 ==> s[k] != COLON || s[k + 1] != COLON
    ensures DoubleColon(s, i).None?
    decreases |s| - i
  {
    if i + 2 <= |s| {
      NoDoubleColon(s, i + 1);
    }
  }

  lemma {:induction false} DoubleColonAt(s: seq<Byte>, i: nat, at: nat)
    requires i <= at && at + 2 <= |s| && s[at] == COLON && s[at + 1] == COLON
    requires forall k :: i <= k < at ==> s[k] != COLON || s[k + 1] != COLON
    ensures DoubleColon(s, i) == Some(at)
    decreases |s| - i
  {
    if i < at {
      DoubleColonAt(s, i + 1, at);
    }
  }

  lemma FirstMeeting(f: seq<Byte>, b: seq<Byte>)
    requires forall k :: 0 <= k < |f| - 1 ==> f[k] != COLON || f[k + 1] != COLON
    requires f != [] ==> f[|f| - 1] != COLON
    ensures DoubleColon(f + [COLON, COLON] + b, 0) == Some(|f|)
  {
    DoubleColonAt(f + [COLON, COLON] + b, 0, |f|);
  }

  lemma ReadAround(s: seq<Byte>, i: nat, front: seq<U16>, back: seq<U16>)
    requires DoubleColon(s, 0) == Some(i) && |front| + |back| < 8
    requires ReadSegments(s[..i]) == Some(front) && ReadSegments(s[i + 2..]) == Some(back)
    ensures ReadIpv6(s) == Some(front + Zeros(8 - |front| - |back|) + back)
  {
    hide ReadSegments, DoubleColon;
  }

  /** Two colons between joined segments are read as the zeros they stand for. */
  lemma ShortenedRoundTrip(front: seq<U16>, back: seq<U16>)
    requires |front| + |back| < 8
    ensures ReadIpv6(Joined(front) + [COLON, COLON] + Joined(back)) ==
            Some(front + Zeros(8 - |front| - |back|) + back)
  {
    hide ReadSegments, Joined, DoubleColon, Zeros, ReadIpv6;
    var f, b := Joined(front), Joined(back);
    var s := f + [COLON, COLON] + b;
    JoinedHasNoDoubleColon(front);
    JoinedRoundTrip(front);
    JoinedRoundTrip(back);
    FirstMeeting(f, b);
    assert s[..|f|] == f && s[|f| + 2..] == b;
    ReadAround(s, |f|, front, back);
  }

  lemma FirstSegment(first: seq<Byte>, rest: seq<Byte>, n: U16, later: seq<U16>)
    requires COLON !in first && rest != []
    requires ReadSegment(first) == Some(n) && ReadSegments(rest) == Some(later)
    ensures ReadSegments(first + [COLON] + rest) == Some([n] + later)
  {
    SplitAtFirst(first, COLON, rest);
  }

  lemma StartsWithColons(s: seq<Byte>)
    requires |s| >= 2 && s[0] == COLON && s[1] == COLON
    ensures DoubleColon(s, 0) == Some(0)
  {
  }

  lemma MappedRoundTrip(ip: Ipv4)
    ensures ReadIpv6(Ascii("::ffff:") + Ipv4Text(ip)) ==
            Some(Zeros(5) + [0xffff, Be16(ip.a, ip.b), Be16(ip.c, ip.d)])
  {
    hide Ascii, Ipv4Text, ReadSegments, ReadSegment, DoubleColon, ParseHex, ReadIpv6;
    var text := Ipv4Text(ip);
    var mark: seq<Byte> := [102, 102, 102, 102];
    var s := Ascii("::ffff:") + text;
    var tail := mark + [COLON] + text;
    MappedMark();
    assert s == [COLON, COLON] + tail;
    StartsWithColons(s);
    assert s[..0] == [] && s[2..] == tail;
    FfffIsRead();
    MappedTail(ip);
    var words := [Be16(ip.a, ip.b), Be16(ip.c, ip.d)];
    FirstSegment(mark, text, 0xffff, words);
    NothingRead();
    ReadAround(s, 0, [], [0xffff] + words);
    assert [] + Zeros(5) + ([0xffff] + words) == Zeros(5) + [0xffff, words[0], words[1]];
  }

  lemma NothingRead()
    ensures ReadSegments([]) == Some([])
  {
    NoSplit([]);
  }

  lemma MappedMark()
    ensures Ascii("::ffff:") == [COLON, COLON] + [102, 102, 102, 102] + [COLON]
  {
  }

  lemma FfffIsRead()
    ensures ReadSegment([102, 102, 102, 102]) == Some(0xffff)
  {
    assert [102, 102, 102, 102][..3] == [102, 102, 102];
    assert [102, 102, 102][..2] == [102, 102];
    assert [102, 102][..1] == [102];
    assert ParseHex([102]) == Some(15);
    assert ParseHex([102, 102]) == Some(0xff);
    assert ParseHex([102, 102, 102]) == Some(0xfff);
  }

  lemma MappedTail(ip: Ipv4)
    ensures ReadSegments(Ipv4Text(ip)) == Some([Be16(ip.a, ip.b), Be16(ip.c, ip.d)])
    ensures Ipv4Text(ip) != []
  {
    assert COLON !in Ipv4Text(ip);
    NoSplit(Ipv4Text(ip));
    assert Ipv4Text(ip)[|Decimal(ip.a)|] == DOT;
    Ipv4TextIsExact(ip);
  }

  // ---------------------------------------------------------------------------
  // The run of zeros that is left out
  // ---------------------------------------------------------------------------

  /** All segments from `i` up to `j` are zero. */
  predicate ZeroRun(segments: seq<U16>, i: nat, j: nat) {
    i <= j <= |segments| && forall k :: i <= k < j ==> segments[k] == 0
  }

  /** No run of zeros inside the first `i` segments is longer, and none as long begins earlier. */
  predicate BestRun(segments: seq<U16>, i: nat, best: Span) {
    && ZeroRun(segments, best.start, best.start + best.len)
    && forall a: nat, b: nat :: a < b <= i && ZeroRun(segments, a, b) ==>
         b - a < best.len || (b - a == best.len && best.start <= a)
  }

  /** The run of zeros that ends at `i`, as far back as it goes. */
  predicate CurrentRun(segments: seq<U16>, i: nat, current: Span) {
    && i <= |segments|
    && (current.len > 0 ==> current.start + current.len == i && ZeroRun(segments, current.start, i))
    && forall a: nat :: a < i && ZeroRun(segments, a, i) ==> current.len > 0 && current.start <= a
  }

  lemma {:induction false} LongestIsBest(segments: seq<U16>, i: nat, current: Span, longest: Span)
    requires i <= |segments| && current.start + current.len <= i && longest.start + longest.len <= i
    requires CurrentRun(segments, i, current) && BestRun(segments, i, longest)
    ensures BestRun(segments, |segments|, LongestZeros(segments, i, current, longest))
    decreases |segments| - i
  {
    if i < |segments| {
      if segments[i] != 0 {
        LongestIsBest(segments, i + 1, Span(0, 0), longest);
      } else {
        var grown := if current.len == 0 then Span(i, 1) else Span(current.start, current.len + 1);
        var best := if grown.len > longest.len then grown else longest;
        GrownRun(segments, i, current, grown);
        GrownBest(segments, i, grown, longest, best);
        LongestIsBest(segments, i + 1, grown, best);
      }
    }
  }

  lemma GrownRun(segments: seq<U16>, i: nat, current: Span, grown: Span)
    requires i < |segments| && segments[i] == 0 && CurrentRun(segments, i, current)
    requires grown == if current.len == 0 then Span(i, 1) else Span(current.start, current.len + 1)
    ensures CurrentRun(segments, i + 1, grown)
  {
    var j := i + 1;
    forall a: nat | a < j && ZeroRun(segments, a, j) ensures grown.start <= a {
      if a < i {
        assert ZeroRun(segments, a, i);
      }
    }
  }

  lemma GrownBest(segments: seq<U16>, i: nat, grown: Span, longest: Span, best: Span)
    requires i < |segments| && longest.start + longest.len <= i && grown.len > 0
    requires CurrentRun(segments, i + 1, grown) && BestRun(segments, i, longest)
    requires best == if grown.len > longest.len then grown else longest
    ensures BestRun(segments, i + 1, best)
  {
    forall a: nat, b: nat | a < b <= i + 1 && ZeroRun(segments, a, b)
      ensures b - a < best.len || (b - a == best.len && best.start <= a)
    {
      if b == i + 1 {
        assert grown.start <= a;
      }
    }
  }

  /** The zeros an address leaves out are its longest run, the first of them if there are several. */
  lemma LeftOutZerosAreBest(segments: seq<U16>)
    ensures BestRun(segments, |segments|, LongestZeros(segments, 0, Span(0, 0), Span(0, 0)))
  {
    LongestIsBest(segments, 0, Span(0, 0), Span(0, 0));
  }

  /** Every IPv6 address is read back from its text, in whichever of the three forms that is. */
  lemma Ipv6TextIsExact(octets: Octets16)
    ensures ReadIpv6(Ipv6Text(octets)) == Some(Segments(octets))
  {
    hide ReadIpv6, Joined, LongestZeros, Ipv4Text, BestRun;
    var segments := Segments(octets);
    if octets[..10] == seq(10, _ => 0) && octets[10] == octets[11] == 0xff {
      var ip := Ipv4(octets[12], octets[13], octets[14], octets[15]);
      MappedRoundTrip(ip);
      MappedSegments(octets);
    } else {
      var zeros := LongestZeros(segments, 0, Span(0, 0), Span(0, 0));
      LeftOutZerosAreBest(segments);
      if zeros.len > 1 {
        var front, back := segments[..zeros.start], segments[zeros.start + zeros.len..];
        ShortenedRoundTrip(front, back);
        LeftOut(segments, zeros);
      } else {
        PlainRoundTrip(segments);
      }
    }
  }

  predicate IsMapped(octets: Octets16) {
    (forall k :: 0 <= k < 10 ==> octets[k] == 0) && octets[10] == 0xff && octets[11] == 0xff
  }

  /** Two zero segments stand next to each other. */
  predicate TwoZeros(segments: seq<U16>, i: nat) {
    i + 1 < |segments| && segments[i] == 0 && segments[i + 1] == 0
  }

  /** Which of the forms it is: an address that is not a mapped one has two colons in its text exactly if two of
      its segments in a row are zero. */
  lemma Ipv6TextForm(octets: Octets16)
    ensures IsMapped(octets) ==>
              Ipv6Text(octets) == Ascii("::ffff:") + Ipv4Text(Ipv4(octets[12], octets[13], octets[14], octets[15]))
    ensures !IsMapped(octets) ==>
              (DoubleColon(Ipv6Text(octets), 0).Some? <==> exists i: nat :: TwoZeros(Segments(octets), i))
  {
    hide Joined, LongestZeros, Ipv4Text, BestRun, DoubleColon, Segments;
    MappedTest(octets);
    if !IsMapped(octets) {
      var segments := Segments(octets);
      var zeros := LongestZeros(segments, 0, Span(0, 0), Span(0, 0));
      LeftOutZerosAreBest(segments);
      BestHasTwoZeros(segments, zeros);
      if zeros.len > 1 {
        var front := segments[..zeros.start];
        JoinedHasNoDoubleColon(front);
        FirstMeeting(Joined(front), Joined(segments[zeros.start + zeros.len..]));
      } else {
        JoinedHasNoDoubleColon(segments);
        NoDoubleColon(Joined(segments), 0);
      }
    }
  }

  lemma MappedTest(octets: Octets16)
    ensures IsMapped(octets) <==> octets[..10] == seq(10, _ => 0) && octets[10] == octets[11] == 0xff
  {
    if octets[..10] == seq(10, _ => 0) {
      assert forall k :: 0 <= k < 10 ==> octets[k] == octets[..10][k] == 0;
    }
  }

  lemma BestHasTwoZeros(segments: seq<U16>, best: Span)
    requires BestRun(segments, |segments|, best)
    ensures best.len > 1 <==> exists i: nat :: TwoZeros(segments, i)
  {
    if best.len > 1 {
      assert TwoZeros(segments, best.start);
    }
    if i: nat :| TwoZeros(segments, i) {
      assert ZeroRun(segments, i, i + 2);
    }
  }

  /** The text of a host says which host it is. */
  lemma HostTextIsExact(h: Host)
    ensures match h
            case Ip(V4(v4)) => ReadIpv4(HostText(h)) == Some(v4)
            case Ip(V6(octets)) => ReadIpv6(HostText(h)) == Some(Segments(octets))
            case Domain(name) => HostText(h) == name
  {
    match h
    case Ip(V4(v4)) => Ipv4TextIsExact(v4);
    case Ip(V6(octets)) => Ipv6TextIsExact(octets);
    case Domain(name) =>
  }

  lemma PlainRoundTrip(segments: seq<U16>)
    requires |segments| == 8
    ensures ReadIpv6(Joined(segments)) == Some(segments)
  {
    JoinedHasNoDoubleColon(segments);
    NoDoubleColon(Joined(segments), 0);
    JoinedRoundTrip(segments);
  }

  lemma LeftOut(segments: seq<U16>, zeros: Span)
    requires |segments| == 8 && BestRun(segments, 8, zeros)
    ensures zeros.start + zeros.len <= 8
    ensures segments == segments[..zeros.start] + Zeros(zeros.len) + segments[zeros.start + zeros.len..]
  {
  }

  lemma MappedSegments(octets: Octets16)
    requires octets[..10] == seq(10, _ => 0) && octets[10] == octets[11] == 0xff
    ensures Segments(octets) ==
            Zeros(5) + [0xffff, Be16(octets[12], octets[13]), Be16(octets[14], octets[15])]
  {
    assert forall k :: 0 <= k < 10 ==> octets[k] == octets[..10][k] == 0;
  }
}

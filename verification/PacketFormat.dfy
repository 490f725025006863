/** The IPv4 datagram format (RFC 791, section 3.1) as a serializer, against which packet parsing is exact. */
module PacketFormat {
  import opened Addresses
  import opened Bytes
  import opened Flow
  import opened Packet
  import opened Wrappers

  /** A datagram field by field (RFC 791, section 3.1); `rest` is everything behind the header options. */
  datatype Fields = Fields(
    tos: Byte, totalLen: U16, id: seq<Byte>, flags: Byte, ttl: Byte, protocol: Byte, checksum: seq<Byte>,
    src: Ipv4, dst: Ipv4, options: seq<Byte>, rest: seq<Byte>)
  {
    /** Options fill whole words, the fragment offset is zero, and the total length is honest. */
    predicate WellFormed() {
      && |id| == 2 && |checksum| == 2 && flags < 8
      && |options| % 4 == 0 && |options| <= 40
      && 20 + |options| <= totalLen <= 20 + |options| + |rest|
    }
  }

  function Encode(f: Fields): (p: seq<Byte>)
    requires f.WellFormed()
    ensures |p| == 20 + |f.options| + |f.rest|
  {
    [0x45 + |f.options| / 4, f.tos] + Bytes16(f.totalLen) + f.id + [f.flags * 0x20, 0]
    + [f.ttl, f.protocol] + f.checksum + Octets(f.src) + Octets(f.dst) + f.options + f.rest
  }

  lemma EncodedBytes(f: Fields)
    requires f.WellFormed()
    ensures var p := Encode(f);
            && p[0] == 0x45 + |f.options| / 4 && p[9] == f.protocol
            && p[2] == Bytes16(f.totalLen)[0] && p[3] == Bytes16(f.totalLen)[1]
            && p[6] == f.flags * 0x20 && p[7] == 0
            && Ipv4(p[12], p[13], p[14], p[15]) == f.src && Ipv4(p[16], p[17], p[18], p[19]) == f.dst
            && p[20 + |f.options|..] == f.rest
  {
  }

  lemma EncodedHeader(f: Fields)
    requires f.WellFormed()
    ensures ParseHeader(Encode(f)) == Some(Header(20 + |f.options|, f.totalLen, f.protocol, f.src, f.dst))
  {
    hide Encode;
    EncodedBytes(f);
    Be16OfBytes16(f.totalLen);
    var words := |f.options| / 4;
    assert |f.options| == 4 * words;
    HeaderLenOf(words);
  }

  lemma HeaderLenOf(words: nat)
    requires words <= 10
    ensures (0x45 + words) / 16 == 4 && HeaderLenField(0x45 + words) == 20 + 4 * words
  {
  }

  /** The fields of a packet whose header parses. */
  lemma DecodedFields(p: seq<Byte>) returns (f: Fields)
    requires ParseHeader(p).Some?
    ensures f.WellFormed() && Encode(f) == p
    ensures 20 + |f.options| == ParseHeader(p).value.headerLen
  {
    var h := ParseHeader(p).value;
    f := Fields(p[1], Word(p, 2), p[4..6], p[6] / 0x20, p[8], p[9], p[10..12], h.src, h.dst,
                p[20..h.headerLen], p[h.headerLen..]);
    Bytes16OfBe16(p[2], p[3]);
    VersionAndLength(p[0]);
    FlagsOnly(p[6]);
    assert |f.options| / 4 == p[0] % 16 - 5;
    Parts(p, h.headerLen);
  }

  lemma VersionAndLength(b: Byte)
    requires b / 16 == 4 && HeaderLenField(b) >= 20
    ensures HeaderLenField(b) == 4 * (b % 16) && b == 0x45 + (b % 16 - 5)
  {
  }

  lemma FlagsOnly(b: Byte)
    requires b % 0x20 == 0
    ensures b / 0x20 < 8 && b == b / 0x20 * 0x20
  {
  }

  lemma Parts(p: seq<Byte>, h: nat)
    requires 20 <= h <= |p|
    ensures p ==
            [p[0], p[1]] + [p[2], p[3]] + p[4..6] + [p[6], p[7]] + [p[8], p[9]] + p[10..12]
            + [p[12], p[13], p[14], p[15]] + [p[16], p[17], p[18], p[19]] + p[20..h] + p[h..]
  {
  }

  /** The bytes that parse to some metadata are exactly the well-formed TCP and UDP datagrams with that
      source, destination and ports, unfragmented or first fragments, whose buffer holds a transport header. */
  lemma ParsingIsExact(p: seq<Byte>, m: Meta)
    ensures ParseMeta(p) == Some(m) <==>
            exists f: Fields ::
              && f.WellFormed() && p == Encode(f)
              && f.protocol == (if m.protocol.Tcp? then 6 else 17)
              && |f.rest| >= (if m.protocol.Tcp? then 20 else 8)
              && m == Meta(m.protocol, V4(f.src), Word(f.rest, 0), V4(f.dst), Word(f.rest, 2))
  {
    hide Encode, ParseMeta;
    if ParseMeta(p) == Some(m) {
      ParsedHasHeader(p);
      var f := DecodedFields(p);
      ParsedFields(f);
    }
    if f: Fields :|
      && f.WellFormed() && p == Encode(f)
      && f.protocol == (if m.protocol.Tcp? then 6 else 17)
      && |f.rest| >= (if m.protocol.Tcp? then 20 else 8)
      && m == Meta(m.protocol, V4(f.src), Word(f.rest, 0), V4(f.dst), Word(f.rest, 2))
    {
      ParsedFields(f);
    }
  }

  lemma ParsedHasHeader(p: seq<Byte>)
    requires ParseMeta(p).Some?
    ensures ParseHeader(p).Some?
  {
  }

  /** What a well-formed datagram parses to. */
  lemma ParsedFields(f: Fields)
    requires f.WellFormed()
    ensures var tcp, udp := f.protocol == 6 && |f.rest| >= 20, f.protocol == 17 && |f.rest| >= 8;
            ParseMeta(Encode(f)) ==
            if tcp || udp then
              Some(Meta(if tcp then Tcp else Udp, V4(f.src), Word(f.rest, 0), V4(f.dst), Word(f.rest, 2)))
            else None
  {
    hide Encode;
    EncodedHeader(f);
    EncodedBytes(f);
  }

  // ---------------------------------------------------------------------------
  // Datagrams made to measure
  // ---------------------------------------------------------------------------

  function DatagramFields(protocol: Protocol, src: Ipv4, srcPort: U16, dst: Ipv4, dstPort: U16): (f: Fields)
    ensures f.WellFormed() && |f.rest| == 20
  {
    Fields(0, 40, [0, 0], 0, 64, if protocol.Tcp? then 6 else 17, [0, 0], src, dst, [],
           Bytes16(srcPort) + Bytes16(dstPort) + seq(16, _ => 0))
  }

  /** A minimal datagram between two endpoints. */
  function Datagram(protocol: Protocol, src: Ipv4, srcPort: U16, dst: Ipv4, dstPort: U16): (p: seq<Byte>) {
    Encode(DatagramFields(protocol, src, srcPort, dst, dstPort))
  }

  lemma DatagramMeta(protocol: Protocol, src: Ipv4, srcPort: U16, dst: Ipv4, dstPort: U16)
    ensures ParseMeta(Datagram(protocol, src, srcPort, dst, dstPort)) ==
            Some(Meta(protocol, V4(src), srcPort, V4(dst), dstPort))
  {
    hide Encode;
    var f := DatagramFields(protocol, src, srcPort, dst, dstPort);
    assert f.rest[0] == Bytes16(srcPort)[0] && f.rest[1] == Bytes16(srcPort)[1];
    assert f.rest[2] == Bytes16(dstPort)[0] && f.rest[3] == Bytes16(dstPort)[1];
    Be16OfBytes16(srcPort);
    Be16OfBytes16(dstPort);
    ParsingIsExact(Encode(f), Meta(protocol, V4(src), srcPort, V4(dst), dstPort));
  }
}

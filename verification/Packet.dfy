/** IPv4 packets with a TCP or UDP header: parsing, rewriting in place, and checksum stamping. */
module Packet {
  import opened Addresses
  import opened Bytes
  import opened Checksum
  import opened Flow
  import opened Wrappers

  // ---------------------------------------------------------------------------
  // Parsing
  // ---------------------------------------------------------------------------

  datatype Header = Header(headerLen: nat, totalLen: nat, protocol: Byte, src: Ipv4, dst: Ipv4)

  datatype Ports = Ports(src: U16, dst: U16)

  datatype Meta = Meta(protocol: Protocol, srcIp: IpAddr, srcPort: U16, dstIp: IpAddr, dstPort: U16)

  /** `(b & 0x0f) * 4`. */
  function HeaderLenField(b: Byte): (n: nat)
    ensures n <= 60 && n % 4 == 0
  {
    (b % 16) * 4
  }

  /** `frag & 0x1fff != 0`, byte by byte: any of the low five bits of the first byte, or any bit of the second. */
  predicate FragmentOffsetSet(hi: Byte, lo: Byte) {
    hi % 0x20 != 0 || lo != 0
  }

  lemma FragmentOffsetIsLow13Bits(hi: Byte, lo: Byte)
    ensures FragmentOffsetSet(hi, lo) <==> Be16(hi, lo) % 0x2000 != 0
  {
    var a, r := hi / 0x20, hi % 0x20 * 0x100 + lo;
    assert hi == 0x20 * a + hi % 0x20;
    RemainderOfSum(a, r);
  }

  lemma RemainderOfSum(a: nat, r: nat)
    requires r < 0x2000
    ensures (0x2000 * a + r) % 0x2000 == r
  {
  }

  function ParseHeader(p: seq<Byte>): (r: Option<Header>)
    ensures r.Some? ==>
              && 20 <= r.value.headerLen <= 60 && r.value.headerLen % 4 == 0
              && r.value.headerLen <= r.value.totalLen <= |p|
              && r.value.totalLen <= 0xffff
  {
    if |p| < 20 then None
    else if p[0] / 16 != 4 then None
    else
      var headerLen := HeaderLenField(p[0]);
      if headerLen < 20 || |p| < headerLen then None
      else
        var totalLen := Be16(p[2], p[3]);
        if totalLen < headerLen || |p| < totalLen then None
        else if FragmentOffsetSet(p[6], p[7]) then None
        else Some(Header(headerLen, totalLen, p[9],
                         Ipv4(p[12], p[13], p[14], p[15]), Ipv4(p[16], p[17], p[18], p[19])))
  }

  function ProtocolOf(number: Byte): Option<Protocol> {
    if number == 6 then Some(Tcp) else if number == 17 then Some(Udp) else None
  }

  /** Only the buffer length is compared with the transport header, never the total length field. */
  function ParseTransport(p: seq<Byte>, offset: nat, protocol: Protocol): (r: Option<Ports>)
    ensures r.Some? <==> offset + (if protocol.Tcp? then 20 else 8) <= |p|
  {
    var minLen := if protocol.Tcp? then 20 else 8;
    if |p| < offset + minLen then None
    else Some(Ports(Be16(p[offset], p[offset + 1]), Be16(p[offset + 2], p[offset + 3])))
  }

  function ParseMeta(p: seq<Byte>): Option<Meta> {
    var header := ParseHeader(p);
    if header.None? then None
    else
      var protocol := ProtocolOf(header.value.protocol);
      if protocol.None? then None
      else
        var ports := ParseTransport(p, header.value.headerLen, protocol.value);
        if ports.None? then None
        else Some(Meta(protocol.value, V4(header.value.src), ports.value.src, V4(header.value.dst), ports.value.dst))
  }

  // ---------------------------------------------------------------------------
  // Layout
  // ---------------------------------------------------------------------------

  /** The packets both rewriters work on. */
  predicate Accepted(p: seq<Byte>) {
    ParseMeta(p).Some?
  }

  /** Where the segment begins, where the datagram ends, and where the transport checksum lives. */
  datatype Layout = Layout(headerLen: nat, totalLen: nat, checksumAt: nat) {
    predicate Fits(p: seq<Byte>) {
      && 20 <= headerLen <= totalLen <= |p|
      && headerLen % 4 == 0
      && totalLen <= 0xffff
      && (checksumAt == headerLen + 6 || checksumAt == headerLen + 16)
      && checksumAt + 2 <= |p|
    }

    /** The checksum field lies inside the datagram that the total length delimits. */
    predicate Covered() {
      checksumAt + 2 <= totalLen
    }
  }

  /** The layout of a packet whose header parses, names TCP or UDP, and leaves room for the checksum field. */
  function LayoutOf(p: seq<Byte>): (r: Option<Layout>)
    ensures r.Some? ==> r.value.Fits(p)
    ensures r.Some? ==> ParseHeader(p).Some?
    ensures Accepted(p) ==> r.Some? && r.value.headerLen + 8 <= |p|
  {
    var header := ParseHeader(p);
    if header.None? || ProtocolOf(header.value.protocol).None? then None
    else
      var h := header.value;
      var checksumAt := h.headerLen + (if h.protocol == 6 then 16 else 6);
      if |p| < checksumAt + 2 then None else Some(Layout(h.headerLen, h.totalLen, checksumAt))
  }

  function Shape(p: seq<Byte>): (l: Layout)
    requires Accepted(p)
    ensures l.Fits(p)
    ensures l.headerLen + 8 <= |p|
  {
    LayoutOf(p).value
  }

  /** Parsing looks at version, lengths, fragment offset and protocol: bytes that no rewrite touches. */
  lemma SameShape(p: seq<Byte>, q: seq<Byte>)
    requires |q| == |p|
    requires forall k {:trigger q[k]} :: 0 <= k < |p| && k in {0, 2, 3, 6, 7, 9} ==> q[k] == p[k]
    ensures ParseHeader(q).Some? == ParseHeader(p).Some?
    ensures ParseHeader(p).Some? ==> ParseHeader(q).value.headerLen == ParseHeader(p).value.headerLen
    ensures LayoutOf(q) == LayoutOf(p)
    ensures Accepted(q) == Accepted(p)
  {
    if |p| >= 20 {
      assert q[0] == p[0] && q[2] == p[2] && q[3] == p[3] && q[6] == p[6] && q[7] == p[7] && q[9] == p[9];
    }
  }

  /** The checks both rewriters make before they write anything. */
  function TransportOffset(p: seq<Byte>): (r: Option<nat>)
    ensures r.Some? <==> Accepted(p)
    ensures r.Some? ==> r.value == Shape(p).headerLen
  {
    var header := ParseHeader(p);
    if header.None? || ProtocolOf(header.value.protocol).None? then None
    else if ParseTransport(p, header.value.headerLen, ProtocolOf(header.value.protocol).value).None? then None
    else Some(header.value.headerLen)
  }

  // ---------------------------------------------------------------------------
  // Rewriting, as functions of the packet bytes
  // ---------------------------------------------------------------------------

  function PutAddress(p: seq<Byte>, i: nat, ip: Ipv4): (q: seq<Byte>)
    requires i + 4 <= |p|
    ensures |q| == |p|
    ensures q[i..i + 4] == Octets(ip)
    ensures forall k :: 0 <= k < |p| && !(i <= k < i + 4) ==> q[k] == p[k]
  {
    p[i := ip.a][i + 1 := ip.b][i + 2 := ip.c][i + 3 := ip.d]
  }

  function SetDestination(p: seq<Byte>, l: Layout, ip: Ipv4, port: U16): (q: seq<Byte>)
    requires l.Fits(p)
    ensures |q| == |p|
  {
    Put16(PutAddress(p, 16, ip), l.headerLen + 2, port)
  }

  function SetSource(p: seq<Byte>, l: Layout, ip: Ipv4, port: U16): (q: seq<Byte>)
    requires l.Fits(p)
    ensures |q| == |p|
  {
    Put16(PutAddress(p, 12, ip), l.headerLen, port)
  }

  function StampHeader(p: seq<Byte>, headerLen: nat): (q: seq<Byte>)
    requires 20 <= headerLen <= |p|
    ensures |q| == |p|
  {
    var blank := Put16(p, 10, 0);
    Put16(blank, 10, Complement(blank[..headerLen]))
  }

  /** The block the transport checksum is computed over: pseudo-header, then segment. */
  function PseudoSegment(p: seq<Byte>, l: Layout): (s: seq<Byte>)
    requires l.Fits(p)
    ensures |s| == 12 + l.totalLen - l.headerLen
  {
    p[12..16] + p[16..20] + [0, p[9]] + Bytes16(l.totalLen - l.headerLen) + p[l.headerLen..l.totalLen]
  }

  /** A UDP checksum of zero means "none", so all ones is sent instead (RFC 768). */
  function TransportField(protocol: Byte, complement: U16): U16 {
    if protocol == 17 && complement == 0 then 0xffff else complement
  }

  function StampSegment(p: seq<Byte>, l: Layout): (q: seq<Byte>)
    requires l.Fits(p)
    ensures |q| == |p|
  {
    var blank := Put16(p, l.checksumAt, 0);
    Put16(blank, l.checksumAt, TransportField(p[9], Complement(PseudoSegment(blank, l))))
  }

  /** Both checksums recomputed. */
  function Stamp(p: seq<Byte>, l: Layout): (q: seq<Byte>)
    requires l.Fits(p)
    ensures |q| == |p|
  {
    StampSegment(StampHeader(p, l.headerLen), l)
  }

  function RewrittenDestination(p: seq<Byte>, ip: Ipv4, port: U16): (q: seq<Byte>)
    requires Accepted(p)
    ensures |q| == |p|
  {
    Stamp(SetDestination(p, Shape(p), ip, port), Shape(p))
  }

  function RewrittenSource(p: seq<Byte>, ip: Ipv4, port: U16): (q: seq<Byte>)
    requires Accepted(p)
    ensures |q| == |p|
  {
    Stamp(SetSource(p, Shape(p), ip, port), Shape(p))
  }

  lemma MovedShape(p: seq<Byte>, ip: Ipv4, port: U16)
    requires Accepted(p)
    ensures LayoutOf(SetDestination(p, Shape(p), ip, port)) == Some(Shape(p))
    ensures LayoutOf(SetSource(p, Shape(p), ip, port)) == Some(Shape(p))
  {
    SameShape(p, SetDestination(p, Shape(p), ip, port));
    SameShape(p, SetSource(p, Shape(p), ip, port));
  }

  // ---------------------------------------------------------------------------
  // Rewriting in place
  // ---------------------------------------------------------------------------

  /** `packet[i..i + 2].copy_from_slice(&w.to_be_bytes())`. */
  method StoreWord(packet: array<Byte>, i: nat, w: U16)
    requires i + 2 <= packet.Length
    modifies packet
    ensures packet[..] == Put16(old(packet[..]), i, w)
  {
    packet[i], packet[i + 1] := w / 0x100, w % 0x100;
  }

  /** `packet[i..i + 4].copy_from_slice(&ip.octets())`. */
  method StoreAddress(packet: array<Byte>, i: nat, ip: Ipv4)
    requires i + 4 <= packet.Length
    modifies packet
    ensures packet[..] == PutAddress(old(packet[..]), i, ip)
  {
    packet[i], packet[i + 1], packet[i + 2], packet[i + 3] := ip.a, ip.b, ip.c, ip.d;
  }

  /** `transport_checksum`: the pseudo-header is built byte by byte in front of the segment. */
  method ComputeTransportChecksum(src: seq<Byte>, dst: seq<Byte>, protocol: Byte, segment: seq<Byte>)
    returns (c: U16)
    requires |src| == 4 && |dst| == 4 && |segment| <= 0xffff
    ensures c == Complement(src + dst + [0, protocol] + Bytes16(|segment|) + segment)
  {
    var pseudo := src;
    pseudo := pseudo + dst;
    pseudo := pseudo + [0];
    pseudo := pseudo + [protocol];
    pseudo := pseudo + Bytes16(|segment|);
    pseudo := pseudo + segment;
    assert pseudo == src + dst + [0, protocol] + Bytes16(|segment|) + segment;
    c := ComputeChecksum(pseudo);
  }

  /** First half of `recalculate_ipv4_checksums`. */
  method StampHeaderInPlace(packet: array<Byte>, headerLen: nat)
    requires 20 <= headerLen <= 60 && headerLen <= packet.Length
    modifies packet
    ensures packet[..] == StampHeader(old(packet[..]), headerLen)
  {
    StoreWord(packet, 10, 0);
    ghost var blank := packet[..];
    var ipChecksum := ComputeChecksum(packet[..headerLen]);
    assert packet[..headerLen] == blank[..headerLen];
    StoreWord(packet, 10, ipChecksum);
  }

  /** Second half of `recalculate_ipv4_checksums`. */
  method StampSegmentInPlace(packet: array<Byte>, l: Layout)
    requires l.Fits(packet[..])
    modifies packet
    ensures packet[..] == StampSegment(old(packet[..]), l)
  {
    StoreWord(packet, l.checksumAt, 0);
    var blank := packet[..];
    var field := ComputeTransportChecksum(blank[12..16], blank[16..20], blank[9], blank[l.headerLen..l.totalLen]);
    if blank[9] == 17 && field == 0 {
      field := 0xffff;
    }
    StoreWord(packet, l.checksumAt, field);
  }

  /** The header checksum is refreshed whenever the header parses; the transport checksum follows when the
      protocol has one and its field is inside the buffer. */
  method RecalculateChecksums(packet: array<Byte>) returns (ok: bool)
    modifies packet
    ensures LayoutOf(old(packet[..])).Some? ==>
              ok && packet[..] == Stamp(old(packet[..]), LayoutOf(old(packet[..])).value)
    ensures LayoutOf(old(packet[..])).None? && ParseHeader(old(packet[..])).Some? ==>
              && (ok <==> ProtocolOf(ParseHeader(old(packet[..])).value.protocol).None?)
              && packet[..] == StampHeader(old(packet[..]), ParseHeader(old(packet[..])).value.headerLen)
    ensures ParseHeader(old(packet[..])).None? ==> !ok && packet[..] == old(packet[..])
  {
    var header := ParseHeader(packet[..]);
    if header.None? {
      return false;
    }
    var headerLen := header.value.headerLen;
    StampHeaderInPlace(packet, headerLen);
    var checksumAt;
    match header.value.protocol {
      case 6 => checksumAt := headerLen + 16;
      case 17 => checksumAt := headerLen + 6;
      case _ => return true;
    }
    if packet.Length < checksumAt + 2 {
      return false;
    }
    StampSegmentInPlace(packet, Layout(headerLen, header.value.totalLen, checksumAt));
    return true;
  }

  /** Nothing is written unless the address is IPv4 and the packet parses; then the rewrite succeeds. */
  method RewriteDestination(packet: array<Byte>, ip: IpAddr, port: U16) returns (ok: bool)
    modifies packet
    ensures ok <==> ip.V4? && Accepted(old(packet[..]))
    ensures packet[..] == if ok then RewrittenDestination(old(packet[..]), ip.v4, port) else old(packet[..])
  {
    if ip.V6? {
      return false;
    }
    var transport := TransportOffset(packet[..]);
    if transport.None? {
      return false;
    }
    ghost var moved := SetDestination(packet[..], Shape(packet[..]), ip.v4, port);
    MovedShape(packet[..], ip.v4, port);
    var offset := transport.value;
    StoreAddress(packet, 16, ip.v4);
    StoreWord(packet, offset + 2, port);
    assert packet[..] == moved;
    ok := RecalculateChecksums(packet);
  }

  method RewriteSource(packet: array<Byte>, ip: IpAddr, port: U16) returns (ok: bool)
    modifies packet
    ensures ok <==> ip.V4? && Accepted(old(packet[..]))
    ensures packet[..] == if ok then RewrittenSource(old(packet[..]), ip.v4, port) else old(packet[..])
  {
    if ip.V6? {
      return false;
    }
    var transport := TransportOffset(packet[..]);
    if transport.None? {
      return false;
    }
    ghost var moved := SetSource(packet[..], Shape(packet[..]), ip.v4, port);
    MovedShape(packet[..], ip.v4, port);
    var offset := transport.value;
    StoreAddress(packet, 12, ip.v4);
    StoreWord(packet, offset, port);
    assert packet[..] == moved;
    ok := RecalculateChecksums(packet);
  }
}

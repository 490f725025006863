/** The address blocks that the policies single out, as the ranges their RFCs assign. */
module Blocks {
  import opened Addresses
  import opened Bytes
  import opened Classifier

  predicate Between(ip: Ipv4, low: Ipv4, high: Ipv4) {
    ToU32(low) <= ToU32(ip) <= ToU32(high)
  }

  /** Private use (RFC 1918, section 3), loopback, link-local and "this network" (RFC 6890, section 2.2), and the
      limited broadcast address; for IPv6 the loopback address and fe80::/10 (RFC 4291, sections 2.5.3 and
      2.5.6). */
  predicate InPrivateBlock(ip: IpAddr) {
    match ip
    case V4(v4) =>
      || Between(v4, Ipv4(10, 0, 0, 0), Ipv4(10, 255, 255, 255))
      || Between(v4, Ipv4(172, 16, 0, 0), Ipv4(172, 31, 255, 255))
      || Between(v4, Ipv4(192, 168, 0, 0), Ipv4(192, 168, 255, 255))
      || Between(v4, Ipv4(127, 0, 0, 0), Ipv4(127, 255, 255, 255))
      || Between(v4, Ipv4(169, 254, 0, 0), Ipv4(169, 254, 255, 255))
      || Between(v4, Ipv4(0, 0, 0, 0), Ipv4(0, 255, 255, 255))
      || v4 == Ipv4(255, 255, 255, 255)
    case V6(octets) =>
      || octets == [0, 0, 0, 0, 0, 0, 0, 0, 0, 0, 0, 0, 0, 0, 0, 1]
      || 0xfe80 <= Be16(octets[0], octets[1]) <= 0xfebf
  }

  /** Multicast (RFC 5771, section 3; RFC 4291, section 2.7) and the limited broadcast address. */
  predicate InGroupBlock(ip: IpAddr) {
    match ip
    case V4(v4) =>
      Between(v4, Ipv4(224, 0, 0, 0), Ipv4(239, 255, 255, 255)) || v4 == Ipv4(255, 255, 255, 255)
    case V6(octets) =>
      0xff00 <= Be16(octets[0], octets[1])
  }

  lemma FirstByteRange(v4: Ipv4, a: Byte, a': Byte)
    ensures Between(v4, Ipv4(a, 0, 0, 0), Ipv4(a', 255, 255, 255)) <==> a <= v4.a <= a'
  {
  }

  lemma SecondByteRange(v4: Ipv4, a: Byte, b: Byte, b': Byte)
    ensures Between(v4, Ipv4(a, b, 0, 0), Ipv4(a, b', 255, 255)) <==> v4.a == a && b <= v4.b <= b'
  {
  }

  lemma PrivateLanIsBlocks(ip: IpAddr)
    ensures IsPrivateLan(ip) <==> InPrivateBlock(ip)
  {
    hide Between;
    match ip
    case V4(v4) =>
      FirstByteRange(v4, 10, 10);
      FirstByteRange(v4, 127, 127);
      FirstByteRange(v4, 0, 0);
      SecondByteRange(v4, 172, 16, 31);
      SecondByteRange(v4, 192, 168, 168);
      SecondByteRange(v4, 169, 254, 254);
    case V6(octets) =>
      LoopbackBytes(octets);
  }

  lemma LoopbackBytes(octets: Octets16)
    ensures octets == [0, 0, 0, 0, 0, 0, 0, 0, 0, 0, 0, 0, 0, 0, 0, 1] <==>
            octets[15] == 1 && forall k :: 0 <= k < 15 ==> octets[k] == 0
  {
  }

  lemma MulticastIsBlocks(ip: IpAddr)
    ensures IsMulticastOrBroadcast(ip) <==> InGroupBlock(ip)
  {
    hide Between;
    if ip.V4? {
      FirstByteRange(ip.v4, 224, 239);
    }
  }
}

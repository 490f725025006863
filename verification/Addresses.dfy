/** IP addresses as the packet and the flow table carry them. */
module Addresses {
  import opened Bytes

  datatype Ipv4 = Ipv4(a: Byte, b: Byte, c: Byte, d: Byte)

  const BROADCAST := Ipv4(255, 255, 255, 255)

  /** `u32::from(ip)`. */
  function ToU32(ip: Ipv4): U32 {
    Be16(ip.a, ip.b) * 0x1_0000 + Be16(ip.c, ip.d)
  }

  /** `Ipv4Addr::from(n)`. */
  function FromU32(n: U32): (ip: Ipv4)
    ensures ToU32(ip) == n
  {
    Be16OfBytes16(n / 0x1_0000);
    Be16OfBytes16(n % 0x1_0000);
    var high, low := Bytes16(n / 0x1_0000), Bytes16(n % 0x1_0000);
    Ipv4(high[0], high[1], low[0], low[1])
  }

  function Octets(ip: Ipv4): (s: seq<Byte>)
    ensures |s| == 4
  {
    [ip.a, ip.b, ip.c, ip.d]
  }

  lemma ToU32Injective(x: Ipv4, y: Ipv4)
    requires ToU32(x) == ToU32(y)
    ensures x == y
  {
    assert Be16(x.a, x.b) == Be16(y.a, y.b) && Be16(x.c, x.d) == Be16(y.c, y.d);
    Be16Injective(x.a, x.b, y.a, y.b);
    Be16Injective(x.c, x.d, y.c, y.d);
  }

  type Octets16 = s: seq<Byte> | |s| == 16 witness seq(16, _ => 0)

  datatype IpAddr = V4(v4: Ipv4) | V6(octets: Octets16)
}

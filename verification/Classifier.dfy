/** The redirector's decision for one parsed packet. */
module Classifier {
  import opened Addresses
  import opened Bytes
  import opened Cidr
  import opened Packet
  import opened Wrappers

  datatype TcpPolicy = TcpProxy | TcpDirect | TcpDrop

  datatype DnsPolicy = DnsProxy | DnsDirect | DnsDrop

  datatype UdpPolicy = DnsNtpDirectElseDrop | UdpDrop

  datatype Policy = Policy(
    tcp: TcpPolicy, dns: DnsPolicy, udp: UdpPolicy,
    blockQuic: bool, bypassPrivateLan: bool, upstreamProxy: Option<IpAddr>)

  datatype Config = Config(gateway: IpAddr, subnet: Cidr, transparentTcp: U16, dnsProxy: U16, policy: Policy)

  datatype BypassReason =
    | NotHotspotClient | GatewayTraffic | UpstreamProxy | PrivateLan | MulticastOrBroadcast
    | TcpPolicyDirect | DnsPolicyDirect | UdpNtpDirect

  datatype DropReason = TcpPolicyDrop | DnsPolicyDrop | QuicBlocked | UdpPolicyDrop

  datatype Decision =
    | Bypass(bypass: BypassReason)
    | RedirectTcp(localIp: IpAddr, localPort: U16)
    | RedirectDns(localIp: IpAddr, localPort: U16)
    | Drop(drop: DropReason)
  {
    predicate Redirects() {
      RedirectTcp? || RedirectDns?
    }
  }

  predicate IsHotspotClient(subnet: Cidr, ip: IpAddr) {
    ip.V4? && Contains(subnet, ip.v4)
  }

  predicate IsMulticastOrBroadcast(ip: IpAddr) {
    match ip
    case V4(v4) => 224 <= v4.a <= 239 || v4 == BROADCAST
    case V6(o) => o[0] == 0xff
  }

  /** Private (RFC 1918), loopback, link-local, broadcast and "this network" addresses. */
  predicate IsPrivateLan(ip: IpAddr) {
    match ip
    case V4(v4) =>
      || v4.a == 10 || (v4.a == 172 && v4.b / 16 == 1) || (v4.a == 192 && v4.b == 168)
      || v4.a == 127
      || (v4.a == 169 && v4.b == 254)
      || v4 == BROADCAST
      || v4.a == 0
    case V6(o) =>
      || (o[15] == 1 && forall k :: 0 <= k < 15 ==> o[k] == 0)
      || (o[0] == 0xfe && o[1] / 64 == 2)
  }

  function ClassifyPacket(config: Config, packet: Meta): Decision {
    if !IsHotspotClient(config.subnet, packet.srcIp) then Bypass(NotHotspotClient)
    else if packet.dstPort == 53 then ClassifyDns(config)
    else if packet.dstIp == config.gateway then Bypass(GatewayTraffic)
    else if IsMulticastOrBroadcast(packet.dstIp) then Bypass(MulticastOrBroadcast)
    else if config.policy.upstreamProxy == Some(packet.dstIp) then Bypass(UpstreamProxy)
    else if config.policy.bypassPrivateLan && IsPrivateLan(packet.dstIp) then Bypass(PrivateLan)
    else match packet.protocol
      case Tcp => ClassifyTcp(config)
      case Udp => ClassifyUdp(config, packet)
  }

  function ClassifyTcp(config: Config): Decision {
    match config.policy.tcp
    case TcpProxy => RedirectTcp(config.gateway, config.transparentTcp)
    case TcpDirect => Bypass(TcpPolicyDirect)
    case TcpDrop => Drop(TcpPolicyDrop)
  }

  function ClassifyDns(config: Config): Decision {
    match config.policy.dns
    case DnsProxy => RedirectDns(config.gateway, config.dnsProxy)
    case DnsDirect => Bypass(DnsPolicyDirect)
    case DnsDrop => Drop(DnsPolicyDrop)
  }

  function ClassifyUdp(config: Config, packet: Meta): Decision {
    if config.policy.blockQuic && packet.dstPort == 443 then Drop(QuicBlocked)
    else if config.policy.udp.DnsNtpDirectElseDrop? && packet.dstPort == 123 then Bypass(UdpNtpDirect)
    else Drop(UdpPolicyDrop)
  }
}

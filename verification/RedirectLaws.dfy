/** What one pass through the forward worker guarantees, for every packet. */
module RedirectLaws {
  import opened Addresses
  import opened Blocks
  import opened Bytes
  import opened Cidr
  import opened Classifier
  import opened Flow
  import opened NatLaws
  import opened Packet
  import opened PacketFormat
  import opened Redirector
  import opened Wrappers

  // ---------------------------------------------------------------------------
  // Drops and reparsing
  // ---------------------------------------------------------------------------

  /** With an IPv4 gateway nothing fails after a flow is recorded: only the classifier drops packets. */
  lemma DropsExactlyOnDecision(config: Config, p: seq<Byte>)
    ensures Forwarded(config, p).None? <==>
            Refused(config, p) || (RedirectOf(config, p).Some? && config.gateway.V6?)
  {
  }

  /** An address of the hotspot subnet: it shares the subnet's leading bits. */
  predicate IsClient(config: Config, ip: IpAddr) {
    ip.V4? && SameBlock(config.subnet.address, ip.v4, config.subnet.prefixLen)
  }

  lemma ClientIff(config: Config, ip: IpAddr)
    ensures IsHotspotClient(config.subnet, ip) <==> IsClient(config, ip)
  {
    if ip.V4? {
      ContainsIff(config.subnet, ip.v4);
    }
  }

  /** Destinations that no TCP or UDP policy applies to. */
  predicate Exempt(config: Config, ip: IpAddr) {
    || ip == config.gateway
    || InGroupBlock(ip)
    || config.policy.upstreamProxy == Some(ip)
    || (config.policy.bypassPrivateLan && InPrivateBlock(ip))
  }

  /** What the classifier's own tests of the two addresses mean. */
  lemma TestsMean(config: Config, m: Meta)
    ensures IsHotspotClient(config.subnet, m.srcIp) <==> IsClient(config, m.srcIp)
    ensures IsMulticastOrBroadcast(m.dstIp) <==> InGroupBlock(m.dstIp)
    ensures IsPrivateLan(m.dstIp) <==> InPrivateBlock(m.dstIp)
  {
    ClientIff(config, m.srcIp);
    MulticastIsBlocks(m.dstIp);
    PrivateLanIsBlocks(m.dstIp);
  }

  /** The exact condition of every decision. What is redirected goes to the gateway, DNS to the DNS port
      whatever its protocol and destination, the rest to the TCP port. */
  lemma DecisionsExact(config: Config, m: Meta)
    ensures var d, policy := ClassifyPacket(config, m), config.policy;
            var other := IsClient(config, m.srcIp) && m.dstPort != 53 && m.dstIp != config.gateway;
            var group, upstream := InGroupBlock(m.dstIp), policy.upstreamProxy == Some(m.dstIp);
            var lan := policy.bypassPrivateLan && InPrivateBlock(m.dstIp);
            var open := other && !group && !upstream && !lan;
            var dns := IsClient(config, m.srcIp) && m.dstPort == 53;
            var quic := policy.blockQuic && m.dstPort == 443;
            var ntp := policy.udp.DnsNtpDirectElseDrop? && m.dstPort == 123;
            && (d == Bypass(NotHotspotClient) <==> !IsClient(config, m.srcIp))
            && (d == RedirectDns(config.gateway, config.dnsProxy) <==> dns && policy.dns.DnsProxy?)
            && (d == Bypass(DnsPolicyDirect) <==> dns && policy.dns.DnsDirect?)
            && (d == Drop(DnsPolicyDrop) <==> dns && policy.dns.DnsDrop?)
            && (d == Bypass(GatewayTraffic) <==>
                  IsClient(config, m.srcIp) && m.dstPort != 53 && m.dstIp == config.gateway)
            && (d == Bypass(MulticastOrBroadcast) <==> other && group)
            && (d == Bypass(UpstreamProxy) <==> other && !group && upstream)
            && (d == Bypass(PrivateLan) <==> other && !group && !upstream && lan)
            && (d == RedirectTcp(config.gateway, config.transparentTcp) <==>
                  open && m.protocol.Tcp? && policy.tcp.TcpProxy?)
            && (d == Bypass(TcpPolicyDirect) <==> open && m.protocol.Tcp? && policy.tcp.TcpDirect?)
            && (d == Drop(TcpPolicyDrop) <==> open && m.protocol.Tcp? && policy.tcp.TcpDrop?)
            && (d == Drop(QuicBlocked) <==> open && m.protocol.Udp? && quic)
            && (d == Bypass(UdpNtpDirect) <==> open && m.protocol.Udp? && ntp)
            && (d == Drop(UdpPolicyDrop) <==> open && m.protocol.Udp? && !quic && !ntp)
  {
    hide IsClient, InGroupBlock, InPrivateBlock, IsHotspotClient, IsMulticastOrBroadcast, IsPrivateLan;
    TestsMean(config, m);
  }

  /** Exactly these packets are refused. The QUIC flag does not appear: UDP to port 443 is refused with it
      and without it, because the only UDP let through is DNS and, under one policy, NTP. */
  lemma RefusedIff(config: Config, p: seq<Byte>, m: Meta)
    requires ParseMeta(p) == Some(m)
    ensures Refused(config, p) <==>
            && IsClient(config, m.srcIp)
            && (if m.dstPort == 53 then config.policy.dns.DnsDrop?
                else
                  && !Exempt(config, m.dstIp)
                  && (if m.protocol.Tcp? then config.policy.tcp.TcpDrop?
                      else !(config.policy.udp.DnsNtpDirectElseDrop? && m.dstPort == 123)))
  {
    hide ParseMeta, IsClient, InGroupBlock;
    hide InPrivateBlock, IsHotspotClient, IsMulticastOrBroadcast, IsPrivateLan;
    TestsMean(config, m);
  }

  /** Exactly these packets are redirected: under which key, and to which local port. */
  lemma RedirectedIff(config: Config, p: seq<Byte>, m: Meta, port: U16)
    requires ParseMeta(p) == Some(m)
    ensures RedirectOf(config, p) == Some((FlowKey(m.protocol, m.srcIp, m.srcPort), config.gateway, port)) <==>
            && IsClient(config, m.srcIp)
            && (if m.dstPort == 53 then config.policy.dns.DnsProxy? && port == config.dnsProxy
                else
                  && !Exempt(config, m.dstIp) && m.protocol.Tcp?
                  && config.policy.tcp.TcpProxy? && port == config.transparentTcp)
  {
    hide ParseMeta, IsClient, InGroupBlock;
    hide InPrivateBlock, IsHotspotClient, IsMulticastOrBroadcast, IsPrivateLan;
    TestsMean(config, m);
  }

  /** A client's QUIC packet to a private server. */
  function PrivateQuic(config: Config, port: U16): (p: seq<Byte>) {
    Datagram(Udp, config.subnet.address, port, Ipv4(10, 0, 0, 1), 443)
  }

  lemma TenIsPrivate()
    ensures InPrivateBlock(V4(Ipv4(10, 0, 0, 1)))
  {
    hide Between;
    FirstByteRange(Ipv4(10, 0, 0, 1), 10, 10);
  }

  /** With QUIC blocked and private destinations bypassed, it is sent on as it is. */
  lemma PrivateQuicIsSent(config: Config, port: U16)
    requires config.policy.blockQuic && config.policy.bypassPrivateLan
    ensures IsClient(config, V4(config.subnet.address)) && InPrivateBlock(V4(Ipv4(10, 0, 0, 1)))
    ensures Forwarded(config, PrivateQuic(config, port)) == Some(PrivateQuic(config, port))
  {
    hide Datagram, ParseMeta, IsClient, InGroupBlock, InPrivateBlock, IsHotspotClient, IsMulticastOrBroadcast;
    hide IsPrivateLan;
    TenIsPrivate();
    DatagramMeta(Udp, config.subnet.address, port, Ipv4(10, 0, 0, 1), 443);
    OwnAddressIsClient(config);
    TestsMean(config, Meta(Udp, V4(config.subnet.address), port, V4(Ipv4(10, 0, 0, 1)), 443));
  }

  /** A sent packet parses as it did before, except that a redirected one is now addressed to the gateway. */
  lemma ForwardedMeta(config: Config, p: seq<Byte>)
    requires Forwarded(config, p).Some?
    ensures ParseMeta(Forwarded(config, p).value) ==
            match RedirectOf(config, p)
            case None => ParseMeta(p)
            case Some(r) => Some(ParseMeta(p).value.(dstIp := config.gateway, dstPort := r.2))
  {
    if RedirectOf(config, p).Some? {
      RewrittenDestinationMeta(p, config.gateway.v4, RedirectOf(config, p).value.2);
    }
  }

  // ---------------------------------------------------------------------------
  // No leak
  // ---------------------------------------------------------------------------

  /** Where a hotspot client's packet may go once the forward worker has let it out. */
  predicate MayLeave(config: Config, m: Meta) {
    || Exempt(config, m.dstIp)
    || (m.protocol.Udp? && m.dstPort == 123 && config.policy.udp.DnsNtpDirectElseDrop?)
  }

  /** A packet leaves that parses as a client's TCP or UDP and may not leave. */
  predicate Leaks(config: Config, p: seq<Byte>) {
    var sent := Forwarded(config, p);
    && sent.Some?
    && ParseMeta(sent.value).Some?
    && IsClient(config, ParseMeta(sent.value).value.srcIp)
    && !MayLeave(config, ParseMeta(sent.value).value)
  }

  lemma ProxiedPolicyDoesNotLeak(config: Config, p: seq<Byte>)
    requires !config.policy.tcp.TcpDirect? && !config.policy.dns.DnsDirect?
    ensures !Leaks(config, p)
  {
    hide ParseMeta, RewrittenDestination, IsClient, InGroupBlock;
    hide InPrivateBlock, IsHotspotClient, IsMulticastOrBroadcast, IsPrivateLan;
    if Forwarded(config, p).Some? {
      ForwardedMeta(config, p);
      if ParseMeta(p).Some? {
        TestsMean(config, ParseMeta(p).value);
      }
    }
  }

  lemma OwnAddressIsClient(config: Config)
    ensures IsClient(config, V4(config.subnet.address))
  {
  }

  /** A public address that is neither the gateway nor the upstream proxy. */
  function Elsewhere(config: Config): (ip: Ipv4)
    ensures V4(ip) != config.gateway && config.policy.upstreamProxy != Some(V4(ip))
    ensures !InGroupBlock(V4(ip)) && !InPrivateBlock(V4(ip))
  {
    var taken := (ip: Ipv4) => V4(ip) == config.gateway || config.policy.upstreamProxy == Some(V4(ip));
    if !taken(Ipv4(8, 8, 8, 8)) then Ipv4(8, 8, 8, 8)
    else if !taken(Ipv4(9, 9, 9, 9)) then Ipv4(9, 9, 9, 9)
    else Ipv4(1, 1, 1, 1)
  }

  lemma DirectPolicyLeaks(config: Config, port: U16)
    requires if port == 53 then config.policy.dns.DnsDirect? else config.policy.tcp.TcpDirect?
    ensures Leaks(config, Datagram(Tcp, config.subnet.address, 40000, Elsewhere(config), port))
  {
    hide Datagram, ParseMeta, Elsewhere, IsClient;
    hide InGroupBlock, InPrivateBlock, IsHotspotClient, IsMulticastOrBroadcast, IsPrivateLan;
    DatagramMeta(Tcp, config.subnet.address, 40000, Elsewhere(config), port);
    OwnAddressIsClient(config);
    TestsMean(config, Meta(Tcp, V4(config.subnet.address), 40000, V4(Elsewhere(config)), port));
  }

  /** No client's TCP or UDP that the redirector can parse gets out to the open network exactly when neither TCP
      nor DNS is set to direct. Packets it cannot parse are another matter, see `GetsOutIff`. */
  lemma NoLeakIffNothingDirect(config: Config)
    ensures (forall p: seq<Byte> :: !Leaks(config, p)) <==>
            !config.policy.tcp.TcpDirect? && !config.policy.dns.DnsDirect?
  {
    if config.policy.dns.DnsDirect? {
      DirectPolicyLeaks(config, 53);
    } else if config.policy.tcp.TcpDirect? {
      DirectPolicyLeaks(config, 80);
    } else {
      forall p: seq<Byte> ensures !Leaks(config, p) {
        ProxiedPolicyDoesNotLeak(config, p);
      }
    }
  }

  function SourceField(p: seq<Byte>): Ipv4
    requires |p| >= 20
  {
    Ipv4(p[12], p[13], p[14], p[15])
  }

  function DestinationField(p: seq<Byte>): Ipv4
    requires |p| >= 20
  {
    Ipv4(p[16], p[17], p[18], p[19])
  }

  /** An IPv4 packet from a hotspot client: any protocol, any fragment, any lengths. */
  predicate IsClientPacket(config: Config, p: seq<Byte>) {
    |p| >= 20 && p[0] / 16 == 4 && IsClient(config, V4(SourceField(p)))
  }

  /** The forward worker sends something in its place to an address that no policy exempts. */
  predicate GetsOut(config: Config, p: seq<Byte>) {
    var sent := Forwarded(config, p);
    sent.Some? && |sent.value| >= 20 && !Exempt(config, V4(DestinationField(sent.value)))
  }

  /** A policy lets such a packet through as it is. */
  predicate Direct(config: Config, m: Meta) {
    if m.dstPort == 53 then config.policy.dns.DnsDirect?
    else if m.protocol.Tcp? then config.policy.tcp.TcpDirect?
    else config.policy.udp.DnsNtpDirectElseDrop? && m.dstPort == 123
  }

  lemma GatewayIsExempt(config: Config)
    ensures Exempt(config, config.gateway)
  {
  }

  /** Over all bytes a client can send: what is addressed to a non-exempt destination gets there exactly when a
      direct policy applies to it or it does not parse, and nothing else ever gets out. */
  lemma GetsOutIff(config: Config, p: seq<Byte>)
    requires IsClientPacket(config, p)
    ensures GetsOut(config, p) <==>
            && !Exempt(config, V4(DestinationField(p)))
            && (ParseMeta(p).None? || Direct(config, ParseMeta(p).value))
  {
    hide ParseMeta, RewrittenDestination, IsClient, InGroupBlock;
    hide InPrivateBlock, IsHotspotClient, IsMulticastOrBroadcast, IsPrivateLan;
    if ParseMeta(p).Some? {
      MetaOf(p);
      TestsMean(config, ParseMeta(p).value);
      RefusedIff(config, p, ParseMeta(p).value);
    }
    if RedirectOf(config, p).Some? && Forwarded(config, p).Some? {
      var q := Forwarded(config, p).value;
      ForwardedMeta(config, p);
      MetaOf(q);
      GatewayIsExempt(config);
      assert V4(DestinationField(q)) == config.gateway;
    }
  }

  /** A fragment other than the first, from a client to a public address. */
  function Fragment(config: Config): (p: seq<Byte>) {
    Datagram(Tcp, config.subnet.address, 40000, Elsewhere(config), 80)[7 := 1]
  }

  /** Under every policy such a fragment goes out as it is. */
  lemma FragmentGetsOut(config: Config)
    ensures IsClientPacket(config, Fragment(config)) && ParseMeta(Fragment(config)).None?
    ensures Forwarded(config, Fragment(config)) == Some(Fragment(config))
    ensures GetsOut(config, Fragment(config))
  {
    hide Encode, Elsewhere, IsClient, InGroupBlock;
    hide InPrivateBlock, IsHotspotClient, IsMulticastOrBroadcast, IsPrivateLan;
    var p, f := Fragment(config), DatagramFields(Tcp, config.subnet.address, 40000, Elsewhere(config), 80);
    EncodedBytes(f);
    assert p[7] == 1 && p[0] == Encode(f)[0];
    assert SourceField(p) == config.subnet.address && DestinationField(p) == Elsewhere(config);
    OwnAddressIsClient(config);
  }

  // ---------------------------------------------------------------------------
  // Recapture of what was sent
  // ---------------------------------------------------------------------------

  lemma RedirectPort(config: Config, p: seq<Byte>)
    requires RedirectOf(config, p).Some?
    ensures RedirectOf(config, p).value.2 in {config.transparentTcp, config.dnsProxy}
  {
  }

  predicate RecaptureIsNoOp(config: Config, q: seq<Byte>) {
    RedirectOf(config, q).None? && Forwarded(config, q) == Some(q)
  }

  /** Feeding a sent packet back in changes neither it nor the table, unless it was redirected to local
      port 53: that port is tested before the gateway address. */
  lemma RecaptureIsNoOpIff(config: Config, p: seq<Byte>)
    requires Forwarded(config, p).Some?
    ensures RecaptureIsNoOp(config, Forwarded(config, p).value) <==>
            || RedirectOf(config, p).None?
            || RedirectOf(config, p).value.2 != 53
            || config.policy.dns.DnsDirect?
  {
    hide ParseMeta, RewrittenDestination;
    ForwardedMeta(config, p);
  }

  /** With both local ports other than 53 the forward worker is idempotent on everything it sends. */
  lemma RecaptureIsNoOpForOtherPorts(config: Config, p: seq<Byte>)
    requires config.transparentTcp != 53 && config.dnsProxy != 53
    requires Forwarded(config, p).Some?
    ensures RecaptureIsNoOp(config, Forwarded(config, p).value)
  {
    if RedirectOf(config, p).Some? {
      RedirectPort(config, p);
    }
    RecaptureIsNoOpIff(config, p);
  }

  /** On port 53 under the DNS proxy policy, recapture forgets the client's real destination. */
  lemma RecaptureOnPort53OverwritesDestination(config: Config, p: seq<Byte>, now: nat)
    requires RedirectOf(config, p).Some? && RedirectOf(config, p).value.2 == 53
    requires config.gateway.V4? && config.policy.dns.DnsProxy?
    ensures Forwarded(config, p).Some?
    ensures var q := Forwarded(config, p).value;
            && RedirectOf(config, q).Some?
            && RedirectOf(config, q).value.0 == RedirectOf(config, p).value.0
            && RecordOf(config, q, now).originalIp == config.gateway
            && RecordOf(config, q, now).originalPort == 53
  {
    ForwardedMeta(config, p);
  }

  // ---------------------------------------------------------------------------
  // The way back
  // ---------------------------------------------------------------------------

  /** A datagram from the local DNS listener to a hotspot client that has a flow. */
  predicate IsAnswer(config: Config, m: Meta, flows: Flows) {
    && m.protocol.Udp? && m.srcIp == config.gateway && m.srcPort == config.dnsProxy
    && IsClient(config, m.dstIp) && FlowKey(Udp, m.dstIp, m.dstPort) in flows
  }

  /** The network worker gives such answers the flow's original endpoint as their source and renews the flow.
      Every other packet it sends on as it is, and leaves the table alone. */
  lemma ReturnedExact(config: Config, p: seq<Byte>, now: nat, flows: Flows)
    ensures ParseMeta(p).None? || !IsAnswer(config, ParseMeta(p).value, flows) ==>
              Returned(config, p, flows) == Some(p) && NetworkTable(config, p, now, flows) == flows
    ensures ParseMeta(p).Some? && IsAnswer(config, ParseMeta(p).value, flows) ==>
              var m := ParseMeta(p).value;
              var key := FlowKey(Udp, m.dstIp, m.dstPort);
              var v := flows[key];
              && NetworkTable(config, p, now, flows) == flows[key := v.(lastSeen := now)]
              && (v.originalIp.V4? ==>
                    && Returned(config, p, flows).Some?
                    && ParseMeta(Returned(config, p, flows).value) ==
                       Some(m.(srcIp := v.originalIp, srcPort := v.originalPort)))
              && (v.originalIp.V6? ==> Returned(config, p, flows).None?)
  {
    hide ParseMeta, RewrittenSource, IsClient, InGroupBlock;
    hide InPrivateBlock, IsHotspotClient, IsMulticastOrBroadcast, IsPrivateLan;
    if ParseMeta(p).Some? {
      var m := ParseMeta(p).value;
      ClientIff(config, m.dstIp);
      HotspotClientIs(config, m.dstIp);
      var key := FlowKey(Udp, m.dstIp, m.dstPort);
      if key in flows && flows[key].originalIp.V4? {
        RewrittenSourceMeta(p, flows[key].originalIp.v4, flows[key].originalPort);
      }
    }
  }

  lemma HotspotClientIs(config: Config, ip: IpAddr)
    ensures IsHotspotClient(config.subnet, ip) <==> ip.V4? && Contains(config.subnet, ip.v4)
  {
  }

  // ---------------------------------------------------------------------------
  // The entries that can be recorded
  // ---------------------------------------------------------------------------

  predicate WellShaped(config: Config, key: FlowKey, value: FlowValue) {
    && IsClient(config, key.clientIp)
    && value.originalIp.V4?
    && value.redirectedIp == config.gateway
    && (if value.originalPort == 53 then
          config.policy.dns.DnsProxy? && value.redirectedPort == config.dnsProxy
        else
          && key.protocol.Tcp?
          && config.policy.tcp.TcpProxy?
          && value.redirectedPort == config.transparentTcp
          && !Exempt(config, value.originalIp))
  }

  /** The entry that some packet makes the forward worker record at time `now`. */
  ghost predicate Recordable(config: Config, key: FlowKey, value: FlowValue, now: nat) {
    exists p :: RedirectOf(config, p).Some? && RedirectOf(config, p).value.0 == key && RecordOf(config, p, now) == value
  }

  lemma RecordsAreWellShaped(config: Config, p: seq<Byte>, now: nat)
    requires RedirectOf(config, p).Some?
    ensures WellShaped(config, RedirectOf(config, p).value.0, RecordOf(config, p, now))
  {
    hide ParseMeta, IsClient, InGroupBlock;
    hide InPrivateBlock, IsHotspotClient, IsMulticastOrBroadcast, IsPrivateLan;
    MetaOf(p);
    TestsMean(config, ParseMeta(p).value);
  }

  lemma ClientIsV4(config: Config, ip: IpAddr)
    requires IsClient(config, ip)
    ensures ip.V4?
  {
  }

  /** The shape is exact: an entry can be recorded if and only if it has it. */
  lemma RecordableIffWellShaped(config: Config, key: FlowKey, value: FlowValue, now: nat)
    requires value.createdAt == now && value.lastSeen == now
    ensures Recordable(config, key, value, now) <==> WellShaped(config, key, value)
  {
    hide Datagram, ParseMeta, IsClient, InGroupBlock;
    hide InPrivateBlock, IsHotspotClient, IsMulticastOrBroadcast, IsPrivateLan;
    if Recordable(config, key, value, now) {
      var p :| RedirectOf(config, p).Some? && RedirectOf(config, p).value.0 == key && RecordOf(config, p, now) == value;
      RecordsAreWellShaped(config, p, now);
    }
    if WellShaped(config, key, value) {
      ClientIsV4(config, key.clientIp);
      var p := Datagram(key.protocol, key.clientIp.v4, key.clientPort, value.originalIp.v4, value.originalPort);
      DatagramMeta(key.protocol, key.clientIp.v4, key.clientPort, value.originalIp.v4, value.originalPort);
      TestsMean(config, Meta(key.protocol, key.clientIp, key.clientPort, value.originalIp, value.originalPort));
      assert RedirectOf(config, p).Some? && RedirectOf(config, p).value.0 == key && RecordOf(config, p, now) == value;
    }
  }
}

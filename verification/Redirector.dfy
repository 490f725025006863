/** The two packet processors: what each does to the shared table and to the packet in its buffer. */
module Redirector {
  import opened Addresses
  import opened Bytes
  import opened Cidr
  import opened Classifier
  import opened Flow
  import opened Packet
  import opened Wrappers

  datatype Action = Send | Discard

  function ClientKey(m: Meta): FlowKey {
    FlowKey(m.protocol, m.srcIp, m.srcPort)
  }

  // ---------------------------------------------------------------------------
  // One packet, as a relation between tables and a function of the bytes
  // ---------------------------------------------------------------------------

  /** The endpoint a packet is redirected to, if the classifier redirects it. */
  function RedirectOf(config: Config, p: seq<Byte>): (r: Option<(FlowKey, IpAddr, U16)>)
    ensures r.Some? ==> Accepted(p) && r.value.0 == ClientKey(ParseMeta(p).value) && r.value.1 == config.gateway
  {
    match ParseMeta(p)
    case None => None
    case Some(m) =>
      var d := ClassifyPacket(config, m);
      if d.Redirects() then Some((ClientKey(m), d.localIp, d.localPort)) else None
  }

  /** The entry recorded for a redirected packet, stamped with the worker's clock reading. */
  function RecordOf(config: Config, p: seq<Byte>, now: nat): FlowValue
    requires RedirectOf(config, p).Some?
  {
    var m, r := ParseMeta(p).value, RedirectOf(config, p).value;
    NewFlow(m.dstIp, m.dstPort, r.1, r.2, now)
  }

  predicate Refused(config: Config, p: seq<Byte>) {
    ParseMeta(p).Some? && ClassifyPacket(config, ParseMeta(p).value).Drop?
  }

  /** What the forward worker sends in place of `p`, or nothing. */
  function Forwarded(config: Config, p: seq<Byte>): Option<seq<Byte>> {
    match RedirectOf(config, p)
    case None => if Refused(config, p) then None else Some(p)
    case Some(r) => if r.1.V4? then Some(RewrittenDestination(p, r.1.v4, r.2)) else None
  }

  ghost predicate ForwardTable(config: Config, p: seq<Byte>, now: nat, capacity: nat, before: Flows, after: Flows) {
    match RedirectOf(config, p)
    case None => after == before
    case Some(r) => Inserted(before, capacity, r.0, RecordOf(config, p, now), after)
  }

  /** The client flow a packet leaving the DNS listener answers. */
  function ReplyKey(config: Config, p: seq<Byte>): Option<FlowKey> {
    match ParseMeta(p)
    case None => None
    case Some(m) =>
      if m.protocol.Udp? && m.srcIp == config.gateway && m.srcPort == config.dnsProxy
         && m.dstIp.V4? && Contains(config.subnet, m.dstIp.v4)
      then Some(FlowKey(Udp, m.dstIp, m.dstPort)) else None
  }

  /** What the network worker sends in place of `p`, or nothing. */
  function Returned(config: Config, p: seq<Byte>, flows: Flows): Option<seq<Byte>> {
    match ReplyKey(config, p)
    case None => Some(p)
    case Some(key) =>
      if key !in flows then Some(p)
      else if flows[key].originalIp.V6? then None
      else Some(RewrittenSource(p, flows[key].originalIp.v4, flows[key].originalPort))
  }

  function NetworkTable(config: Config, p: seq<Byte>, now: nat, before: Flows): Flows {
    match ReplyKey(config, p)
    case None => before
    case Some(key) => Touched(before, key, now)
  }

  // ---------------------------------------------------------------------------
  // The processors
  // ---------------------------------------------------------------------------

  method ProcessForwardPacket(config: Config, table: FlowTable, packet: array<Byte>, now: nat)
    returns (action: Action)
    modifies table, packet
    ensures ForwardTable(config, old(packet[..]), now, table.capacity, old(table.flows), table.flows)
    ensures action.Send? <==> Forwarded(config, old(packet[..])).Some?
    ensures action.Send? ==> packet[..] == Forwarded(config, old(packet[..])).value
    ensures action.Discard? ==> packet[..] == old(packet[..])
  {
    var meta := ParseMeta(packet[..]);
    if meta.None? {
      return Send;
    }
    var m := meta.value;
    match ClassifyPacket(config, m) {
      case Bypass(_) =>
        return Send;
      case Drop(_) =>
        return Discard;
      case RedirectTcp(localIp, localPort) =>
        action := Redirect(table, packet, m, localIp, localPort, now);
      case RedirectDns(localIp, localPort) =>
        action := Redirect(table, packet, m, localIp, localPort, now);
    }
  }

  /** The shared arm of both redirect decisions: record first, then rewrite. */
  method Redirect(table: FlowTable, packet: array<Byte>, m: Meta, localIp: IpAddr, localPort: U16, now: nat)
    returns (action: Action)
    requires ParseMeta(packet[..]) == Some(m)
    modifies table, packet
    ensures Inserted(old(table.flows), table.capacity, ClientKey(m),
                     NewFlow(m.dstIp, m.dstPort, localIp, localPort, now), table.flows)
    ensures action.Send? <==> localIp.V4?
    ensures packet[..] ==
            if localIp.V4? then RewrittenDestination(old(packet[..]), localIp.v4, localPort) else old(packet[..])
  {
    table.Insert(ClientKey(m), NewFlow(m.dstIp, m.dstPort, localIp, localPort, now));
    var ok := RewriteDestination(packet, localIp, localPort);
    action := if ok then Send else Discard;
  }

  method ProcessNetworkPacket(config: Config, table: FlowTable, packet: array<Byte>, now: nat)
    returns (action: Action)
    modifies table, packet
    ensures table.flows == NetworkTable(config, old(packet[..]), now, old(table.flows))
    ensures action.Send? <==> Returned(config, old(packet[..]), old(table.flows)).Some?
    ensures action.Send? ==> packet[..] == Returned(config, old(packet[..]), old(table.flows)).value
    ensures action.Discard? ==> packet[..] == old(packet[..])
  {
    var meta := ParseMeta(packet[..]);
    if meta.None? {
      return Send;
    }
    var m := meta.value;
    if m.protocol != Udp {
      return Send;
    }
    if m.srcIp != config.gateway || m.srcPort != config.dnsProxy {
      return Send;
    }
    if m.dstIp.V6? {
      return Send;
    }
    if !Contains(config.subnet, m.dstIp.v4) {
      return Send;
    }
    var flow := table.Get(FlowKey(Udp, m.dstIp, m.dstPort), now);
    if flow.None? {
      return Send;
    }
    var ok := RewriteSource(packet, flow.value.originalIp, flow.value.originalPort);
    action := if ok then Send else Discard;
  }
}

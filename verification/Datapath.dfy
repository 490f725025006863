/** Whole runs of the datapath: the two packet workers and the relay tasks share one flow table, and each
    table operation is one atomic step. Every interleaving of them is a run. */
module Datapath {
  import opened Addresses
  import opened Blocks
  import opened Bytes
  import opened Cidr
  import opened Classifier
  import opened Flow
  import opened NatLaws
  import opened Packet
  import opened PacketFormat
  import opened RedirectLaws
  import opened Redirector
  import opened Wrappers

  /** A relay that has looked up its flow: the client's key, and the event that was its lookup. */
  datatype Relay = Relay(key: FlowKey, since: nat)

  datatype Event =
    | Forward(packet: seq<Byte>, now: nat)
    | Network(packet: seq<Byte>, now: nat)
    | RelayLookup(clientIp: IpAddr, clientPort: U16, now: nat)
    | RelayFailed(relay: Relay)
    | RelayDone(relay: Relay)
    | Prune(now: nat, maxIdle: nat)

  datatype Output = Sent(bytes: seq<Byte>) | Dropped | Dialed(ip: IpAddr, port: U16) | NoFlow | Quiet

  /** The shared table, and the relays that have looked up their flow and not ended yet. */
  datatype State = State(flows: Flows, relays: set<Relay>)

  function Emitted(sent: Option<seq<Byte>>): Output {
    match sent
    case Some(bytes) => Sent(bytes)
    case None => Dropped
  }

  /** `relay_one` up to the dial: the relay of an accepted connection asks where its client was going. */
  method BeginRelay(table: FlowTable, clientIp: IpAddr, clientPort: U16, now: nat)
    returns (dialed: Option<(IpAddr, U16)>)
    modifies table
    ensures var key := FlowKey(Tcp, clientIp, clientPort);
            && table.flows == Touched(old(table.flows), key, now)
            && (dialed.Some? <==> key in old(table.flows))
            && (dialed.Some? ==> dialed.value == (old(table.flows)[key].originalIp, old(table.flows)[key].originalPort))
  {
    var flow := table.Get(FlowKey(Tcp, clientIp, clientPort), now);
    dialed := if flow.None? then None else Some((flow.value.originalIp, flow.value.originalPort));
  }

  /** The `n`th event of a run, and what it does. */
  ghost predicate Step(config: Config, capacity: nat, n: nat, s: State, e: Event, o: Output, s': State) {
    match e
    case Forward(p, now) =>
      && ForwardTable(config, p, now, capacity, s.flows, s'.flows)
      && o == Emitted(Forwarded(config, p))
      && s'.relays == s.relays
    case Network(p, now) =>
      && s'.flows == NetworkTable(config, p, now, s.flows)
      && o == Emitted(Returned(config, p, s.flows))
      && s'.relays == s.relays
    case RelayLookup(ip, port, now) =>
      var key := FlowKey(Tcp, ip, port);
      && s'.flows == Touched(s.flows, key, now)
      && (if key in s.flows then
            && o == Dialed(s.flows[key].originalIp, s.flows[key].originalPort)
            && s'.relays == s.relays + {Relay(key, n)}
          else
            o == NoFlow && s'.relays == s.relays)
    case RelayFailed(relay) =>
      relay in s.relays && s' == State(s.flows, s.relays - {relay}) && o == Quiet
    case RelayDone(relay) =>
      relay in s.relays && s' == State(s.flows - {relay.key}, s.relays - {relay}) && o == Quiet
    case Prune(now, maxIdle) =>
      s' == State(Pruned(s.flows, now, maxIdle), s.relays) && o == Quiet
  }

  datatype Run = Run(states: seq<State>, events: seq<Event>, outputs: seq<Output>) {
    ghost predicate Valid(config: Config, capacity: nat) {
      && |states| == |events| + 1 && |outputs| == |events|
      && states[0] == State(map[], {})
      && forall n :: 0 <= n < |events| ==> Step(config, capacity, n, states[n], events[n], outputs[n], states[n + 1])
    }
  }

  // ---------------------------------------------------------------------------
  // What one step can do to one entry
  // ---------------------------------------------------------------------------

  /** The event records a new destination for the key. */
  predicate Records(config: Config, e: Event, key: FlowKey) {
    e.Forward? && RedirectOf(config, e.packet).Some? && RedirectOf(config, e.packet).value.0 == key
  }

  /** The event looks the key up, and finds it if it is there. */
  predicate LooksUp(config: Config, e: Event, key: FlowKey) {
    || (e.Network? && ReplyKey(config, e.packet) == Some(key))
    || (e.RelayLookup? && FlowKey(Tcp, e.clientIp, e.clientPort) == key)
  }

  /** An entry present after a step was recorded by it, or was there before with the same destination;
      its stamp is the step's clock reading if the step touched it, and unchanged otherwise. */
  lemma StepEntry(config: Config, capacity: nat, n: nat, s: State, e: Event, o: Output, s': State, key: FlowKey)
    requires Step(config, capacity, n, s, e, o, s') && key in s'.flows
    ensures Records(config, e, key) ==> s'.flows[key] == RecordOf(config, e.packet, e.now)
    ensures !Records(config, e, key) ==> key in s.flows
    ensures !Records(config, e, key) ==>
              s'.flows[key] == if LooksUp(config, e, key) then s.flows[key].(lastSeen := e.now) else s.flows[key]
  {
    if e.Forward? && RedirectOf(config, e.packet).Some? {
      var r := RedirectOf(config, e.packet).value;
      InsertKeepsOthers(s.flows, capacity, r.0, RecordOf(config, e.packet, e.now), s'.flows, key);
    }
  }

  // ---------------------------------------------------------------------------
  // Shape and size of the table
  // ---------------------------------------------------------------------------

  lemma StepWithinLimit(config: Config, capacity: nat, n: nat, s: State, e: Event, o: Output, s': State)
    requires Step(config, capacity, n, s, e, o, s') && |s.flows| <= Limit(capacity)
    ensures |s'.flows| <= Limit(capacity)
  {
    if e.Forward? && RedirectOf(config, e.packet).Some? {
      InsertKeepsLimit(s.flows, capacity, RedirectOf(config, e.packet).value.0,
                       RecordOf(config, e.packet, e.now), s'.flows);
    } else {
      assert s'.flows.Keys <= s.flows.Keys;
      SubsetSize(s'.flows.Keys, s.flows.Keys);
    }
  }

  lemma {:induction false} TableWithinLimit(config: Config, capacity: nat, run: Run, n: nat)
    requires run.Valid(config, capacity) && n < |run.states|
    ensures |run.states[n].flows| <= Limit(capacity)
  {
    hide Step;
    if n > 0 {
      TableWithinLimit(config, capacity, run, n - 1);
      StepWithinLimit(config, capacity, n - 1, run.states[n - 1], run.events[n - 1], run.outputs[n - 1], run.states[n]);
    }
  }

  /** Every entry of every reachable table has the shape of a recorded redirect. */
  lemma {:induction false} TableWellShaped(config: Config, capacity: nat, run: Run, n: nat, key: FlowKey)
    requires run.Valid(config, capacity) && n < |run.states| && key in run.states[n].flows
    ensures WellShaped(config, key, run.states[n].flows[key])
  {
    assert n > 0;
    var e := run.events[n - 1];
    StepEntry(config, capacity, n - 1, run.states[n - 1], e, run.outputs[n - 1], run.states[n], key);
    if Records(config, e, key) {
      RecordsAreWellShaped(config, e.packet, e.now);
    } else {
      TableWellShaped(config, capacity, run, n - 1, key);
    }
  }

  /** UDP entries are DNS entries, and the network worker never has to drop a packet. */
  lemma NetworkNeverDrops(config: Config, capacity: nat, run: Run, n: nat)
    requires run.Valid(config, capacity) && n < |run.events| && run.events[n].Network?
    ensures run.outputs[n].Sent?
    ensures forall key :: key in run.states[n].flows && key.protocol.Udp? ==>
              run.states[n].flows[key].originalPort == 53
  {
    var s := run.states[n];
    assert Step(config, capacity, n, s, run.events[n], run.outputs[n], run.states[n + 1]);
    forall key | key in s.flows ensures WellShaped(config, key, s.flows[key]) {
      TableWellShaped(config, capacity, run, n, key);
    }
  }

  // ---------------------------------------------------------------------------
  // The table remembers the latest destination
  // ---------------------------------------------------------------------------

  /** The destination of the most recent packet redirected for the key. */
  function Latest(config: Config, events: seq<Event>, key: FlowKey): Option<(IpAddr, U16)> {
    if events == [] then None
    else
      var e := events[|events| - 1];
      if Records(config, e, key) then
        var m := ParseMeta(e.packet).value;
        Some((m.dstIp, m.dstPort))
      else Latest(config, events[..|events| - 1], key)
  }

  lemma {:induction false} TableHoldsLatest(config: Config, capacity: nat, run: Run, n: nat, key: FlowKey)
    requires run.Valid(config, capacity) && n < |run.states| && key in run.states[n].flows
    ensures var v := run.states[n].flows[key];
            Latest(config, run.events[..n], key) == Some((v.originalIp, v.originalPort))
  {
    assert n > 0;
    assert run.events[..n][..n - 1] == run.events[..n - 1];
    var e := run.events[n - 1];
    StepEntry(config, capacity, n - 1, run.states[n - 1], e, run.outputs[n - 1], run.states[n], key);
    if !Records(config, e, key) {
      TableHoldsLatest(config, capacity, run, n - 1, key);
    }
  }

  /** Every relay dials, and every rewritten DNS reply claims to come from, the latest destination of its
      client, whatever ran in between. */
  lemma LookupsUseLatest(config: Config, capacity: nat, run: Run, n: nat, key: FlowKey)
    requires run.Valid(config, capacity) && n < |run.events|
    requires LooksUp(config, run.events[n], key) && key in run.states[n].flows
    ensures Latest(config, run.events[..n], key).Some?
    ensures var (ip, port) := Latest(config, run.events[..n], key).value;
            && (run.events[n].RelayLookup? ==> run.outputs[n] == Dialed(ip, port))
            && (run.events[n].Network? ==>
                  && run.outputs[n].Sent?
                  && ip.V4?
                  && ParseMeta(run.outputs[n].bytes) ==
                     Some(ParseMeta(run.events[n].packet).value.(srcIp := ip, srcPort := port)))
  {
    TableHoldsLatest(config, capacity, run, n, key);
    TableWellShaped(config, capacity, run, n, key);
    assert Step(config, capacity, n, run.states[n], run.events[n], run.outputs[n], run.states[n + 1]);
    if run.events[n].Network? {
      var v := run.states[n].flows[key];
      RewrittenSourceMeta(run.events[n].packet, v.originalIp.v4, v.originalPort);
    }
  }

  // ---------------------------------------------------------------------------
  // Recency
  // ---------------------------------------------------------------------------

  /** The clock reading of the last event before `n` that touched the key. */
  function LastTouch(config: Config, run: Run, n: nat, key: FlowKey): nat
    requires n < |run.states| <= |run.events| + 1
  {
    if n == 0 then 0
    else
      var e := run.events[n - 1];
      if Records(config, e, key) || (LooksUp(config, e, key) && key in run.states[n - 1].flows) then e.now
      else LastTouch(config, run, n - 1, key)
  }

  lemma {:induction false} StampIsLastTouch(config: Config, capacity: nat, run: Run, n: nat, key: FlowKey)
    requires run.Valid(config, capacity) && n < |run.states| && key in run.states[n].flows
    ensures run.states[n].flows[key].lastSeen == LastTouch(config, run, n, key)
  {
    assert n > 0;
    StepEntry(config, capacity, n - 1, run.states[n - 1], run.events[n - 1], run.outputs[n - 1], run.states[n], key);
    if !Records(config, run.events[n - 1], key) {
      StampIsLastTouch(config, capacity, run, n - 1, key);
    }
  }

  /** An entry pushed out by the insertion of another key had been touched no later than every other entry,
      and there were at least `capacity - 1` of those. */
  lemma EvictionIsOldestFirst(config: Config, capacity: nat, run: Run, n: nat, lost: FlowKey)
    requires run.Valid(config, capacity) && n < |run.events| && run.events[n].Forward?
    requires lost in run.states[n].flows && lost !in run.states[n + 1].flows
    ensures |run.states[n].flows| >= capacity
    ensures forall k :: k in run.states[n].flows ==> LastTouch(config, run, n, lost) <= LastTouch(config, run, n, k)
    ensures forall k :: k in run.states[n].flows && k != lost ==> k in run.states[n + 1].flows
  {
    var s, e, s' := run.states[n], run.events[n], run.states[n + 1];
    assert Step(config, capacity, n, s, e, run.outputs[n], s');
    var key, value := RedirectOf(config, e.packet).value.0, RecordOf(config, e.packet, e.now);
    var victim :| IsOldest(s.flows, victim) && s'.flows == (s.flows - {victim})[key := value];
    assert victim == lost;
    forall k | k in s.flows ensures s.flows[k].lastSeen == LastTouch(config, run, n, k) {
      StampIsLastTouch(config, capacity, run, n, k);
    }
  }

  /** The keys touched by the events from `from` up to `n`. */
  function TouchedSince(config: Config, run: Run, from: nat, n: nat): set<FlowKey>
    requires from <= n < |run.states| <= |run.events| + 1
    decreases n
  {
    if n == from then {}
    else
      var e, flows := run.events[n - 1], run.states[n - 1].flows;
      TouchedSince(config, run, from, n - 1)
      + (if e.Forward? && RedirectOf(config, e.packet).Some? then {RedirectOf(config, e.packet).value.0} else {})
      + (set k | k in flows && LooksUp(config, e, k))
  }

  lemma {:induction false} UntouchedEntry(config: Config, capacity: nat, run: Run, from: nat, n: nat, key: FlowKey)
    requires run.Valid(config, capacity) && from <= n < |run.states|
    requires key in run.states[n].flows && key !in TouchedSince(config, run, from, n)
    ensures key in run.states[from].flows && run.states[from].flows[key] == run.states[n].flows[key]
    decreases n
  {
    hide Step, RecordOf, RedirectOf, LooksUp;
    if n > from {
      StepEntry(config, capacity, n - 1, run.states[n - 1], run.events[n - 1], run.outputs[n - 1], run.states[n], key);
      UntouchedEntry(config, capacity, run, from, n - 1, key);
    }
  }

  lemma {:induction false} TouchedSinceGrows(config: Config, run: Run, from: nat, m: nat, n: nat)
    requires from <= m <= n < |run.states| <= |run.events| + 1
    ensures TouchedSince(config, run, from, m) <= TouchedSince(config, run, from, n)
    decreases n
  {
    if m < n {
      TouchedSinceGrows(config, run, from, m, n - 1);
    }
  }

  // ---------------------------------------------------------------------------
  // Survival
  // ---------------------------------------------------------------------------

  /** The other keys that can come to be as recent as an entry: those with no earlier stamp than it has at
      `from`, and those touched since. */
  function Overtakers(config: Config, run: Run, from: nat, n: nat, key: FlowKey): set<FlowKey>
    requires from <= n < |run.states| <= |run.events| + 1
  {
    var flows := run.states[from].flows;
    (if key in flows then Rivals(flows, key) else {}) + (TouchedSince(config, run, from, n) - {key})
  }

  /** The event does not record the key again, end a relay for it, stamp it with a clock reading before
      `t`, or prune entries idle since `t`. */
  predicate Spares(config: Config, e: Event, key: FlowKey, t: nat) {
    && !Records(config, e, key)
    && (e.RelayDone? ==> e.relay.key != key)
    && (LooksUp(config, e, key) ==> t <= e.now)
    && (e.Prune? ==> Idle(e.now, t) <= e.maxIdle)
  }

  predicate LeftAlone(config: Config, run: Run, from: nat, n: nat, key: FlowKey, t: nat)
    requires from <= n <= |run.events|
  {
    forall m :: from <= m < n ==> Spares(config, run.events[m], key, t)
  }

  /** Whatever is as recent as the entry now either was so at `from` or was touched since. */
  lemma RivalsAreOvertakers(config: Config, capacity: nat, run: Run, from: nat, n: nat, key: FlowKey)
    requires run.Valid(config, capacity) && from <= n < |run.states|
    requires key in run.states[from].flows && key in run.states[n].flows
    requires run.states[from].flows[key].lastSeen <= run.states[n].flows[key].lastSeen
    ensures Rivals(run.states[n].flows, key) <= Overtakers(config, run, from, n, key)
  {
    forall k | k in Rivals(run.states[n].flows, key) ensures k in Overtakers(config, run, from, n, key) {
      if k !in TouchedSince(config, run, from, n) {
        UntouchedEntry(config, capacity, run, from, n, k);
      }
    }
  }

  lemma FewerOvertakers(config: Config, run: Run, from: nat, n: nat, key: FlowKey)
    requires from < n < |run.states| <= |run.events| + 1
    ensures |Overtakers(config, run, from, n - 1, key)| <= |Overtakers(config, run, from, n, key)|
  {
    TouchedSinceGrows(config, run, from, n - 1, n);
    SubsetSize(Overtakers(config, run, from, n - 1, key), Overtakers(config, run, from, n, key));
  }

  /** The entry is there in both tables and differs at most in its last-seen stamp. */
  ghost predicate SameFlow(before: Flows, after: Flows, key: FlowKey) {
    key in before && key in after && after[key] == before[key].(lastSeen := after[key].lastSeen)
  }

  /** Until `capacity - 1` other keys have become as recent as it, an entry stays. */
  lemma {:induction false} EntrySurvives(
      config: Config, capacity: nat, run: Run, from: nat, n: nat, key: FlowKey, t: nat)
    requires run.Valid(config, capacity) && from <= n < |run.states|
    requires key in run.states[from].flows && run.states[from].flows[key].lastSeen == t
    requires LeftAlone(config, run, from, n, key, t)
    requires |Overtakers(config, run, from, n, key)| < capacity - 1
    ensures SameFlow(run.states[from].flows, run.states[n].flows, key)
    ensures t <= run.states[n].flows[key].lastSeen
    decreases n
  {
    hide Step, Spares, Overtakers;
    if n > from {
      FewerOvertakers(config, run, from, n, key);
      EntrySurvives(config, capacity, run, from, n - 1, key, t);
      RivalsAreOvertakers(config, capacity, run, from, n - 1, key);
      SubsetSize(Rivals(run.states[n - 1].flows, key), Overtakers(config, run, from, n - 1, key));
      StepKeeps(config, capacity, n - 1, run.states[n - 1], run.events[n - 1], run.outputs[n - 1], run.states[n],
                key, t);
    }
  }

  lemma StepKeeps(config: Config, capacity: nat, n: nat, s: State, e: Event, o: Output, s': State, key: FlowKey, t: nat)
    requires Step(config, capacity, n, s, e, o, s')
    requires key in s.flows && t <= s.flows[key].lastSeen
    requires |Rivals(s.flows, key)| < capacity - 1
    requires Spares(config, e, key, t)
    ensures SameFlow(s.flows, s'.flows, key) && t <= s'.flows[key].lastSeen
  {
    if e.Forward? && RedirectOf(config, e.packet).Some? {
      InsertKeepsOthers(s.flows, capacity, RedirectOf(config, e.packet).value.0,
                        RecordOf(config, e.packet, e.now), s'.flows, key);
    }
    assert key in s'.flows;
    StepEntry(config, capacity, n, s, e, o, s', key);
  }

  /** Every relay under way has found a flow: its client's TCP flow, at the event of its lookup. */
  lemma {:induction false} RelaysHaveLookedUp(config: Config, capacity: nat, run: Run, n: nat, relay: Relay)
    requires run.Valid(config, capacity) && n < |run.states| && relay in run.states[n].relays
    ensures relay.key.protocol.Tcp? && relay.since < n
    ensures run.events[relay.since].RelayLookup? && LooksUp(config, run.events[relay.since], relay.key)
    ensures relay.key in run.states[relay.since].flows
    ensures var v := run.states[relay.since].flows[relay.key];
            run.outputs[relay.since] == Dialed(v.originalIp, v.originalPort)
  {
    assert n > 0;
    var i := n - 1;
    assert Step(config, capacity, i, run.states[i], run.events[i], run.outputs[i], run.states[i + 1]);
    if relay in run.states[i].relays {
      RelaysHaveLookedUp(config, capacity, run, i, relay);
    }
  }

  lemma RedirectIsRecorded(config: Config, capacity: nat, run: Run, i: nat, m: Meta)
    requires run.Valid(config, capacity) && i < |run.events| && run.events[i].Forward?
    requires ParseMeta(run.events[i].packet) == Some(m) && ClassifyPacket(config, m).Redirects()
    ensures var key, t, d := ClientKey(m), run.events[i].now, ClassifyPacket(config, m);
            && key in run.states[i + 1].flows
            && run.states[i + 1].flows[key] == NewFlow(m.dstIp, m.dstPort, d.localIp, d.localPort, t)
            && run.outputs[i] == Emitted(Forwarded(config, run.events[i].packet))
  {
    var s, e, s' := run.states[i], run.events[i], run.states[i + 1];
    assert Step(config, capacity, i, s, e, run.outputs[i], s');
    var key, value := ClientKey(m), RecordOf(config, e.packet, e.now);
    InsertKeepsOthers(s.flows, capacity, key, value, s'.flows, key);
  }

  // ---------------------------------------------------------------------------
  // Round trips
  // ---------------------------------------------------------------------------

  /** What a DNS client and the local listener exchange. */
  ghost predicate DnsExchange(config: Config, query: Event, m: Meta, reply: Event) {
    && config.gateway.V4? && config.policy.dns.DnsProxy?
    && m.protocol.Udp? && m.dstPort == 53 && IsHotspotClient(config.subnet, m.srcIp)
    && query.Forward? && ParseMeta(query.packet) == Some(m)
    && reply.Network?
    && ParseMeta(reply.packet) == Some(Meta(Udp, config.gateway, config.dnsProxy, m.srcIp, m.srcPort))
  }

  lemma QueryIsRedirected(config: Config, query: Event, m: Meta, reply: Event)
    requires DnsExchange(config, query, m, reply)
    ensures ClassifyPacket(config, m) == RedirectDns(config.gateway, config.dnsProxy)
    ensures RedirectOf(config, query.packet) == Some((ClientKey(m), config.gateway, config.dnsProxy))
    ensures ReplyKey(config, reply.packet) == Some(ClientKey(m))
    ensures m.dstIp.V4?
  {
  }

  lemma QueryLeaves(config: Config, query: Event, m: Meta, reply: Event)
    requires DnsExchange(config, query, m, reply)
    ensures Forwarded(config, query.packet).Some?
    ensures var sent := Forwarded(config, query.packet).value;
            && ParseMeta(sent) == Some(Meta(Udp, m.srcIp, m.srcPort, config.gateway, config.dnsProxy))
            && Canonical(sent)
  {
    QueryIsRedirected(config, query, m, reply);
    ForwardedMeta(config, query.packet);
    RewrittenIsCanonical(query.packet, config.gateway.v4, config.dnsProxy);
  }

  lemma ReplyReturns(config: Config, query: Event, m: Meta, reply: Event, flows: Flows)
    requires DnsExchange(config, query, m, reply)
    requires ClientKey(m) in flows
    requires flows[ClientKey(m)].originalIp == m.dstIp && flows[ClientKey(m)].originalPort == 53
    ensures Returned(config, reply.packet, flows).Some?
    ensures var sent := Returned(config, reply.packet, flows).value;
            && ParseMeta(sent) == Some(Meta(Udp, m.dstIp, 53, m.srcIp, m.srcPort))
            && Canonical(sent)
  {
    QueryIsRedirected(config, query, m, reply);
    assert Returned(config, reply.packet, flows) == Some(RewrittenSource(reply.packet, m.dstIp.v4, 53));
    RewrittenSourceMeta(reply.packet, m.dstIp.v4, 53);
    RewrittenIsCanonical(reply.packet, m.dstIp.v4, 53);
  }

  lemma NetworkOutput(config: Config, capacity: nat, run: Run, n: nat)
    requires run.Valid(config, capacity) && n < |run.events| && run.events[n].Network?
    ensures run.outputs[n] == Emitted(Returned(config, run.events[n].packet, run.states[n].flows))
  {
    assert Step(config, capacity, n, run.states[n], run.events[n], run.outputs[n], run.states[n + 1]);
  }

  lemma RelayLookupOutput(config: Config, capacity: nat, run: Run, n: nat, key: FlowKey)
    requires run.Valid(config, capacity) && n < |run.events| && run.events[n].RelayLookup?
    requires key == FlowKey(Tcp, run.events[n].clientIp, run.events[n].clientPort) && key in run.states[n].flows
    ensures run.outputs[n] == Dialed(run.states[n].flows[key].originalIp, run.states[n].flows[key].originalPort)
  {
    assert Step(config, capacity, n, run.states[n], run.events[n], run.outputs[n], run.states[n + 1]);
  }

  /** A client's DNS query and the answer from the local listener, with any other traffic in between: the
      query leaves addressed to the listener, and the answer reaches the client from the very endpoint the
      client had asked, provided fewer than `capacity - 1` other flows became as recent meanwhile. */
  lemma DnsRoundTrip(config: Config, capacity: nat, run: Run, i: nat, j: nat, m: Meta)
    requires run.Valid(config, capacity) && i < j < |run.events|
    requires DnsExchange(config, run.events[i], m, run.events[j])
    requires LeftAlone(config, run, i + 1, j, ClientKey(m), run.events[i].now)
    requires |Overtakers(config, run, i + 1, j, ClientKey(m))| < capacity - 1
    ensures run.outputs[i].Sent? && run.outputs[j].Sent?
    ensures ParseMeta(run.outputs[i].bytes) == Some(Meta(Udp, m.srcIp, m.srcPort, config.gateway, config.dnsProxy))
    ensures ParseMeta(run.outputs[j].bytes) == Some(Meta(Udp, m.dstIp, 53, m.srcIp, m.srcPort))
    ensures Canonical(run.outputs[i].bytes) && Canonical(run.outputs[j].bytes)
  {
    hide Step, Spares, Overtakers, Forwarded, Returned, ClassifyPacket, ParseMeta;
    QueryLeaves(config, run.events[i], m, run.events[j]);
    QueryIsRedirected(config, run.events[i], m, run.events[j]);
    RedirectIsRecorded(config, capacity, run, i, m);
    EntrySurvives(config, capacity, run, i + 1, j, ClientKey(m), run.events[i].now);
    ReplyReturns(config, run.events[i], m, run.events[j], run.states[j].flows);
    NetworkOutput(config, capacity, run, j);
  }

  /** A query from a client to a resolver, and the listener's answer right behind it. */
  ghost function QueryAndAnswer(config: Config, client: Ipv4, port: U16, resolver: Ipv4, now: nat): Run
    requires config.gateway.V4?
  {
    var query := Datagram(Udp, client, port, resolver, 53);
    var reply := Datagram(Udp, config.gateway.v4, config.dnsProxy, client, port);
    var key := FlowKey(Udp, V4(client), port);
    var flows := map[key := NewFlow(V4(resolver), 53, config.gateway, config.dnsProxy, now)];
    Run([State(map[], {}), State(flows, {}), State(flows, {})],
        [Forward(query, now), Network(reply, now)],
        [Emitted(Forwarded(config, query)), Emitted(Returned(config, reply, flows))])
  }

  lemma QueryAndAnswerIsExchange(config: Config, client: Ipv4, port: U16, resolver: Ipv4, now: nat)
    requires config.gateway.V4? && config.policy.dns.DnsProxy? && Contains(config.subnet, client)
    ensures var run := QueryAndAnswer(config, client, port, resolver, now);
            DnsExchange(config, run.events[0], Meta(Udp, V4(client), port, V4(resolver), 53), run.events[1])
  {
    hide Datagram, ParseMeta;
    DatagramMeta(Udp, client, port, resolver, 53);
    DatagramMeta(Udp, config.gateway.v4, config.dnsProxy, client, port);
  }

  lemma QueryAndAnswerIsRun(config: Config, capacity: nat, client: Ipv4, port: U16, resolver: Ipv4, now: nat)
    requires config.gateway.V4? && config.policy.dns.DnsProxy? && Contains(config.subnet, client)
    ensures QueryAndAnswer(config, client, port, resolver, now).Valid(config, capacity)
  {
    hide Datagram, ParseMeta, Forwarded, Returned;
    var run, m := QueryAndAnswer(config, client, port, resolver, now), Meta(Udp, V4(client), port, V4(resolver), 53);
    QueryAndAnswerIsExchange(config, client, port, resolver, now);
    QueryIsRedirected(config, run.events[0], m, run.events[1]);
    var key, flows := ClientKey(m), run.states[1].flows;
    assert RecordOf(config, run.events[0].packet, now) == flows[key];
    ReplaceOnlyEntry(capacity, key, flows[key], flows[key]);
    assert Touched(flows, key, now) == flows;
    assert Step(config, capacity, 0, run.states[0], run.events[0], run.outputs[0], run.states[1]);
    assert Step(config, capacity, 1, run.states[1], run.events[1], run.outputs[1], run.states[2]);
  }

  /** In every configuration that proxies DNS, every client gets such a round trip with every resolver. */
  lemma DnsRoundTripHappens(config: Config, capacity: nat, client: Ipv4, port: U16, resolver: Ipv4, now: nat)
    requires config.gateway.V4? && config.policy.dns.DnsProxy? && Contains(config.subnet, client)
    requires capacity >= 2
    ensures var run := QueryAndAnswer(config, client, port, resolver, now);
            && run.Valid(config, capacity)
            && run.outputs[0].Sent? && run.outputs[1].Sent?
            && ParseMeta(run.outputs[0].bytes) == Some(Meta(Udp, V4(client), port, config.gateway, config.dnsProxy))
            && ParseMeta(run.outputs[1].bytes) == Some(Meta(Udp, V4(resolver), 53, V4(client), port))
  {
    hide Datagram, ParseMeta, Forwarded, Returned, Step;
    var run, m := QueryAndAnswer(config, client, port, resolver, now), Meta(Udp, V4(client), port, V4(resolver), 53);
    QueryAndAnswerIsExchange(config, client, port, resolver, now);
    QueryAndAnswerIsRun(config, capacity, client, port, resolver, now);
    assert Overtakers(config, run, 1, 1, ClientKey(m)) == {};
    DnsRoundTrip(config, capacity, run, 0, 1, m);
  }

  lemma {:induction false} LatestStays(config: Config, events: seq<Event>, i: nat, j: nat, key: FlowKey)
    requires i < j <= |events| && Records(config, events[i], key)
    requires forall n :: i < n < j ==> !Records(config, events[n], key)
    ensures Latest(config, events[..j], key) == Latest(config, events[..i + 1], key)
    decreases j
  {
    if j > i + 1 {
      assert events[..j][..j - 1] == events[..j - 1];
      LatestStays(config, events, i, j - 1, key);
    }
  }

  /** Whatever happened in between: the answer goes back with the endpoint the client had asked exactly if its
      flow is still in the table and no later query from the same port went elsewhere; or, the flow being gone,
      if the client had asked the listener itself. */
  lemma DnsReplyRestoredIff(config: Config, capacity: nat, run: Run, i: nat, j: nat, m: Meta)
    requires run.Valid(config, capacity) && i < j < |run.events|
    requires DnsExchange(config, run.events[i], m, run.events[j])
    ensures run.outputs[j].Sent?
    ensures ParseMeta(run.outputs[j].bytes) == Some(Meta(Udp, m.dstIp, 53, m.srcIp, m.srcPort)) <==>
            if ClientKey(m) in run.states[j].flows then
              Latest(config, run.events[..j], ClientKey(m)) == Some((m.dstIp, 53))
            else
              m.dstIp == config.gateway && config.dnsProxy == 53
  {
    hide Step, Forwarded, Returned, ClassifyPacket, ParseMeta;
    var key, query, reply := ClientKey(m), run.events[i], run.events[j];
    QueryIsRedirected(config, query, m, reply);
    NetworkOutput(config, capacity, run, j);
    if key in run.states[j].flows {
      LookupsUseLatest(config, capacity, run, j, key);
      var (ip, sourcePort) := Latest(config, run.events[..j], key).value;
      assert Latest(config, run.events[..j], key) == Some((ip, sourcePort));
    } else {
      assert Returned(config, reply.packet, run.states[j].flows) == Some(reply.packet) by {
        ReplyUntouched(config, reply.packet, key, run.states[j].flows);
      }
    }
  }

  /** As long as the client does not ask again from the same port, having the flow is enough. */
  lemma DnsReplyRestoredUnlessReused(config: Config, capacity: nat, run: Run, i: nat, j: nat, m: Meta)
    requires run.Valid(config, capacity) && i < j < |run.events|
    requires DnsExchange(config, run.events[i], m, run.events[j])
    requires forall n :: i < n < j ==> !Records(config, run.events[n], ClientKey(m))
    requires ClientKey(m) in run.states[j].flows
    ensures run.outputs[j].Sent?
    ensures ParseMeta(run.outputs[j].bytes) == Some(Meta(Udp, m.dstIp, 53, m.srcIp, m.srcPort))
  {
    hide Step, ClassifyPacket, ParseMeta;
    QueryIsRedirected(config, run.events[i], m, run.events[j]);
    LatestStays(config, run.events, i, j, ClientKey(m));
    assert run.events[..i + 1][i] == run.events[i];
    DnsReplyRestoredIff(config, capacity, run, i, j, m);
  }

  /** A client asks two resolvers from one port, then the listener answers the first query. */
  ghost function TwoResolvers(config: Config, client: Ipv4, port: U16, first: Ipv4, second: Ipv4, now: nat): Run
    requires config.gateway.V4?
  {
    var query, query' := Datagram(Udp, client, port, first, 53), Datagram(Udp, client, port, second, 53);
    var reply := Datagram(Udp, config.gateway.v4, config.dnsProxy, client, port);
    var key := FlowKey(Udp, V4(client), port);
    var flows := map[key := NewFlow(V4(first), 53, config.gateway, config.dnsProxy, now)];
    var flows' := map[key := NewFlow(V4(second), 53, config.gateway, config.dnsProxy, now)];
    Run([State(map[], {}), State(flows, {}), State(flows', {}), State(flows', {})],
        [Forward(query, now), Forward(query', now), Network(reply, now)],
        [Emitted(Forwarded(config, query)), Emitted(Forwarded(config, query')),
         Emitted(Returned(config, reply, flows'))])
  }

  lemma TwoResolversIsRun(
      config: Config, capacity: nat, client: Ipv4, port: U16, first: Ipv4, second: Ipv4, now: nat)
    requires config.gateway.V4? && config.policy.dns.DnsProxy? && Contains(config.subnet, client)
    ensures var run := TwoResolvers(config, client, port, first, second, now);
            && run.Valid(config, capacity)
            && DnsExchange(config, run.events[0], Meta(Udp, V4(client), port, V4(first), 53), run.events[2])
            && DnsExchange(config, run.events[1], Meta(Udp, V4(client), port, V4(second), 53), run.events[2])
  {
    hide Datagram, ParseMeta, Forwarded, Returned;
    var run := TwoResolvers(config, client, port, first, second, now);
    var m, m' := Meta(Udp, V4(client), port, V4(first), 53), Meta(Udp, V4(client), port, V4(second), 53);
    DatagramMeta(Udp, client, port, first, 53);
    DatagramMeta(Udp, client, port, second, 53);
    DatagramMeta(Udp, config.gateway.v4, config.dnsProxy, client, port);
    QueryIsRedirected(config, run.events[0], m, run.events[2]);
    QueryIsRedirected(config, run.events[1], m', run.events[2]);
    var key, flows, flows' := ClientKey(m), run.states[1].flows, run.states[2].flows;
    assert RecordOf(config, run.events[0].packet, now) == flows[key];
    assert RecordOf(config, run.events[1].packet, now) == flows'[key];
    ReplaceOnlyEntry(capacity, key, flows[key], flows'[key]);
    assert Touched(flows', key, now) == flows';
    assert Step(config, capacity, 0, run.states[0], run.events[0], run.outputs[0], run.states[1]);
    assert Step(config, capacity, 1, run.states[1], run.events[1], run.outputs[1], run.states[2]);
    assert Step(config, capacity, 2, run.states[2], run.events[2], run.outputs[2], run.states[3]);
  }

  /** The answer comes back from the second resolver, although the flow was never lost. */
  lemma TwoResolversMixUp(
      config: Config, capacity: nat, client: Ipv4, port: U16, first: Ipv4, second: Ipv4, now: nat)
    requires config.gateway.V4? && config.policy.dns.DnsProxy? && Contains(config.subnet, client)
    requires first != second
    ensures var run := TwoResolvers(config, client, port, first, second, now);
            && run.Valid(config, capacity) && run.outputs[2].Sent?
            && ParseMeta(run.outputs[2].bytes) == Some(Meta(Udp, V4(second), 53, V4(client), port))
            && ParseMeta(run.outputs[2].bytes) != Some(Meta(Udp, V4(first), 53, V4(client), port))
  {
    hide Datagram, ParseMeta, Forwarded, Returned, Step, DnsExchange;
    var run := TwoResolvers(config, client, port, first, second, now);
    TwoResolversIsRun(config, capacity, client, port, first, second, now);
    DnsReplyRestoredUnlessReused(config, capacity, run, 1, 2, Meta(Udp, V4(client), port, V4(second), 53));
  }

  lemma ReplyUntouched(config: Config, p: seq<Byte>, key: FlowKey, flows: Flows)
    requires ReplyKey(config, p) == Some(key) && key !in flows
    ensures Returned(config, p, flows) == Some(p)
  {
  }

  /** For DNS flows the part of `LeftAlone` that speaks of relays always holds: a relay ends TCP flows only. */
  lemma RelaysLeaveDnsAlone(config: Config, capacity: nat, run: Run, n: nat, key: FlowKey)
    requires run.Valid(config, capacity) && n < |run.events| && key.protocol.Udp?
    ensures run.events[n].RelayDone? ==> run.events[n].relay.key != key
  {
    if run.events[n].RelayDone? {
      assert Step(config, capacity, n, run.states[n], run.events[n], run.outputs[n], run.states[n + 1]);
      RelaysHaveLookedUp(config, capacity, run, n, run.events[n].relay);
    }
  }

  /** The relay of a redirected TCP connection dials the address the client had asked for. */
  lemma RelayDialsOriginal(config: Config, capacity: nat, run: Run, i: nat, j: nat, m: Meta)
    requires run.Valid(config, capacity) && i < j < |run.events|
    requires run.events[i].Forward? && ParseMeta(run.events[i].packet) == Some(m)
    requires m.protocol.Tcp? && ClassifyPacket(config, m).Redirects()
    requires LeftAlone(config, run, i + 1, j, ClientKey(m), run.events[i].now)
    requires |Overtakers(config, run, i + 1, j, ClientKey(m))| < capacity - 1
    requires run.events[j].RelayLookup? && run.events[j].clientIp == m.srcIp && run.events[j].clientPort == m.srcPort
    ensures run.outputs[j] == Dialed(m.dstIp, m.dstPort)
  {
    hide Step, Spares, Overtakers, Forwarded, ClassifyPacket, ParseMeta;
    RedirectIsRecorded(config, capacity, run, i, m);
    EntrySurvives(config, capacity, run, i + 1, j, ClientKey(m), run.events[i].now);
    RelayLookupOutput(config, capacity, run, j, ClientKey(m));
  }

  /** Whatever has happened before: a client's relay dials an address exactly if the client's flow is in the
      table and the latest of its packets to be redirected was addressed there; it finds no flow exactly if
      there is none. */
  lemma RelayDialsOriginalIff(config: Config, capacity: nat, run: Run, j: nat, key: FlowKey, ip: IpAddr, port: U16)
    requires run.Valid(config, capacity) && j < |run.events|
    requires run.events[j].RelayLookup? && key == FlowKey(Tcp, run.events[j].clientIp, run.events[j].clientPort)
    ensures run.outputs[j] == Dialed(ip, port) <==>
            key in run.states[j].flows && Latest(config, run.events[..j], key) == Some((ip, port))
    ensures run.outputs[j] == NoFlow <==> key !in run.states[j].flows
  {
    assert Step(config, capacity, j, run.states[j], run.events[j], run.outputs[j], run.states[j + 1]);
    if key in run.states[j].flows {
      LookupsUseLatest(config, capacity, run, j, key);
      var (dialedIp, dialedPort) := Latest(config, run.events[..j], key).value;
      assert Latest(config, run.events[..j], key) == Some((dialedIp, dialedPort));
    }
  }

  /** As long as no other packet of the client's port is redirected, that is the address of this one. */
  lemma RelayDialsUnlessReused(config: Config, capacity: nat, run: Run, i: nat, j: nat, m: Meta)
    requires run.Valid(config, capacity) && i < j < |run.events|
    requires run.events[i].Forward? && ParseMeta(run.events[i].packet) == Some(m)
    requires m.protocol.Tcp? && ClassifyPacket(config, m).Redirects()
    requires forall n :: i < n < j ==> !Records(config, run.events[n], ClientKey(m))
    requires run.events[j].RelayLookup? && run.events[j].clientIp == m.srcIp && run.events[j].clientPort == m.srcPort
    ensures run.outputs[j] == Dialed(m.dstIp, m.dstPort) <==> ClientKey(m) in run.states[j].flows
  {
    hide Step, ClassifyPacket, ParseMeta;
    LatestStays(config, run.events, i, j, ClientKey(m));
    assert run.events[..i + 1][i] == run.events[i];
    RelayDialsOriginalIff(config, capacity, run, j, ClientKey(m), m.dstIp, m.dstPort);
  }

  // ---------------------------------------------------------------------------
  // Whose flow a relay's end removes
  // ---------------------------------------------------------------------------

  /** The key's entry at `n` is the one that event `o` recorded. */
  ghost predicate RecordedBy(config: Config, run: Run, n: nat, key: FlowKey, o: nat)
    requires n < |run.states| <= |run.events| + 1
  {
    && o < n && Records(config, run.events[o], key)
    && (forall k :: o < k < n ==> !Records(config, run.events[k], key))
    && key in run.states[n].flows
    && run.states[n].flows[key] ==
       RecordOf(config, run.events[o].packet, run.events[o].now).(lastSeen := run.states[n].flows[key].lastSeen)
  }

  lemma {:induction false} EntryHasRecord(config: Config, capacity: nat, run: Run, n: nat, key: FlowKey)
    returns (o: nat)
    requires run.Valid(config, capacity) && n < |run.states| && key in run.states[n].flows
    ensures RecordedBy(config, run, n, key, o)
  {
    hide Step, RecordOf, RedirectOf, LooksUp;
    assert n > 0;
    StepEntry(config, capacity, n - 1, run.states[n - 1], run.events[n - 1], run.outputs[n - 1], run.states[n], key);
    if Records(config, run.events[n - 1], key) {
      o := n - 1;
    } else {
      o := EntryHasRecord(config, capacity, run, n - 1, key);
    }
  }

  /** A relay ends while its key is in the table. The entry it removes leads to the address it had dialed exactly
      if the latest packet redirected for the client's port is addressed where it was at the lookup. Later
      packets of the same connection record the key again and do not matter; a packet to another address does,
      because the removal goes by key. */
  lemma RelayEndsOwnFlowIff(config: Config, capacity: nat, run: Run, n: nat, relay: Relay)
    requires run.Valid(config, capacity) && n < |run.events|
    requires run.events[n] == RelayDone(relay) && relay.key in run.states[n].flows
    ensures relay.since < n && run.outputs[relay.since].Dialed?
    ensures run.states[n + 1].flows == run.states[n].flows - {relay.key}
    ensures var v := run.states[n].flows[relay.key];
            run.outputs[relay.since] == Dialed(v.originalIp, v.originalPort) <==>
            Latest(config, run.events[..n], relay.key) == Latest(config, run.events[..relay.since], relay.key)
  {
    assert Step(config, capacity, n, run.states[n], run.events[n], run.outputs[n], run.states[n + 1]);
    RelaysHaveLookedUp(config, capacity, run, n, relay);
    TableHoldsLatest(config, capacity, run, relay.since, relay.key);
    TableHoldsLatest(config, capacity, run, n, relay.key);
  }

  // ---------------------------------------------------------------------------
  // A run in which a relay's end removes another connection's flow
  // ---------------------------------------------------------------------------

  /** A client opens a connection, reuses its port for a second one while the first relay is still copying,
      and the first relay ends: it removes by key, so the second connection's relay finds no flow. */
  ghost function PortReuse(config: Config, first: seq<Byte>, second: seq<Byte>, now: nat): Run
    requires RedirectOf(config, first).Some?
    requires RedirectOf(config, second).Some? && RedirectOf(config, second).value.0 == RedirectOf(config, first).value.0
  {
    var key := RedirectOf(config, first).value.0;
    var v, v' := RecordOf(config, first, now), RecordOf(config, second, now);
    Run([State(map[], {}),
         State(map[key := v], {}),
         State(map[key := v], {Relay(key, 1)}),
         State(map[key := v'], {Relay(key, 1)}),
         State(map[], {}),
         State(map[], {})],
        [Forward(first, now),
         RelayLookup(key.clientIp, key.clientPort, now),
         Forward(second, now),
         RelayDone(Relay(key, 1)),
         RelayLookup(key.clientIp, key.clientPort, now)],
        [Emitted(Forwarded(config, first)),
         Dialed(v.originalIp, v.originalPort),
         Emitted(Forwarded(config, second)),
         Quiet,
         NoFlow])
  }

  lemma ReplaceOnlyEntry(capacity: nat, key: FlowKey, v: FlowValue, v': FlowValue)
    ensures Inserted(map[key := v], capacity, key, v', map[key := v'])
    ensures Inserted(map[], capacity, key, v, map[key := v])
  {
    var before := map[key := v];
    assert IsOldest(before, key);
    assert (before - {key})[key := v'] == map[key := v'];
    assert before[key := v'] == map[key := v'];
  }

  lemma PortReuseFirstStep(config: Config, capacity: nat, first: seq<Byte>, second: seq<Byte>, now: nat)
    requires RedirectOf(config, first).Some? && RedirectOf(config, first).value.0.protocol.Tcp?
    requires RedirectOf(config, second).Some? && RedirectOf(config, second).value.0 == RedirectOf(config, first).value.0
    ensures var run := PortReuse(config, first, second, now);
            Step(config, capacity, 0, run.states[0], run.events[0], run.outputs[0], run.states[1])
  {
    hide RedirectOf, RecordOf, Forwarded;
    var key := RedirectOf(config, first).value.0;
    ReplaceOnlyEntry(capacity, key, RecordOf(config, first, now), RecordOf(config, second, now));
  }

  lemma PortReuseLaterSteps(config: Config, capacity: nat, first: seq<Byte>, second: seq<Byte>, now: nat)
    requires RedirectOf(config, first).Some? && RedirectOf(config, first).value.0.protocol.Tcp?
    requires RedirectOf(config, second).Some? && RedirectOf(config, second).value.0 == RedirectOf(config, first).value.0
    ensures var run := PortReuse(config, first, second, now);
            forall n :: 1 <= n < 5 ==>
              Step(config, capacity, n, run.states[n], run.events[n], run.outputs[n], run.states[n + 1])
  {
    hide RedirectOf, ParseMeta, Forwarded;
    var run := PortReuse(config, first, second, now);
    var key := RedirectOf(config, first).value.0;
    ReplaceOnlyEntry(capacity, key, RecordOf(config, first, now), RecordOf(config, second, now));
    assert Touched(run.states[1].flows, key, now) == run.states[2].flows;
    assert Step(config, capacity, 1, run.states[1], run.events[1], run.outputs[1], run.states[2]);
    assert Step(config, capacity, 2, run.states[2], run.events[2], run.outputs[2], run.states[3]);
    assert run.states[3].flows - {key} == map[] && run.states[3].relays - {Relay(key, 1)} == {};
    assert Step(config, capacity, 3, run.states[3], run.events[3], run.outputs[3], run.states[4]);
    assert Step(config, capacity, 4, run.states[4], run.events[4], run.outputs[4], run.states[5]);
  }

  lemma LateRelayEndLosesNewFlow(config: Config, capacity: nat, first: seq<Byte>, second: seq<Byte>, now: nat)
    requires RedirectOf(config, first).Some? && RedirectOf(config, first).value.0.protocol.Tcp?
    requires RedirectOf(config, second).Some? && RedirectOf(config, second).value.0 == RedirectOf(config, first).value.0
    ensures PortReuse(config, first, second, now).Valid(config, capacity)
    ensures PortReuse(config, first, second, now).outputs[4] == NoFlow
  {
    hide Step;
    PortReuseFirstStep(config, capacity, first, second, now);
    PortReuseLaterSteps(config, capacity, first, second, now);
  }

  /** A client's first packet to a public server. */
  function Opening(config: Config, client: Ipv4, port: U16, serverPort: U16): seq<Byte> {
    Datagram(Tcp, client, port, Elsewhere(config), serverPort)
  }

  lemma OpeningIsRedirected(config: Config, client: Ipv4, port: U16, serverPort: U16, now: nat)
    requires config.policy.tcp.TcpProxy? && IsHotspotClient(config.subnet, V4(client)) && serverPort != 53
    ensures RedirectOf(config, Opening(config, client, port, serverPort)) ==
            Some((FlowKey(Tcp, V4(client), port), config.gateway, config.transparentTcp))
    ensures var v := RecordOf(config, Opening(config, client, port, serverPort), now);
            v.originalIp == V4(Elsewhere(config)) && v.originalPort == serverPort
  {
    hide Datagram, Elsewhere, ParseMeta, IsClient;
    hide InGroupBlock, InPrivateBlock, IsHotspotClient, IsMulticastOrBroadcast, IsPrivateLan;
    DatagramMeta(Tcp, client, port, Elsewhere(config), serverPort);
    TestsMean(config, Meta(Tcp, V4(client), port, V4(Elsewhere(config)), serverPort));
  }

  lemma RedirectIsSent(config: Config, p: seq<Byte>)
    requires RedirectOf(config, p).Some? && config.gateway.V4?
    ensures Forwarded(config, p).Some?
  {
  }

  /** Under the TCP proxy policy this happens to every client that opens a web connection and, on the same port,
      a second one to another port of the server: the first relay had dialed port 80, and its end removes the
      entry that leads to port 443. */
  lemma PortReuseHappens(config: Config, capacity: nat, client: Ipv4, port: U16, now: nat)
    requires config.gateway.V4? && config.policy.tcp.TcpProxy? && IsHotspotClient(config.subnet, V4(client))
    ensures var key, server := FlowKey(Tcp, V4(client), port), V4(Elsewhere(config));
            var first, second := Opening(config, client, port, 80), Opening(config, client, port, 443);
            && RedirectOf(config, first) == Some((key, config.gateway, config.transparentTcp))
            && RedirectOf(config, second) == Some((key, config.gateway, config.transparentTcp))
            && var run := PortReuse(config, first, second, now);
            && run.Valid(config, capacity)
            && run.outputs[0].Sent? && run.outputs[2].Sent?
            && run.outputs[1] == Dialed(server, 80)
            && Latest(config, run.events[..1], key) == Some((server, 80))
            && Latest(config, run.events[..3], key) == Some((server, 443))
            && key in run.states[3].flows && run.states[3].flows[key].originalPort == 443
            && key !in run.states[4].flows
            && run.outputs[4] == NoFlow
  {
    hide Opening, Elsewhere, Step, RedirectOf, RecordOf, Records, Latest, Forwarded;
    OpeningIsRedirected(config, client, port, 80, now);
    OpeningIsRedirected(config, client, port, 443, now);
    var first, second := Opening(config, client, port, 80), Opening(config, client, port, 443);
    var run, key := PortReuse(config, first, second, now), FlowKey(Tcp, V4(client), port);
    LateRelayEndLosesNewFlow(config, capacity, first, second, now);
    RedirectIsSent(config, first);
    RedirectIsSent(config, second);
    TableHoldsLatest(config, capacity, run, 1, key);
    TableHoldsLatest(config, capacity, run, 3, key);
  }
}

# A verified model of the gateway's datapath, parsers and relays

HProxy turns a Windows hotspot into a transparent proxy. Two packet workers capture IPv4 traffic: the forward
worker redirects clients' TCP connections and DNS queries to local listeners and remembers where they were
going in a bounded flow table; the network worker rewrites DNS answers back. TCP relays look the destination up
and remove the flow when they end. In gateway mode the DNS listener answers every name with the gateway
address, and the HTTP and TLS listeners find the real host in the request head or the ClientHello and tunnel
the client's stream through a SOCKS5 or CONNECT proxy. This project models these parts and proves what they
guarantee.

Run `dafny verify dfyconfig.toml` with Dafny 4.11.

## How it is organised

| module | what it holds |
|---|---|
| `Wrappers`, `Bytes`, `Addresses`, `Utf8`, `Utf8Laws`, `Text` | options and results, big-endian words, IP addresses, UTF-8 and white space as properties of characters, splitting and decimals |
| `Cidr`, `Blocks` | subnet masks with 32-bit shifts, the capture interval, and what they mean; the address blocks of the policies |
| `Checksum` | the Internet checksum: 32-bit accumulator, end-around carry, odd byte |
| `Packet`, `PacketFormat`, `NatLaws`, `ReceiverLaws` | parsing and in-place rewriting of packets; the datagram format as a serializer; the laws of rewriting; rewritten packets as a receiver checks them |
| `Flow` | the flow table: a class with a map, a capacity and a clock passed in |
| `Classifier`, `Redirector`, `RedirectLaws` | the decision for one packet; the two packet processors; what one pass guarantees |
| `Datapath` | every interleaving of both workers, the relays and pruning on one table |
| `DnsWire`, `Dns` | a reference codec for RFC 1035; the query parser and the answer builder |
| `Stream`, `Http`, `HttpHost`, `HttpGateway` | sockets that deliver bytes in arbitrary pieces; the head reader and its growing buffer; the Host header; the HTTP relay |
| `Destinations`, `AddressText`, `Socks5`, `HttpConnect` | tunnel destinations, their text, and reading it back; the SOCKS5 handshake against RFC 1928 and RFC 1929; the CONNECT handshake |
| `Tls`, `TlsLaws`, `TlsConfinement`, `TlsGateway` | the ClientHello walkers; their exactness; how far they look; the buffered TLS relay |

Code that updates a buffer, a table or a socket is modelled by methods over arrays and classes, proved equal to
a function of the old state; the laws are then lemmas about those functions. Nondeterministic choices stand for
what the program does not control: the hash map's order, the size of each read, the interleaving of tasks. A
worker's processor and `relay_one`'s lookup each touch the table once, under its lock, so each is one step of a
run.

Checksum facts are stated over the bytes up to the total length, because a first fragment is rewritten too.

## Where the code and what is said about it part

* The repository's own top-level README promises, in its line 182, that QUIC on UDP/443 is dropped by policy.
  The flag changes nothing: UDP other than DNS and, under one policy, NTP is dropped with it and without it, and
  UDP/443 to the gateway, to multicast or broadcast, to the upstream proxy or to a bypassed private address is
  let out either way. See `RedirectLaws.RefusedIff` and `RedirectLaws.PrivateQuicIsSent`.
* For TCP and UDP packets that parse, the no-leak reading of the policies holds exactly when neither TCP nor DNS
  is set to direct; private destinations are let out when the bypass is on. See
  `RedirectLaws.NoLeakIffNothingDirect`. A client's packet that does not parse (a later fragment, another
  protocol, a cut-off transport header) is sent on under every policy. See `RedirectLaws.GetsOutIff` and
  `RedirectLaws.FragmentGetsOut`.
* `rewrite_destination` and `rewrite_source` compare only the buffer with the transport header, not the total
  length, so the transport checksum is guaranteed exactly for packets whose total length covers the checksum
  field, whatever the new endpoint. A packet that is not covered needs buffer bytes beyond its total length. See
  `NatLaws.DestinationVerifiesIffCovered`, `NatLaws.SourceVerifiesIffCovered`, `NatLaws.RedirectVerifiesIff` and,
  for such a packet, `NatLaws.ShortDatagramIsAccepted`.
* Port 53 is tested before the gateway address. A packet already redirected to local port 53 and captured again
  therefore overwrites its own flow. See `RedirectLaws.RecaptureIsNoOpIff`.
* `insert` evicts from a full table even when the key is already in it, so a replacement can cost another flow;
  it is sure not to exactly when there is room or the replaced entry is the only oldest one. See
  `Flow.InsertSparesOthersIff` and `Flow.ReplacementCostsOther`.
* `relay_one` removes by key. Every packet of a connection records its flow again, which does no harm; but when
  the client's port has since been redirected to another address, the end of the old relay removes the entry that
  leads there. The entry removed leads to the address that was dialed exactly when the latest redirected packet of
  the port is addressed where it was at the lookup. See `Datapath.RelayEndsOwnFlowIff` and
  `Datapath.PortReuseHappens`.
* A client that asks two resolvers from one port gets both answers from the second, although its flow is never
  lost. See `Datapath.DnsReplyRestoredIff` and `Datapath.TwoResolversMixUp`.
* A request head that ends beyond 16384 bytes is not simply refused: up to 32768, the capacity the buffer grows
  to, acceptance depends on how its bytes arrive. See `Http.AcceptanceByEnd`.
* `into_inner` drops the buffered reader's leftovers: the TLS relay is lossless for every arrival of the bytes
  exactly when what the client sends unprompted ends with the ClientHello record. Bytes it sends only after
  hearing back are never lost. See `TlsGateway.LosslessIff`.
* The ClientHello's handshake length is checked against the record but does not confine the walk, which looks
  exactly as far as the returned host reaches. See `TlsConfinement.ConfinedIff`,
  `TlsConfinement.MessageConfinesIff` and `TlsConfinement.HostBeyondMessage`.
* The SOCKS5 client does not compare the chosen method with the methods it offered; an accepted server has
  picked an offered one exactly when credentials are configured or it asked for none. See
  `Socks5.PickedMethodOfferedIff`, `Socks5.OnlyOfferedMethodsIff` and `Socks5.UnofferedIsAccepted`.
* A CONNECT request carries host names as they come from the SNI or the Host header, and addresses without
  brackets. A reader of the authority form recovers the destination exactly when the host has no space, line
  break or colon in it and no bracket in front; so IPv4 addresses are recovered and IPv6 addresses are not,
  including those that `strip_host_port` takes out of their brackets in a Host header. A strict reader recovers
  exactly registered names and IPv4 addresses. See `HttpConnect.RequestNamesDestinationIff`,
  `HttpConnect.StrictReaderIff`, `HttpConnect.RequestNamesAddressIff`, `HttpConnect.Ipv6HostHeaderIsMisread` and
  `HttpConnect.SpaceIsMisread`.
* The parsers are laxer than the standards in bounds they do not check: DNS names of more than 255 octets (RFC 1035,
  section 3.1), ClientHello sessions of more than 32 bytes and empty cipher or compression lists (RFC 8446,
  section 4.1.2), and empty host names (RFC 6066, section 3) are accepted. The serializers and the exactness
  results allow them too.
* The repository's design document (project.md, lines 836-837) asks for TTL cleanup and cleanup on FIN or RST; no code calls `prune_older_than`, and TCP
  flags are not looked at. Pruning is modelled as a step that may happen at any time.

## Model

| member | source | states |
|---|---|---|
| `Checksum.ComputeChecksum` | src/redirector.rs:549-562 | On blocks of up to 131074 bytes the 32-bit accumulator does not overflow, the fold terminates, and the result is the complement of the block's end-around-carry residue, an odd last byte padded with zero |
| `Checksum.CarryKeepsResidue` | src/redirector.rs:558-560 | One fold strictly decreases the sum, keeps it above zero and keeps its residue |
| `Checksum.ResidueCongruent` | src/redirector.rs:549-562 | The residue is the RFC 1071 sum: congruent modulo 65535, and zero only for zero |
| `Checksum.StoredComplementVerifies` | src/redirector.rs:509-511 | Storing the complement (or all ones for zero) in an aligned zeroed field makes the whole block verify |
| `Cidr.MaskAgreesWithInterval` | src/redirector.rs:791-801 | For every subnet, every prefix length and every address, `contains` holds exactly between the low and high ends the capture filter uses |
| `Cidr.NetworkAddressSubnet` | src/hotspot.rs:812-820 | A subnet built with `network_address` contains its gateway, contains exactly the addresses with the gateway's network part, and starts its own interval |
| `Cidr.ContainsIff` | src/hotspot.rs:31-41 | The mask test holds exactly when the two addresses have the same quotient by 2^(32 - prefix); from prefix 32 on, exactly when they are equal |
| `Cidr.NetworkAddressRoundsDown` | src/hotspot.rs:812-820 | `network_address` is the largest multiple of that power not above the address |
| `Cidr.CidrBoundsAreBlock` | src/redirector.rs:791-801 | The capture interval is the aligned block of that size around the subnet's address |
| `Blocks.PrivateLanIsBlocks` | src/redirector.rs:162-173 | The private test holds exactly in 10/8, 172.16/12, 192.168/16, 127/8, 169.254/16, 0/8 and for 255.255.255.255, and for IPv6 in ::1 and fe80::/10 |
| `Blocks.MulticastIsBlocks` | src/redirector.rs:155-160 | The multicast test holds exactly in 224/4 and for 255.255.255.255, and for IPv6 in ff00::/8 |
| `Packet.FragmentOffsetIsLow13Bits` | src/redirector.rs:429-432 | The byte-wise fragment test is the 13-bit mask on the 16-bit field |
| `Packet.ComputeTransportChecksum` | src/redirector.rs:538-547 | The buffer built step by step is pseudo-header then segment, and its checksum is returned |
| `Packet.RecalculateChecksums` | src/redirector.rs:506-536 | In place, for every packet: what is written and whether it succeeds, including the three ways to stop half-way |
| `Packet.RewriteDestination` | src/redirector.rs:468-485 | Succeeds exactly for an IPv4 address on a packet that parses, nothing is written otherwise, and once it has started writing it cannot fail |
| `Packet.RewriteSource` | src/redirector.rs:487-504 | The same for the source endpoint |
| `PacketFormat.ParsingIsExact` | src/redirector.rs:385-466 | A packet parses to some metadata if and only if it is a well-formed RFC 791 datagram, unfragmented or a first fragment, carrying TCP or UDP with those endpoints |
| `NatLaws.HeaderVerifies` | src/redirector.rs:506-511 | After recalculation the IPv4 header verifies |
| `NatLaws.SegmentVerifies` | src/redirector.rs:513-535 | After recalculation pseudo-header plus segment verifies when the total length covers the checksum field |
| `NatLaws.UdpChecksumNeverZero` | src/redirector.rs:529-533 | A stored UDP checksum is never zero |
| `NatLaws.RewrittenPacketsVerify` | src/redirector.rs:468-536 | The three facts above for every accepted packet and either rewrite |
| `NatLaws.NeighbourRedirects` | src/redirector.rs:451-485 | When the total length cuts the checksum field off, then for every endpoint at most one of two neighbouring clients' packets is redirected with a verifying transport checksum |
| `NatLaws.NeighbourReturns` | src/redirector.rs:451-504 | The same for packets returned to neighbouring clients |
| `NatLaws.RedirectVerifiesIff` | src/redirector.rs:451-536 | Exactly which redirected packets carry a verifying transport checksum: the covered ones, and of the others those whose remaining words have a lucky residue |
| `NatLaws.ReturnVerifiesIff` | src/redirector.rs:451-536 | The same for returned packets |
| `NatLaws.ShortDatagramIsAccepted` | src/redirector.rs:451-466 | A TCP datagram with total length 20 in a buffer of 40 bytes is accepted and not covered, for any addresses, and of its neighbouring variants some leave without verifying |
| `NatLaws.DestinationVerifiesIffCovered` | src/redirector.rs:451-485 | For every new endpoint: rewriting leaves a verifying transport checksum for every client if and only if the total length covers the checksum field |
| `NatLaws.SourceVerifiesIffCovered` | src/redirector.rs:451-504 | The same for the source rewrite, over the clients the packet goes to |
| `NatLaws.StampForgetsOldChecksums` | src/redirector.rs:506-536 | Recalculation depends on nothing the two fields held before |
| `NatLaws.RecalculationIdempotent` | src/redirector.rs:506-536 | Recalculating twice is recalculating once |
| `NatLaws.LaterDestinationWins` | src/redirector.rs:468-485 | A later destination rewrite supersedes an earlier one, byte for byte |
| `NatLaws.LaterSourceWins` | src/redirector.rs:487-504 | A later source rewrite supersedes an earlier one, byte for byte |
| `NatLaws.EndpointRewritesCommute` | src/redirector.rs:468-504 | Source and destination rewrites give the same bytes in either order |
| `NatLaws.RewriteIsReversible` | src/redirector.rs:468-536 | On a packet with canonical checksums, rewriting an endpoint and rewriting it back restores every byte |
| `NatLaws.RewrittenIsCanonical` | src/redirector.rs:468-536 | Every rewritten packet has canonical checksums |
| `NatLaws.RewriteFrame` | src/redirector.rs:468-536 | Only the address, the port and the two checksum fields can change |
| `NatLaws.RewrittenDestinationMeta` | src/redirector.rs:385-485 | Reparsing gives the old metadata with only the destination replaced |
| `NatLaws.RewrittenSourceMeta` | src/redirector.rs:385-504 | Reparsing gives the old metadata with only the source replaced |
| `ReceiverLaws.RedirectReceived` | src/redirector.rs:468-547 | A redirected datagram, field by field, is the old one with another destination address, destination port and two checksums; its header and, if the total length reaches past the checksum, its addresses, own protocol number, length and segment sum to all ones; no TCP checksum is 0xffff and no UDP checksum is 0 |
| `ReceiverLaws.ReturnReceived` | src/redirector.rs:487-547 | The same for a datagram whose source is rewritten |
| `ReceiverLaws.ChecksDetermineChecksum` | src/redirector.rs:523-534 | Only one transport checksum passes these checks, so the stored one is it |
| `Flow.FlowTable.constructor` | src/flow.rs:70-75 | A new table is empty and keeps its capacity |
| `Flow.FlowTable.OldestKey` | src/flow.rs:79-84 | Finds an entry whose stamp no other entry undercuts, whatever the iteration order; nothing only for an empty table |
| `Flow.FlowTable.Insert` | src/flow.rs:77-88 | A full table loses one oldest entry, then the new one is stored |
| `Flow.FlowTable.Get` | src/flow.rs:90-95 | Returns the entry with its stamp renewed, and changes nothing else |
| `Flow.FlowTable.Remove` | src/flow.rs:97-102 | Takes exactly that key out and returns what it held |
| `Flow.FlowTable.PruneOlderThan` | src/flow.rs:104-110 | Keeps exactly the entries idle no longer than the limit, with saturating ages, and counts the rest |
| `Flow.InsertKeepsLimit` | src/flow.rs:77-88 | Insertion keeps the size within the larger of the capacity and one |
| `Flow.PruneKeepsIff` | src/flow.rs:104-110 | An entry survives pruning, unchanged, if and only if it was seen no more than the limit before the clock reading |
| `Flow.InsertEvictsOldest` | src/flow.rs:77-88 | An entry is lost to another key's insertion only with at least capacity - 1 others stamped no earlier; all those others are kept unchanged |
| `Flow.InsertKeepsOthers` | src/flow.rs:77-88 | The inserted entry is present, survivors are unchanged, and an entry with fewer than capacity - 1 such rivals survives |
| `Flow.InsertSparesOthersIff` | src/flow.rs:77-88 | Whichever victim is picked, insertion keeps every key if and only if there is room or the key is present and its entry strictly older than all others |
| `Flow.ReplacementCostsOther` | src/flow.rs:77-88 | In a full table of two, recording the newer flow again loses the older one |
| `Redirector.ProcessForwardPacket` | src/redirector.rs:246-291 | New table, new packet bytes and action for every packet; a discarded packet's bytes are untouched |
| `Redirector.Redirect` | src/redirector.rs:268-288 | The flow is recorded before the packet is rewritten, with the packet's own destination as the original one |
| `Redirector.ProcessNetworkPacket` | src/redirector.rs:293-335 | New table, new packet bytes and action for every packet, including each way to let it pass |
| `RedirectLaws.DropsExactlyOnDecision` | src/redirector.rs:246-291 | Without a drop decision a packet is lost only when it is to be redirected to an IPv6 gateway |
| `RedirectLaws.DecisionsExact` | src/redirector.rs:80-146 | For each of the fourteen decisions, with its reason and local endpoint, the exact packets it is made for, in terms of subnet quotients and address blocks |
| `RedirectLaws.RedirectedIff` | src/redirector.rs:246-291 | Exactly which packets are redirected, under which flow key and to which local port |
| `RedirectLaws.RefusedIff` | src/redirector.rs:80-173 | Exactly which packets of which clients are refused, in terms of the policies; the QUIC flag plays no part |
| `RedirectLaws.PrivateQuicIsSent` | src/redirector.rs:101-103 | With QUIC blocked and the private bypass on, UDP/443 to 10.0.0.1 is sent unchanged |
| `RedirectLaws.ForwardedMeta` | src/redirector.rs:246-291 | What is sent reparses to the old metadata, a redirected packet's destination being the gateway |
| `RedirectLaws.NoLeakIffNothingDirect` | src/redirector.rs:80-173 | No client's TCP or UDP packet that parses gets out except to an exempt address or as permitted NTP, if and only if neither TCP nor DNS is direct |
| `RedirectLaws.GetsOutIff` | src/redirector.rs:246-291 | Over all bytes with an IPv4 source in the subnet: something leaves for a non-exempt destination if and only if the packet is addressed to one and either does not parse or a direct policy applies to it |
| `RedirectLaws.FragmentGetsOut` | src/redirector.rs:251-253 | Under every policy a client's later fragment goes out unchanged |
| `RedirectLaws.RecaptureIsNoOpIff` | src/redirector.rs:80-109 | Feeding a sent packet back in changes nothing, if and only if it was not redirected to port 53 or DNS is direct |
| `RedirectLaws.RecaptureIsNoOpForOtherPorts` | src/redirector.rs:246-291 | With local ports other than 53 the forward worker is idempotent on all it sends |
| `RedirectLaws.RecaptureOnPort53OverwritesDestination` | src/redirector.rs:85-91 | With local port 53, recapture replaces the recorded destination by the gateway |
| `RedirectLaws.ReturnedExact` | src/redirector.rs:293-335 | The network worker gives exactly the listener's answers to clients with a flow their original source and renews the flow; it sends every other packet unchanged and leaves the table alone |
| `RedirectLaws.RecordableIffWellShaped` | src/redirector.rs:275-282 | An entry can be recorded if and only if it has the shape of a redirect: hotspot client, gateway, and DNS to the DNS listener or proxied TCP to a non-exempt destination |
| `Datapath.BeginRelay` | src/proxy.rs:592-604 | A relay dials the stored original destination exactly when its client has a flow, and renews it |
| `Datapath.TableWithinLimit` | src/flow.rs:70-110 | In every run, at every moment, the table is within its limit |
| `Datapath.TableWellShaped` | src/redirector.rs:246-335 | In every run, every entry has the shape of a redirect |
| `Datapath.NetworkNeverDrops` | src/redirector.rs:329-334 | In no run does the network worker drop a packet; UDP entries always have original port 53 |
| `Datapath.TableHoldsLatest` | src/redirector.rs:275-282 | In every interleaving each entry holds the destination of the latest packet redirected for its key |
| `Datapath.LookupsUseLatest` | src/proxy.rs:592-609 | Every dial and every rewritten DNS answer uses that latest destination |
| `Datapath.StampIsLastTouch` | src/flow.rs:90-95 | An entry's stamp is the clock reading of the last event that touched it |
| `Datapath.EvictionIsOldestFirst` | src/flow.rs:77-88 | An entry pushed out of the table had been touched no later than every other, the table was full, and it is the only one lost |
| `Datapath.EntrySurvives` | src/flow.rs:77-110 | An entry left alone stays until capacity - 1 other keys are as recent as it |
| `Datapath.RelaysHaveLookedUp` | src/proxy.rs:592-601 | Every relay under way holds a TCP key that was in the table at its lookup, and dialed what stood there |
| `Datapath.RelaysLeaveDnsAlone` | src/proxy.rs:592-609 | The end of a relay never removes a DNS flow |
| `Datapath.DnsRoundTrip` | src/redirector.rs:246-335 | With any other traffic in between, as long as the client does not ask again from the port, no lookup of its flow carries an earlier clock reading, no prune reaches the flow, and fewer than capacity - 1 other flows become as recent: the query leaves addressed to the listener and its answer comes back from the endpoint the client had asked, both with canonical checksums |
| `Datapath.DnsRoundTripHappens` | src/redirector.rs:246-335 | In every configuration that proxies DNS, for every client, port and resolver there is such a run, with a table of at least two entries |
| `Datapath.DnsReplyRestoredIff` | src/redirector.rs:293-335 | The answer carries the swapped endpoints of the query if and only if the flow is still in the table and the latest query from that client port went to the same resolver (or, without the flow, the client had asked the listener itself) |
| `Datapath.DnsReplyRestoredUnlessReused` | src/redirector.rs:293-335 | If the client has not asked again from the port, having the flow is enough |
| `Datapath.TwoResolversMixUp` | src/redirector.rs:275-334 | For every client and any two resolvers there is a run in which the first one's answer comes back from the second |
| `Datapath.RelayDialsOriginal` | src/proxy.rs:585-611 | As long as no other packet of the client's port is redirected, no relay for its key ends, no lookup of its flow carries an earlier clock reading, no prune reaches the flow, and fewer than capacity - 1 other flows become as recent, the relay of a redirected connection dials the address the client had asked for |
| `Datapath.RelayDialsOriginalIff` | src/proxy.rs:585-611 | In every run a relay dials an address if and only if its client's flow is in the table and the latest redirected packet of that client port was addressed there; it finds no flow if and only if there is none |
| `Datapath.RelayDialsUnlessReused` | src/proxy.rs:585-611 | As long as no other packet of the port is redirected, it dials this packet's address if and only if the flow is in the table |
| `Datapath.EntryHasRecord` | src/redirector.rs:275-282 | Every entry is the one recorded by the last event that recorded its key, up to its stamp |
| `Datapath.RelayEndsOwnFlowIff` | src/proxy.rs:608-610 | The entry that a relay's end removes leads to the address the relay had dialed if and only if the latest packet redirected for the client's port is addressed where it was at the lookup |
| `Datapath.LateRelayEndLosesNewFlow` | src/proxy.rs:608-610 | For any two redirected packets of one client port there is a run in which the end of the first relay makes the second connection find no flow |
| `Datapath.PortReuseHappens` | src/proxy.rs:608-610 | Under the TCP proxy policy two web connections of any client, to ports 80 and 443 of one server, are such packets: both are sent, the first relay had dialed port 80, and its end removes the entry that leads to port 443 |
| `DnsWire.NameRoundTrip` | src/dns.rs:161-172 | The reference decoder reads back every encoded name, wherever it stands in a message |
| `Dns.ParseSingleQuestion` | src/dns.rs:153-186 | The label loop computes the recursive reading of a question, on every input |
| `Dns.SingleQuestionIsExact` | src/dns.rs:153-186 | A question is found if and only if the count is one and the bytes from 12 on are an uncompressed name, a type and class IN; its end is the end of that encoding |
| `Dns.GatewayDnsResponse` | src/dns.rs:121-146 | Answers exactly the queries that parse, with the bytes built step by step |
| `Dns.ResponseKeepsQuestion` | src/dns.rs:121-146 | The answer parses to the query's own question, label by label |
| `Dns.ResponseDecodes` | src/dns.rs:121-146 | An RFC 1035 decoder reads the answer as the query's identifier and question and, for type A, one record that gives the queried name the gateway; nothing follows |
| `Http.FindHeaderEnd` | src/proxy.rs:420-425 | The first position behind CR LF CR LF, or none when there is none |
| `Http.HeaderEndIff` | src/proxy.rs:420-425 | The end found is the first position that follows the bytes 13, 10, 13, 10, and there is none if they do not occur |
| `Http.SuffixSearchAgrees` | src/proxy.rs:405-416 | Looking from three bytes before the new data finds what a full search finds |
| `Http.ReadHttpRequestHead` | src/proxy.rs:398-418 | Every run is one of the growing buffer; it returns a prefix of the client's stream with the stream's first header end, always if that lies within 16384 bytes and never beyond 32768, and the error for an early close exactly when there is none in a shorter stream |
| `Http.ArrivedFits` | src/proxy.rs:398-418 | In every run the request is what has arrived, fits a buffer whose capacity doubles from 1024 to at most 32768, and is still being read exactly while it holds no header end |
| `Http.AcceptanceByEnd` | src/proxy.rs:398-418 | Some run accepts a stream if and only if its first header end is at most 32768, and some run refuses it if and only if that end is beyond 16384 or missing |
| `Http.CuttingMattersIff` | src/proxy.rs:398-418 | Acceptance depends on the cutting if and only if the first header end lies beyond 16384 and within 32768 |
| `Stream.CopyBidirectional` | src/proxy.rs:394 | However the two directions interleave and their bytes arrive, each side receives exactly the rest of the other's stream |
| `HttpConnect.RequestNamesDestinationIff` | src/proxy.rs:261-265 | A reader of the request line and headers recovers exactly the host text and port, and one header block in front of the tunnel, if and only if the host has no SP, CR, LF or colon and no bracket in front, and is a registered name if the reader is strict |
| `HttpConnect.StrictReaderIff` | src/proxy.rs:261-265 | A strict reader recovers exactly the destinations whose host is a registered name or IPv4 address |
| `HttpConnect.RequestNamesAddressIff` | src/proxy.rs:53-72 | A destination given as an address is recovered if and only if it is IPv4 |
| `HttpConnect.StrippedAddressIsMisread` | src/proxy.rs:460-468 | An address with a colon loses its brackets on the way out of a Host header and is then not recovered |
| `HttpConnect.Ipv6HostHeaderIsMisread` | src/proxy.rs:443-468 | A whole request with a bracketed IPv6 Host header: the gateway takes the bare address from it, and the tunnel it asks for is not to that address |
| `HttpConnect.SpaceIsMisread` | src/proxy.rs:261-265 | For a name with a space it does not |
| `HttpConnect.AcceptsIff` | src/proxy.rs:281-284 | An answer is accepted exactly if it begins with HTTP/1.0 or HTTP/1.1 and status 200 |
| `AddressText.HostTextIsExact` | src/proxy.rs:65-72 | The host's text reads back as the host: dotted decimals as the IPv4 address, the forms of RFC 4291 as the IPv6 address, a domain as itself |
| `AddressText.Ipv6TextForm` | src/proxy.rs:68 | An IPv4-mapped address is written with its IPv4 part in decimals; any other has two colons exactly if two segments in a row are zero |
| `AddressText.LeftOutZerosAreBest` | src/proxy.rs:68 | What the two colons stand for is the longest run of zero segments, the first of several |
| `HttpConnect.SendConnectRequest` | src/proxy.rs:257-287 | The tunnel opens exactly when the first header block ends within 8192 bytes and announces success, and then the next unread byte is the tunnel's first |
| `HttpHost.ParseHttpHost` | src/proxy.rs:443-458 | The line loop computes the recursive reading of the head, on every input |
| `HttpHost.IsHostIff` | src/proxy.rs:449 | The header name is "host" in any mixture of letter cases |
| `HttpHost.LineRules` | src/proxy.rs:445 | The rules that determine the lines of every text: a line feed ends a line and takes a carriage return before it along; the rest is a line unless it is empty |
| `Utf8Laws.Utf8IsExact` | src/proxy.rs:444 | The UTF-8 test accepts exactly the encodings of sequences of Unicode scalar values |
| `Utf8Laws.SpaceIsWhiteSpace` | src/proxy.rs:450 | The characters trimmed are exactly those with the property White_Space |
| `Utf8Laws.TrimIsExact` | src/proxy.rs:450 | From any text, trimming removes exactly the white space characters at both ends |
| `HttpHost.RequestNamesHost` | src/proxy.rs:443-458 | On every rendered request the result is the first Host header's value, in any letter case, trimmed and without its port |
| `HttpHost.PortIsStripped` | src/proxy.rs:460-468 | A port is removed from a name or IPv4 address |
| `HttpHost.BracketsAreStripped` | src/proxy.rs:460-468 | A bracketed IPv6 address loses its brackets and its port |
| `HttpHost.OtherHostsAreKept` | src/proxy.rs:460-468 | A host with no colon, or one whose bracket is not closed, is left as it is |
| `HttpHost.NotUtf8Iff` | src/proxy.rs:444 | A head is refused as text exactly when it is not UTF-8 |
| `HttpGateway.RelayHttpGateway` | src/proxy.rs:381-396 | The upstream, reached at the named host's port 80, receives exactly the client's stream and the client exactly the upstream's; for heads within the limit this happens exactly when the head names a host that can be reached, and otherwise nothing is forwarded |
| `Socks5.RequestRoundTrip` | src/proxy.rs:163-183 | A server that follows RFC 1928 section 4 reads the destination out of the request |
| `Socks5.WrittenReads` | src/proxy.rs:130-183 | For every server and outcome, what the client writes reads by RFC 1928 and RFC 1929 as: the methods 0 and, with credentials, 2; then, for a server that picks method 2, exactly the configured user name and password; then exactly the destination; each with nothing left over, and left out under the stated conditions |
| `Socks5.HandshakeLengthIsExact` | src/proxy.rs:135-203 | A length is computed exactly for streams that start with a successful server side, for every address type, and it is that side's length |
| `Socks5.Connect` | src/proxy.rs:124-204 | Succeeds exactly on such a stream when what has to be sent fits; consumes that side and no tunnel byte; for every server and outcome, what it has sent and how it ends |
| `Socks5.OutcomesExact` | src/proxy.rs:135-203 | The exact server bytes and sizes behind success and behind each way the handshake can fail |
| `Socks5.ReadConnectReply` | src/proxy.rs:185-203 | Succeeds exactly on a complete positive reply and stops behind its last byte |
| `Socks5.PickedMethodOfferedIff` | src/proxy.rs:130-159 | The server of a completed handshake has picked an offered method if and only if credentials are configured or it did not ask for them |
| `Socks5.OnlyOfferedMethodsIff` | src/proxy.rs:130-159 | Success implies an offered method, whatever the server says, if and only if credentials are configured |
| `Socks5.UnofferedIsAccepted` | src/proxy.rs:139-159 | A server's bytes that a client without credentials accepts though they pick a method it did not offer |
| `Tls.ParseSniExtension` | src/proxy.rs:546-569 | The name loop computes the search of the list, every index in bounds |
| `Tls.ParseTlsSniFromRecord` | src/proxy.rs:495-544 | The offset walk computes the nested reading of the record, every index in bounds on arbitrary bytes |
| `TlsLaws.SniIsExact` | src/proxy.rs:495-569 | A host is returned if and only if the record is a ClientHello whose first host_name in its first server_name extension is that host in UTF-8 |
| `TlsLaws.ClientHelloRoundTrip` | src/proxy.rs:495-569 | Serializing any hello with the host anywhere among other names and extensions, and parsing it, gives the host back |
| `TlsLaws.ClaimedLengthIgnored` | src/proxy.rs:500-503 | The same host comes back under every handshake length that stays inside the record |
| `TlsLaws.NameErrors` | src/proxy.rs:546-569 | Exactly which lists of names end without a host, cut a name off, or name a host that is not UTF-8 |
| `TlsLaws.ExtensionErrors` | src/proxy.rs:527-543 | Exactly which extension blocks end without a server_name extension or cut an extension off |
| `TlsConfinement.HostEndsThere` | src/proxy.rs:505-569 | The end read off the length fields in front of the host is where the returned host ends in the record |
| `TlsConfinement.ConfinedIff` | src/proxy.rs:495-569 | The result depends on the first n bytes of a record (and its length) only, if and only if the host ends within them |
| `TlsConfinement.MessageConfinesIff` | src/proxy.rs:500-503 | The result comes out of the handshake message alone if and only if the host ends inside it |
| `TlsConfinement.HostBeyondMessage` | src/proxy.rs:500-503 | A record that claims an empty message and still gives a host |
| `Stream.Connection.ReadExact` | src/proxy.rs:135-136 | However the bytes arrive, exactly the next n are taken, or the peer closed before them |
| `TlsGateway.BufReader.Read` | src/proxy.rs:427-429 | A read of the buffered reader takes from its buffer, past it, or after one fill |
| `TlsGateway.BufReader.ReadExact` | src/proxy.rs:475-476 | Bytes read, buffered and unread always make up the client's stream |
| `TlsGateway.ReadStepConserves` | src/proxy.rs:427-429 | One such read neither loses nor reorders bytes, and is empty only at the end |
| `TlsGateway.ReadTlsSni` | src/proxy.rs:470-493 | The result depends on the client's bytes only; captured, buffered and unread bytes make up the stream |
| `TlsGateway.FirstRecordIsExact` | src/proxy.rs:470-493 | The gateway takes a host from exactly the streams that open with a handshake record (type 22) of 1 to 16384 bytes, of any version, holding a ClientHello with that host |
| `TlsGateway.FirstRecordErrors` | src/proxy.rs:474-491 | Which streams are refused as another record type, as a record of illegal length, and as closed early |
| `TlsGateway.RelayTlsGateway` | src/proxy.rs:427-441 | Forwards, to port 443 of the named host, exactly when the record names a host that can be reached; what reaches the upstream is the client's stream, unprompted part and answer, without the bytes buffered when the reader is taken apart, so it is the whole stream if and only if there are none; the client receives exactly the upstream's stream |
| `TlsGateway.DropIsPossible` | src/proxy.rs:427-441 | Whenever the client sends more than the first record unprompted, some arrival of the bytes leaves a part of it in the buffer |
| `TlsGateway.DropSizes` | src/proxy.rs:427-441 | The relay can drop exactly any length up to 8191 bytes of what is there behind the record |
| `TlsGateway.LosslessIff` | src/proxy.rs:427-441 | No arrival loses a byte if and only if what the client sends unprompted ends with the ClientHello record, whatever it sends after hearing back |

## Left out

- `Http.ReadHttpRequestHead`: the buffer grows as vectors of bytes do in Rust's standard library, from exactly the requested capacity and by doubling; an allocator that hands out more would move the 32768 bound.
- `Socks5.Connect`: starts on an open connection; how far a failed handshake has read is not stated.
- `TlsGateway.RelayTlsGateway`: a client that holds back part of its first record until it hears back gets no further; this reads as an early close.
- I/O errors other than an early close, timeouts, and the half-close behaviour of the copy.
- WinDivert handles, threads, the worker loops around the processors, and the rest of the filter syntax.
- Hotspot control, host commands and the doctor: calls into the operating system.
- Startup and rollback: a short fixed sequence; its order is not assumed anywhere.
- TCP return-path rewriting: the code passes TCP through on the way back.
- Forwarding DNS queries to an upstream resolver, TLS to the proxy, logging and its counters.
- Configuration and proxy URI parsing: policies, ports and subnet are values here.
- The clock: every reading is a parameter; where an order of readings is needed, it is a stated condition.
- SNI names are UTF-8 byte strings; what a resolver does with them is not part of this model.

# A verified model of ydn64

ydn64 is a NAT64 translator and DNS64 resolver for the Yggdrasil network. This
project models its stateful core in Dafny and proves what that core keeps over
whole runs: the UDP translator's five coupled tables, the ICMP echo NAT at the
granularity of single map operations, IPv6 fragmentation, header-chain parsing
and reassembly, the packets and checksums it synthesises, the six NAT64 address
layouts, its token buckets, the DNS answer cache, AAAA synthesis and the
DNS-over-TCP pipeline.

`dafny verify dfyconfig.toml` checks everything.

## How it is built

Each stateful component comes three times.

* A state machine: a `State` value, `Event`s that carry every choice the
  environment makes (clock readings, map iteration order, socket addresses,
  upstream answers), and `After`, the state a sequence of events leads to. A
  disabled event changes nothing, so laws over `seq<Event>` are laws over every
  run and every interleaving.
* Laws about every run, by induction over the events.
* A class or method in the shape of the code, proved against the functions the
  state machine is made of.

| files | component |
|---|---|
| `UdpNat`, `UdpNatLaws`, `UdpNatLimits`, `UdpActivity`, `UdpTraffic`, `SplitSetup`, `UdpTranslator`, `PerSource` | UDP translator |
| `IcmpNat`, `IcmpNatLaws`, `EchoNat`, `EchoActivity`, `EchoIdentity` | ICMP echo translator |
| `Ipv6Chain`, `Fragmentation`, `Reassembly`, `ReasmTable`, `HandedOut`, `Datagram`, `DatagramRun`, `Interceptor`, `EndToEnd` | fragments |
| `Octets`, `Buffers`, `Checksum`, `Packets`, `ErrorPackets` | packets |
| `Cardinality`, `MapSum` | sizes and sums |
| `Pref64`, `ReverseNames` | addresses and their reverse names |
| `TokenBucket`, `RateLimiter` | rate limits |
| `Records`, `DnsCache`, `Dns64`, `Dns64Laws` | DNS64 |
| `TcpPipeline`, `QuerySlots` | DNS over TCP |

## What turned out not to hold

Where the code does not meet what its comments or documents say, the code is
modelled as it is, and the exact condition is proved.

* Binding a UDP socket and registering the session are two steps in the code. A
  cleanup tick in between breaks endpoint-independent mapping
  (`SplitSetupIsSafeIff`, `TickBetweenBreaksMapping`,
  `SplitSetupSplitsMapping`), until the session fails on the socket the tick has
  closed. The run laws take the pair as one step.
* An error quoting an open UDP flow can be reported to another client: the one
  that had the same external address before, while its closed session is still
  in the table (`ErrorsReachTheirSession`, `ErrorReachesAnotherClient`).
* src/nat64/service.go:411-413 says a session refreshed after the cleanup loaded
  it is never evicted. It is (`EvictedIdleIff`, `RefreshedYetEvicted`,
  `RaceIsReachable`).
* A last fragment whose length is no multiple of eight may leave a hole that
  reassembly does not see (`NoHolesIffAligned`, `HandedOutIsExactIff`,
  `ShortLastFragmentLeavesAHole`).
* A fragmented packet always announces ICMPv6, also when it carried UDP
  (`ProtocolSurvivesIffIcmpv6`, `FragmentedUdpSaysIcmpv6`).
* CHANGELOG.md:122-126 says the packet quoted in a translated error is rebuilt
  to its original tuple. The quoted addresses are reversed
  (`QuotedAddressesAreOriginalIff`).
* An all-zero /56 or /64 prefix cannot extract a family of addresses it embeds
  (`RoundTripIff`, `ZeroPrefixLosesAnAddress`), and a /96 prefix may set the
  octet section 2.2 of RFC 6052 reserves (`ReservedOctetIsZeroIff`,
  `ReservedOctetCanBeSet`).
* src/dns64/cache.go:20-23 says an entry lives for the smaller of its smallest
  TTL and the default. With a zero TTL it lives for the default
  (`LifetimeIsSmallestIff`, `ZeroTtlOutlivesItself`).
* A reload swaps the settings, then flushes the cache, while questions are in
  flight. An answer of the old zone, or of the old settings, may be stored behind
  the flush, and a hit may fall between swap and flush
  (`StaleAnswerOutlivesReload`, `HeldAnswerOutlivesReload`, `HitBeforeFlush`).
  An address served is of the present zone and settings exactly when those of its
  question agree with them at the store (`ServedHasOrigin`).
* An echo request of fewer than eight octets is left to the local stack when it
  comes in one packet, and not when it comes in fragments (`CutOrWhole`).
* An AAAA record inside the answer to an A question escapes zone and exclusions
  (`ResolvedIsSourcedIff`, `ExcludedYetServed`).

## Model

| member | source | states |
|---|---|---|
| UdpNatLaws.EndpointIndependentMapping | src/nat64/udp.go:397-535 | in every run with a monotone clock, all open sessions of one client socket share one BIB, the registered one, and so one external address and port (section 4.1 of RFC 4787) |
| UdpNatLaws.RunsKeepCore | src/nat64/udp.go:484-575 | in every run tables and stores stay consistent, every open session is listed and mapped, no session is more recent than its BIB, no pending tuple has an open session |
| UdpNatLaws.MappingIsStable | src/nat64/udp.go:484-535 | no step moves a session to another external address or reopens a closed one |
| SplitSetup.SplitSetupIsSafeIff | src/nat64/udp.go:484-535 | registering a pending tuple on a BIB obtained earlier keeps every open session mapped if and only if that BIB is still the client's registered one |
| SplitSetup.TickBetweenBreaksMapping | src/nat64/service.go:378-404 | a cleanup tick between binding and registering a pending tuple, on a BIB idle too long, leaves an open session unmapped |
| SplitSetup.SplitSetupSplitsMapping | src/nat64/udp.go:484-535 | a run from a fresh start, for any client, destinations and addresses, that ends with two open sessions of one client socket on different external addresses |
| UdpNatLaws.CountersAreExact | src/nat64/udp.go:516-530 | in every run the global counter equals the number of sessions and each per-source counter the number of that source's sessions |
| UdpNatLaws.TeardownOnce | src/nat64/udp.go:724-734 | tearing a session down a second time, after eviction or not, changes nothing |
| UdpNatLaws.FlowIndexAgrees | src/nat64/udp.go:516-534 | in every run a registered BIB's flow table holds t for session s if and only if the session table does and s uses that BIB |
| UdpNatLaws.DemuxIsGlobalFilter | src/nat64/udp.go:686-717 | looking up a reply in a BIB's flows is filtering the whole session table: the exact tuple, else the most recent flow to that address |
| UdpNatLaws.RepliesReachTheirSession | src/nat64/udp.go:595-623 | a reply from the peer of an open session is found to be that very session's in every filtering mode, and is relayed into it |
| UdpNatLaws.RunsKeepSocketsDistinct | src/nat64/udp.go:397-423 | in every run two registered BIBs never have the same external address and port, if the system binds open sockets to distinct ones |
| UdpNatLaws.QuotedErrorIsUnambiguous | src/nat64/icmperr.go:385-394 | a quoted packet names at most one open session |
| UdpNatLimits.AdmissionIsExact | src/nat64/udp.go:271-304 | at count c and limit M admission evicts exactly min(8, c-M+1) sessions, the least recently active ones, and succeeds if and only if c-M+1 is at most 8 |
| UdpNatLimits.LimitHolds | src/nat64/udp.go:449-456 | with fixed limit M and at most p setups in flight, sessions plus setups never exceed M-1+p, globally and per source |
| UdpNatLimits.InboundDoesNotInterfere | src/nat64/udp.go:584-664 | removing all inbound datagrams, injections and quoted errors from a run leaves the same sessions, BIBs, flows, counters and stamps (section 4.3 of RFC 4787) |
| UdpNatLimits.UnsolicitedMeetsTheLaw | src/nat64/udp.go:595-664 | in every run a datagram of no flow is injected toward the BIB's client exactly when filtering is endpoint-independent and the token-bucket law, at 100 a second and 200 at once, allows it after all such datagrams before it |
| UdpActivity.ActiveFlowSurvives | src/nat64/udp.go:555-575 | in every run an open session that is neither torn down nor evicted, and whose client at each tick has sent within the timeout, stays open and mapped at the same external address and port |
| UdpActivity.TickClosesExactlyTheIdle | src/nat64/service.go:378-404 | in every run a tick closes an open session if and only if there is a timeout and its setup and all datagrams of its client are longer ago, and drops its client's mapping if and only if that is so of every session through it |
| UdpActivity.StampIsLastTouch | src/nat64/udp.go:516-575 | in every run a session's stamp is the time of its setup or of its client's last datagram, whichever came last |
| UdpActivity.BibHasItsStamp | src/nat64/udp.go:516-575 | in every run a BIB's stamp is that of one of its sessions |
| UdpTraffic.RelayedOnlyFromPeers | src/nat64/udp.go:686-717 | in every run nothing is relayed into a session but from the host that session sends to |
| UdpTraffic.RelayedIffOpen | src/nat64/udp.go:595-623 | a datagram found to be a session's is relayed if the session is open and lost if it is closed |
| UdpTraffic.ErrorsReachTheirSession | src/nat64/icmperr.go:385-394 | in every run an error quoting a datagram of an open session is reported to its client, or to that of a closed session still in the table that had the same address |
| UdpTraffic.ErrorReachesAnotherClient | src/nat64/icmperr.go:385-394 | a run from a fresh start, for any two clients of one destination, in which the second happens |
| UdpTraffic.AdmittedIff | src/nat64/udp.go:429-482 | in every run a new flow is admitted if and only if its source is below its limit, at most eight evictions bring the table below its own, and the stack makes an endpoint |
| UdpTraffic.TeardownGivesThePlaceBack | src/nat64/udp.go:724-734 | a teardown closes its session and takes it out of the table, its BIB's flows and both counts if the tuple is still its own; all other sessions keep their entries |
| UdpTraffic.TcpCountsAreExact | src/nat64/tcp.go:246-268 | in every run a source's TCP count is its connections opened less closed, whatever its UDP flows do |
| UdpTranslator.UdpTranslator.constructor | src/nat64/service.go:147-180 | a new translator has empty tables |
| UdpTranslator.UdpTranslator.Reload | src/nat64/service.go:190-202 | only the settings change |
| UdpTranslator.UdpTranslator.DeleteSession | src/nat64/udp.go:724-734 | the client leg is closed and only entries that are still this session's go, with one count |
| UdpTranslator.UdpTranslator.FindOldest | src/nat64/udp.go:288-304 | the session found is one with the oldest stamp, and there is none only if the table is empty |
| UdpTranslator.UdpTranslator.EvictOldest | src/nat64/udp.go:288-304 | exactly an oldest session is torn down |
| UdpTranslator.UdpTranslator.Admit | src/nat64/udp.go:271-283 | the loop evicts a sequence of victims, each the oldest in its turn, and reports whether the count is below the limit |
| UdpTranslator.UdpTranslator.HandleForward | src/nat64/udp.go:429-456 | a source over its limit is refused without evictions, otherwise admission decides |
| UdpTranslator.UdpTranslator.GetOrCreateBib | src/nat64/udp.go:397-423 | the client's BIB is returned, a new one only if it had none |
| UdpTranslator.UdpTranslator.Register | src/nat64/udp.go:508-534 | session table, counters, flow table and both stamps are updated together |
| UdpTranslator.UdpTranslator.CompleteSetup | src/nat64/udp.go:484-535 | a setup ends in a registered session or, if no socket could be bound, in nothing |
| UdpTranslator.UdpTranslator.ForwardDatagram | src/nat64/udp.go:555-575 | a client datagram stamps session and BIB alike, which is what UdpActivity.ActiveFlowSurvives rests on |
| UdpTranslator.UdpTranslator.CloseIdle | src/nat64/service.go:380-390 | exactly the registered sessions idle since before the cutoff are closed |
| UdpTranslator.UdpTranslator.DropIdleBibs | src/nat64/service.go:396-403 | exactly the BIBs idle since before the cutoff go |
| UdpTranslator.UdpTranslator.ExpireIdle | src/nat64/service.go:379-403 | both loops work on one cutoff and on the tables as they were |
| UdpTranslator.UdpTranslator.Tick | src/nat64/service.go:378-404 | with a positive timeout both loops run on the same cutoff, otherwise nothing happens |
| UdpTranslator.UdpTranslator.Demux | src/nat64/udp.go:686-717 | the exact tuple wins, else under address-dependent filtering a most recent flow to that address, else nothing |
| UdpTranslator.UdpTranslator.HandleInbound | src/nat64/udp.go:595-664 | the datagram goes to the session found, or under endpoint-independent filtering is injected within its budget; no table changes |
| UdpTranslator.UdpTranslator.FindQuoted | src/nat64/icmperr.go:385-394 | a session matching the quoted packet is found if and only if there is one |
| PerSource.AddedCounts | src/nat64/persource.go:42-48 | exactly the one count goes up by one |
| PerSource.RemovedCounts | src/nat64/persource.go:52-65 | exactly the one count goes down by one, never below zero |
| PerSource.RemovedUndoesAdded | src/nat64/persource.go:42-65 | removing what was added restores the very table, so idle sources leave no trace |
| PerSource.SrcTracker.Add | src/nat64/persource.go:42-48 | the map is the one with one more |
| PerSource.SrcTracker.Remove | src/nat64/persource.go:52-65 | the map is the one with one less, pruned when both counts are zero |
| PerSource.SrcTracker.Count | src/nat64/persource.go:68-72 | the count of a source, zero when unknown |
| IcmpNatLaws.RunsAreLinked | src/nat64/icmp.go:231-265 | under every interleaving of single map operations each query entry's session sits in its own slot, each slot holds the session that was given it, and a session half registered or half dropped is where its goroutine left it |
| IcmpNatLaws.SlotDeletionHitsItsSession | src/nat64/service.go:414-417 | the unconditional slot deletion always removes the session whose query entry was just deleted |
| IcmpNatLaws.DeletionAlwaysMatches | src/nat64/service.go:410-414 | the conditional deletion never finds another session in the entry |
| IcmpNatLaws.IdentifiersAreDistinct | src/nat64/icmp.go:249-263 | live queries toward one destination carry distinct non-zero identifiers |
| IcmpNatLaws.TablesStayBounded | src/nat64/icmp.go:239-262 | both tables and the counter stay within 4096 in every interleaving and agree when both goroutines rest |
| IcmpNatLaws.GivingUpMeansCrowded | src/nat64/icmp.go:249-264 | the read loop runs out of identifiers only if at least 63 were in use toward that destination when probing began, from any counter value and whatever the cleanup does meanwhile |
| IcmpNatLaws.RunsAreAsked | src/nat64/icmp.go:231-248 | every session ever made belongs to an earlier request |
| IcmpNatLaws.EvictedIdleIff | src/nat64/service.go:406-420 | the entry a sweep deletes is idle if and only if its stamp has not moved since the sweep read it |
| IcmpNatLaws.RefreshedYetEvicted | src/nat64/service.go:406-420 | from every state at rest with an idle entry, a repeat request between check and deletion is answered with a session stamped now, which is then dropped |
| IcmpNatLaws.RaceIsReachable | src/nat64/service.go:406-420 | such a run exists from a fresh start |
| EchoNats.EchoNat.constructor | src/nat64/service.go:157-167 | empty tables and a counter that starts anywhere |
| EchoNats.EchoNat.Register | src/nat64/icmp.go:231-265 | run without interruption it is a run of the steps; a session stamped now is returned if and only if the query ends up registered, and a refusal means a full table or 63 identifiers in use and changes no table |
| EchoNats.EchoNat.Allocate | src/nat64/icmp.go:249-264 | the probing loop with its three writes is a run of the steps and fails only when 63 identifiers are in use |
| EchoNats.EchoNat.VisitEntry | src/nat64/service.go:407-419 | one visit of the cleanup is a run of the steps and removes the entry if and only if it is idle |
| EchoNats.EchoNat.Sweep | src/nat64/service.go:406-420 | exactly the entries idle for more than a minute go, and both tables stay linked and counted |
| EchoActivity.StampIsLastActivity | src/nat64/icmp.go:231-265 | in every interleaving a session's stamp is the time of its registration, its client's last repeated request or the last reply to it, whichever came last |
| EchoActivity.SweepCondemnsExactlyTheIdle | src/nat64/service.go:406-418 | in every interleaving a sweep condemns the entry it visits if and only if that session's last activity is older than the cutoff, and otherwise changes nothing |
| EchoActivity.RefreshIsForItsQuery | src/nat64/icmp.go:231-237 | a repeated request refreshes the session of the same client, server and identifier |
| EchoActivity.ReplyWasFound | src/nat64/icmp.go:371-378 | a reply about to refresh a session found it in the slot of its server and identifier |
| EchoActivity.ReplyStampsItsSession | src/nat64/icmp.go:371-378 | a reply under a taken identifier stamps the session in the slot and nothing else; any other reply changes nothing |
| EchoIdentity.RepliesGoHome | src/nat64/icmp.go:371-389 | in every interleaving a reply under a taken identifier goes to exactly the client whose request was given it, the query of the session in the slot and the only live query toward that server under that identifier, with its own identifier, the reply's sequence number and data, from the pool address it had asked, and verifies |
| EchoIdentity.LiveQueriesGetTheirReplies | src/nat64/icmp.go:371-390 | conversely a reply under the identifier a live query was given answers that very query, now and at any later time while the identifier stays taken |
| EchoIdentity.LiveQueryIsOwner | src/nat64/icmp.go:231-265 | in every interleaving the slot of a live query's identifier holds that query's own session |
| EchoIdentity.OwnerAsked | src/nat64/icmp.go:231-265 | the session in a slot was registered by a request, and every live query under that identifier is that one |
| EchoIdentity.SlotKeepsItsSession | src/nat64/icmp.go:231-265 | no step hands a taken identifier on to another session |
| EchoIdentity.OwnerStays | src/nat64/icmp.go:231-265 | nor does any run through which it stays taken, and its session keeps its client, server and identifier |
| EchoIdentity.QuotedErrorsGoHome | src/nat64/icmperr.go:436-465 | an error quoting an echo request goes to exactly the client whose request was given the quoted identifier, from the router's pool address, with the error's type, code and extra word, that client's identifier and the quoted sequence number and data |
| EchoIdentity.LiveQueriesGetTheirErrors | src/nat64/icmperr.go:436-465 | conversely an error quoting a live query's identifier reports that very query, as long as the identifier stays taken |
| Ipv6Chain.ParseHeaderChain | src/nat64/ipv6chain.go:36-78 | the loop computes the walk, error cases included |
| Ipv6Chain.ParseOfEncoded | src/nat64/ipv6chain.go:36-78 | parsing a written chain finds its end, fragment fields and protocol, and refuses nested fragments |
| Ipv6Chain.WalkedIsEncoded | src/nat64/ipv6chain.go:36-78 | every accepted packet is such a chain, so parsing inverts writing |
| Fragmentation.FragmentPacket | src/nat64/ipv6chain.go:96-137 | the packets emitted are the fragments, and the packet itself, unchanged, if it fits the MTU |
| Fragmentation.SentUnless | src/nat64/ipv6chain.go:96-107 | nothing is emitted if and only if the packet is too long and the MTU has no room for a fragment |
| Fragmentation.CutUp | src/nat64/ipv6chain.go:108-135 | the loop emits each fragment once and in order |
| Fragmentation.EachFragmentIsRight | src/nat64/ipv6chain.go:96-137 | every fragment fits the MTU, all but the last leave less than eight octets of it unused, and each states its length, keeps the rest of the header, parses back to its offset, flag and identification, and carries exactly its share |
| Fragmentation.ProtocolSurvivesIffIcmpv6 | src/nat64/ipv6chain.go:120-121 | the fragments keep the packet's protocol if and only if it was ICMPv6 |
| EndToEnd.FragmentedUdpSaysIcmpv6 | src/nat64/udp.go:644-656 | every fragment of an injected UDP datagram above the MTU says ICMPv6 and parses as such |
| EndToEnd.FragmentedEchoRequestGetsThrough | src/nat64/icmp.go:120-190 | an echo request above the MTU, cut by the same rule and intercepted in any order, is consumed silently up to the last fragment and then gets the verdict of the whole packet: the very request if it verifies, else nothing |
| EndToEnd.FragmentedEchoReplyVerifies | src/nat64/icmp.go:380-388 | an echo reply above the MTU, fragmented, and read and reassembled in any order by a receiver that works as this code does, verifies and carries identifier, sequence number and data |
| EndToEnd.EchoReplyArrives | src/nat64/icmp.go:380-388 | for every MTU of at least 56 a reply reaches its client, in one packet if it fits and else in fragments in any order: nothing before the last packet, and then the reply, which verifies |
| Interceptor.Intercept | src/nat64/icmp.go:78-190 | the method leaves the table and gives the verdict of its specification: pass, drop, or a message for the echo translator |
| Interceptor.InterceptFragment | src/nat64/icmp.go:150-190 | the same for one fragment, with the cancel of empty fragments and of other messages' first fragments |
| Interceptor.FragmentedRequestGetsThrough | src/nat64/icmp.go:150-190 | an echo request cut in any way, behind any extension headers, arriving in any order within thirty seconds at a table with room, goes on with its last fragment and not before, unchanged, if and only if its checksum verifies |
| Interceptor.CutOrWhole | src/nat64/icmp.go:120-190 | the last fragment gets the verdict of the whole packet if and only if the request has the eight octets of an echo header |
| Interceptor.WholeRequestVerdict | src/nat64/icmp.go:78-148 | a request in one packet leaves the table alone and goes on if it has eight octets and verifies |
| Interceptor.OnlyVerifiedRequestsGoOn | src/nat64/icmp.go:120-190 | whatever the table holds, a message that goes on begins as an echo request and its checksum verifies for the packet's addresses |
| Interceptor.OtherProtocolsPass | src/nat64/icmp.go:78-92 | however its headers are chained, a packet of another protocol is left to the local stack and leaves the table alone |
| Interceptor.OthersPass | src/nat64/icmp.go:78-148 | so are broken header chains and, unfragmented, other ICMPv6 messages |
| Interceptor.RefusedFrames | src/nat64/icmp.go:78-135 | short and mislabelled frames leave the table alone, and which of them are dropped |
| Interceptor.ForeignFragmentsCancel | src/nat64/icmp.go:154-168 | an empty fragment, or the beginning of another message, takes what its datagram had collected along; with nothing collected the other message passes |
| Interceptor.FragmentsArePieces | src/nat64/ipv6chain.go:96-137 | what fragmentIPv6Packet cuts is such a cutting |
| Interceptor.RunsHoldRequests | src/nat64/icmp.go:163-168 | whatever arrives, every first fragment in the table begins an echo request |
| Interceptor.OnlyRequestsComplete | src/nat64/icmp.go:170-184 | so every message handed out begins as an echo request, and the type test after reassembly never drops one |
| Interceptor.InterceptedKeeps | src/nat64/icmp.go:78-190 | every packet keeps the table bounded and its accounts exact |
| Fragmentation.CutParseReassembleWithRoom | src/nat64/reasm.go:61-131 | from any table with a free entry and room for the body, fragments caught in any order within thirty seconds yield nothing until the last and then the very body |
| Fragmentation.CutParseReassemble | src/nat64/reasm.go:61-131 | the same when other datagrams use the table in between, as long as it has room at each fragment |
| DatagramRun.FedInAnyOrder | src/nat64/reasm.go:61-131 | room for the whole body at the start is room at every share of any cutting, in any order, and the body comes out with the last share and not before |
| Datagram.ReassembledInAnyOrder | src/nat64/reasm.go:61-131 | the same for any cutting when other datagrams come in between, as long as there is room at each share |
| Reassembly.NoHolesIffAligned | src/nat64/reasm.go:171-188 | when the walk accepts, nothing is missing if and only if every fragment that ends early is a multiple of eight long |
| Reassembly.WalkDetectsGaps | src/nat64/reasm.go:171-188 | on aligned, disjoint fragments the walk accepts if and only if nothing is missing |
| Reassembly.AssemblyIsExact | src/nat64/reasm.go:117-130 | without gaps the datagram is every fragment at its offset and nothing else |
| HandedOut.HandedOutIsExactIff | src/nat64/reasm.go:105-131 | a datagram handed out has no hole if and only if every fragment that ends early is a multiple of eight long, and then it is each fragment at its offset and nothing else |
| HandedOut.RunsHandOutExactly | src/nat64/reasm.go:61-131 | over every run of adds and cancels a datagram handed out is made of fragments added under its own key and not cancelled since, and the same holds of it |
| HandedOut.HandedOutIsNotEmpty | src/nat64/reasm.go:105-131 | a datagram handed out has a first octet |
| HandedOut.SpoiledDatagramGoes | src/nat64/reasm.go:61-131 | a fragment that is cut wrongly, reaches too far, overlaps another (RFC 5722) or is one too many takes its whole datagram along and hands out nothing; one without room leaves the table to its ageing; any other is kept until its datagram is handed out; no other datagram changes |
| HandedOut.ShortLastFragmentLeavesAHole | src/nat64/reasm.go:66-131 | two adds to an empty table, eight octets behind three marked last, hand out sixteen octets of which five never arrived: the three, the eight and the front of both again |
| ReasmTable.TableStaysBounded | src/nat64/reasm.go:61-167 | over every sequence of adds, cancels and expiries: at most 64 datagrams and 65536 octets, 1 to 16 disjoint fragments each, exact accounts, nothing older than 30 s after an add |
| ReasmTable.FindOverlap | src/nat64/reasm.go:92-99 | an overlap is reported if and only if there is one |
| ReasmTable.FindContiguousLen | src/nat64/reasm.go:171-188 | running maximum and walk, with their bounds |
| ReasmTable.Assemble | src/nat64/reasm.go:122-128 | the copy loop ends although its unit counter wraps, with the assembled octets |
| ReasmTable.ReasmTable.Release | src/nat64/reasm.go:161-167 | the account goes down by the entry's octets and its clamp never acts |
| ReasmTable.ReasmTable.Expire | src/nat64/reasm.go:143-150 | exactly the entries older than the timeout go |
| ReasmTable.ReasmTable.Cancel | src/nat64/reasm.go:136-159 | the entry goes and its existence is reported |
| ReasmTable.ReasmTable.CanJoin | src/nat64/reasm.go:85-103 | range, overlap and count tests together |
| ReasmTable.ReasmTable.Store | src/nat64/reasm.go:105-130 | the fragment is stored, and a completed datagram leaves the table |
| ReasmTable.ReasmTable.Add | src/nat64/reasm.go:61-131 | the table and the datagram handed out, every refusal included |
| InternetChecksum.StoredChecksumVerifies | src/nat64/packet.go:38-46 | a checksum computed over a zeroed field and stored there makes the segment verify, also when zero is sent as all ones |
| InternetChecksum.PlaceholderIsNeutralIff | src/nat64/icmperr.go:252-262 | computed with a non-zero value left in the field, it verifies if and only if that value was all ones |
| InternetChecksum.FoldedIsModular | src/nat64/packet.go:122-126 | folding is arithmetic modulo 2^16-1 that tells zero from its multiples |
| InternetChecksum.AddBytes | src/nat64/packet.go:104-111 | the sum of the 16-bit words, an odd octet counted high |
| InternetChecksum.UpperLayerChecksum | src/nat64/packet.go:100-127 | no 32-bit addition overflows and the result is the complement of the folded sum |
| InternetChecksum.ChecksumCoversPseudoHeader | src/nat64/packet.go:100-127 | that sum is the sum of the 16-bit words of one octet string: the pseudo-header of section 8.1 of RFC 8200, source, destination, length and next header, and then the segment |
| Packets.BuildUdpDatagram | src/nat64/packet.go:17-49 | the buffer written is the datagram |
| Packets.UdpDatagramIsRight | src/nat64/packet.go:17-49 | it verifies, its checksum is never zero, and addresses, ports, both lengths and payload are in place |
| Packets.BuildEchoReply | src/nat64/packet.go:58-85 | the buffer written is the echo reply |
| Packets.EchoReplyIsRight | src/nat64/packet.go:58-85 | it verifies and carries addresses, identifier, sequence number and data |
| ErrorPackets.BuildErrorPacket | src/nat64/icmperr.go:211-278 | the buffer written, truncation and in-place checksums included, is the error packet |
| ErrorPackets.RebuildSegment | src/nat64/icmperr.go:246-272 | the quoted segment is rebuilt in place and nothing else is touched |
| ErrorPackets.ErrorPacketIsRight | src/nat64/icmperr.go:211-278 | at most 1280 octets, verifies, both lengths match the truncated contents, error fields and quoted addresses in place |
| ErrorPackets.UdpRebuiltVerifiesIff | src/nat64/icmperr.go:252-262 | a quoted UDP segment states its own length, keeps a zero checksum zero and otherwise verifies if and only if the field held all ones |
| ErrorPackets.RebuiltByProtocol | src/nat64/icmperr.go:246-272 | a quoted TCP segment or ICMPv6 message verifies and is otherwise as it was, and other protocols are left alone |
| ErrorPackets.UdpErrorVerifies | src/nat64/icmperr.go:414-429 | an error about a UDP session verifies outside and inside and carries both ports and the front of the payload |
| ErrorPackets.EchoErrorVerifies | src/nat64/icmperr.go:446-463 | the same for a quoted echo request, with the client's identifier |
| ErrorPackets.QuotedAddressesAreOriginalIff | src/nat64/icmperr.go:421-429 | the quoted addresses are those of the client's datagram if and only if the client is the embedded server and the socket has the server's address |
| Prefixes.ParsePref64 | src/config/pref64.go:60-96 | a prefix is accepted if and only if it is no IPv4-mapped address, has one of the six lengths and zeros outside prefix and IPv4 octets; the result is its masked network |
| Prefixes.EmbedInto | src/config/pref64.go:168-178 | writing through the offset table gives the layout of section 2.2 of RFC 6052 |
| Prefixes.ExtractFrom | src/config/pref64.go:145-159 | taking an address apart and embedding it again |
| Prefixes.ExtractIff | src/config/pref64.go:145-159 | an address extracts to v if and only if it is the embedding of v and not IPv4-mapped |
| Prefixes.EmbedIsInjective | src/config/pref64.go:163-178 | different IPv4 addresses embed differently |
| Prefixes.RoundTripIff | src/config/pref64.go:145-178 | extraction undoes embedding if and only if it is not an all-zero /56 or /64 prefix with an address spelling the IPv4-mapped marker |
| Prefixes.ZeroPrefixLosesAnAddress | src/config/pref64.go:145-159 | 0.0.255.255 under ::/56 is embedded and not extracted |
| Prefixes.ReservedOctetIsZeroIff | src/config/pref64.go:168-178 | octet 8 is zero if and only if the prefix is shorter than /96 or has a zero there |
| Prefixes.ReservedOctetCanBeSet | src/config/pref64.go:60-96 | a /96 prefix with octet 8 set passes every check, and all it embeds has it set |
| ReverseNames.PtrToIPv6 | src/dns64/proxy.go:950-977 | a name is parsed if and only if, lower-cased, it is the ip6.arpa name of an address (section 2.5 of RFC 3596), and to that address |
| ReverseNames.NameIsInjective | src/dns64/proxy.go:950-977 | different addresses have different names |
| ReverseNames.ReversePtr | src/dns64/proxy.go:931-947 | for the name of an address the result is what the first zone that extracts there says, for any other text nothing |
| ReverseNames.FoundIsUnique | src/dns64/proxy.go:931-947 | there is one such result, so looking up a name is a function of the zones and the address |
| ReverseNames.ReverseFindsEmbeddedIff | src/dns64/proxy.go:931-947 | zone i answers for an address embedded under its prefix if and only if it is not hidden and no earlier zone extracts there, and then the lookup gives the IPv4 address back |
| ReverseNames.ReverseRoundTripIff | src/dns64/proxy.go:931-947 | the lookup gives the IPv4 address back if and only if it is not hidden and an earlier zone that answers says the same |
| ReverseNames.ContainingZoneIsPassedOver | src/dns64/proxy.go:936-945 | an earlier zone that contains the address without extracting from it does not disturb the lookup |
| TokenBucket.AllowedExactly | src/nat64/icmperr.go:296-313 | request j is allowed if and only if every window ending with it fits burst plus refill |
| TokenBucket.WindowBound | src/nat64/icmperr.go:296-313 | no window carries more than burst plus refill |
| TokenBucket.ConformingIsNeverRefused | src/nat64/icmperr.go:296-313 | a source within its budget in every window is never refused |
| TokenBucket.ErrRateLimiter.constructor | src/nat64/icmperr.go:280-287 | nothing was asked yet |
| TokenBucket.ErrRateLimiter.Allow | src/nat64/icmperr.go:288-290 | the budget of synthesised errors: each answer is the exact law's at 50 a second and a burst of 100 |
| TokenBucket.ErrRateLimiter.AllowBudget | src/nat64/icmperr.go:296-313 | the k-th answer is the exact law's k-th decision |
| RateLimiter.SrcRateLimiter.constructor | src/dns64/ratelimit.go:53-58 | an empty limiter at the given rate |
| RateLimiter.SrcRateLimiter.Update | src/dns64/ratelimit.go:62-79 | rate and burst replaced and every bucket capped, in any map order |
| RateLimiter.SrcRateLimiter.Sweep | src/dns64/ratelimit.go:117-124 | exactly the idle buckets go |
| RateLimiter.SrcRateLimiter.Allow | src/dns64/ratelimit.go:84-111 | the answer and the buckets afterwards |
| RateLimiter.SweepingIsInvisible | src/dns64/ratelimit.go:62-124 | over every run of queries and updates each answer is the one a limiter that never evicts gives |
| RateLimiter.InsertionIsBounded | src/dns64/ratelimit.go:84-124 | right after an insertion at most 8192 buckets remain or all were used in the last five minutes |
| RateLimiter.EachSourceMeetsTheLaw | src/dns64/ratelimit.go:84-111 | the answer to a source is the exact law's decision on its own history, at the rate and a burst of twice that but at least ten |
| RateLimiter.ReloadKeepsTheDebt | src/dns64/ratelimit.go:62-79 | a new rate forgets no source and gives no tokens: every bucket keeps what the new burst holds of it |
| RateLimiter.SwitchedOffAllowsAll | src/dns64/ratelimit.go:62-92 | a rate of zero or less lets every query pass and leaves every bucket as it is |
| RateLimiter.TokensWithinBurst | src/dns64/ratelimit.go:62-111 | over every run of queries and updates no bucket holds more than the burst |
| DnsCaches.SmallestTtl | src/dns64/cache.go:180-189 | the least TTL, zero for no records |
| DnsCaches.LifetimeIsSmallestIff | src/dns64/cache.go:81-90 | a non-empty answer is kept for the smaller of smallest TTL and default if and only if no TTL is zero |
| DnsCaches.ZeroTtlOutlivesItself | src/dns64/cache.go:86-88 | an AAAA record with TTL zero is still served a minute later |
| DnsCaches.ReadBack | src/dns64/cache.go:129-158 | an entry is served exactly up to its lifetime, aged by the whole seconds since it was stored |
| DnsCaches.NothingIsClamped | src/dns64/cache.go:143-156 | without zero TTLs the clamp and the 32-bit conversion never change a TTL |
| DnsCaches.HitIsAgedLastSet | src/dns64/cache.go:68-158 | over every run a hit serves the last answer stored since the last reload, within its lifetime, each TTL less by the whole seconds elapsed |
| DnsCaches.CacheStaysBounded | src/dns64/cache.go:103-124 | over every run the number of entries stays within a positive bound |
| DnsCaches.LiveEvictedOnlyIfAllLive | src/dns64/cache.go:103-124 | a live entry is given up only when no entry has expired and the cache is full, and then it is the only one |
| DnsCaches.SetKeepsTheRest | src/dns64/cache.go:81-124 | exactly which entries a set keeps: all while there is room, else all live ones but at most one |
| DnsCaches.PurgedExactly | src/dns64/cache.go:111-116 | a purge drops the expired entries and no other, and changes none |
| DnsCaches.AgedRecord | src/dns64/cache.go:143-156 | ageing takes the seconds off every TTL, down to zero, and changes nothing else |
| DnsCaches.KeptForEver | src/dns64/cache.go:81-145 | without a default lifetime an answer is served for ever as it was stored |
| DnsCaches.DnsCache.constructor | src/dns64/cache.go:42-55 | an empty cache |
| DnsCaches.DnsCache.Purge | src/dns64/cache.go:111-116 | exactly the expired entries go |
| DnsCaches.DnsCache.MakeRoom | src/dns64/cache.go:103-124 | expired entries first, then one arbitrary entry |
| DnsCaches.DnsCache.Set | src/dns64/cache.go:81-96 | the entry replaces its key's, after room was made |
| DnsCaches.DnsCache.Get | src/dns64/cache.go:129-158 | the aged copy, or nothing |
| DnsCaches.DnsCache.Reload | src/dns64/cache.go:68-79 | settings replaced, everything flushed |
| DnsCaches.ReloadsDecide | src/dns64/cache.go:68-79 | over every run the default lifetime is that of the last reload, the size bound that of the last reload with a positive one, and a reload leaves no entry |
| Dns64.DropExcluded | src/dns64/proxy.go:780-804 | exactly the AAAA records inside an excluded subnet go |
| Dns64.FilterAaaa | src/dns64/proxy.go:737-768 | the two passes keep exactly the records all three rules admit, in order |
| Dns64.SynthesiseFromA | src/dns64/proxy.go:810-857 | one AAAA per usable A record, in order |
| Dns64Laws.SynthesisedExactly | src/dns64/proxy.go:810-857 | a record is synthesised if and only if some A record, in no ignored subnet, gives rise to it: its owner or the name, the smaller of its TTL and the cap, its embedding or, for 0.0.0.0 where that is passed on, :: |
| Dns64Laws.FilteredExactly | src/dns64/proxy.go:737-804 | a record is kept if and only if it is no AAAA, or is in no excluded subnet and is passed on, if unspecified, or returned by the zone |
| Dns64.IsIgnoredDst | src/dns64/proxy.go:205-216 | membership in any ignored subnet |
| Dns64.FirstSoaTtl | src/dns64/proxy.go:655-666 | the loop computes the cap |
| Dns64.CapIsFirstSoa | src/dns64/proxy.go:655-666 | the cap is the TTL of the first SOA record by position, else 600 |
| Dns64.ContainsAaaa | src/dns64/proxy.go:711-718 | whether there is an AAAA record |
| Dns64.WithoutA | src/dns64/proxy.go:677-684 | all other records, in order |
| Dns64.Proxy.HandleAaaa | src/dns64/proxy.go:544-704 | either the cache answers and stays, or the answer is resolved from upstream and stored where the code stores it |
| Dns64Laws.ResolvedIsTraced | src/dns64/proxy.go:590-704 | every AAAA of a fresh answer is an admitted upstream AAAA, or the embedding of an upstream A that is not ignored with a TTL within the A record's and the cap, or stood in the answer to the A question |
| Dns64Laws.ResolvedIsSourcedIff | src/dns64/proxy.go:590-704 | every AAAA of a fresh answer has one of the first two sources if and only if every AAAA in the answer to the A question has, where that answer decides |
| Dns64Laws.ExcludedYetServed | src/dns64/proxy.go:668-697 | for every zone with a prefix and every excluded address there are upstream answers that make the proxy serve it, without a source |
| Dns64Laws.EverySourceIsServed | src/dns64/proxy.go:618-697 | where the answer to the A question decides, each of its A records that is not ignored is served and stored as its embedding; and each admitted upstream AAAA is served and stored as it is |
| Dns64Laws.OtherwiseNothingIsStored | src/dns64/proxy.go:590-684 | in every other case nothing is stored, and what the client gets: the failure, the name error, the empty answer or the A question's error |
| Dns64Laws.CacheServesIff | src/dns64/proxy.go:564-588 | the cache answers if and only if it has a live AAAA in no excluded subnet, and then with all it has but the excluded ones |
| Dns64Laws.CachedHasOrigin | src/dns64/proxy.go:619-697 | over every run each cached AAAA was stored by a question for its name after every swap that the last flush came after, and goes back to the resolution that question remembers |
| Dns64Laws.HeldHasOrigin | src/dns64/proxy.go:590-697 | an answer about to be stored goes back to one resolution of its name, under the zone and settings its question remembers |
| Dns64Laws.RunsKeepOpen | src/dns64/server.go:225-238 | over every run a question started since the last swap of settings was matched to a present zone and resolved under the present settings |
| Dns64Laws.ServedHasOrigin | src/dns64/proxy.go:544-704 | over every run of questions, hits, swaps and flushes each AAAA served goes back to one resolution of that name, from the cache also lies outside the exclusions in force, and that resolution used the present zone and settings if and only if those of its question agree with them; unless a hit falls between a swap and its flush this is decided when the answer is stored, and holds whenever that question straddled no swap |
| Dns64Laws.StaleAnswerOutlivesReload | src/dns64/server.go:225-238 | for any new settings and lifetime, a question matched before a reload and stored after it leads to a hit the present zone does not admit, with the reload over |
| Dns64Laws.HeldAnswerOutlivesReload | src/dns64/server.go:225-238 | with the zone unchanged, a question resolved before a reload and stored after it leads to a hit on the unspecified address that the present settings drop |
| Dns64Laws.HitBeforeFlush | src/dns64/server.go:233-235 | a hit between swap and flush serves an address the present zone does not admit |
| Dns64Laws.EmbeddedLeadsBack | src/dns64/proxy.go:846-855 | with the zone prefix the pool's, the synthesised address extracts to the A record's address except in the family above |
| TcpPipeline.RunsKeepInv | src/dns64/server.go:551-648 | under every interleaving slots, numbering, mutex ownership and the write log stay consistent |
| TcpPipeline.InFlightIsBounded | src/dns64/server.go:609-635 | running handlers never exceed the occupied slots, at most 32, and differ from them by the one query being admitted |
| TcpPipeline.ResponsesAnswerDistinctQueries | src/dns64/server.go:572-646 | every response answers a query already read and no two the same one |
| TcpPipeline.NothingAfterFailure | src/dns64/server.go:572-587 | after a failed write nothing more is written, however the run goes on |
| TcpPipeline.FailedWriteCloses | src/dns64/server.go:572-587 | in every run a failed write closes the connection, at the latest when its handler moves on |
| TcpPipeline.ReadingEnds | src/dns64/server.go:589-620 | a failed read, a refusal by the rate limiter or a wait for a slot given up ends the connection: the query in hand gets no handler and no later one is read |
| TcpPipeline.AllowedQueryGetsItsHandler | src/dns64/server.go:589-635 | the next query is read and, if allowed, gets its slot and its handler if a slot is free, the writer is not busy and no write has failed |
| TcpPipeline.WaitingQueryGetsItsHandler | src/dns64/server.go:609-635 | with all 32 slots taken it waits, and gets its handler once one is given back |
| TcpPipeline.ClosesThenReturns | src/dns64/server.go:565-570 | the connection is closed before its handlers are waited for, and returns when there are none |
| TcpPipeline.HandlerAnswers | src/dns64/server.go:632-647 | an undisturbed handler writes the one response to its query and gives its slot back |
| TcpPipeline.ReturnsClean | src/dns64/server.go:565-570 | the connection returns only with every handler finished and every slot free, and if no write failed every admitted query was answered exactly once |
| TcpPipeline.NeverStuck | src/dns64/server.go:551-648 | under every interleaving a connection that has not returned has a possible step |
| TcpPipeline.DrainingGetsDone | src/dns64/server.go:565-570 | once the read loop waits for its handlers, every step leaves strictly less to do |
| TcpPipeline.DrainingEnds | src/dns64/server.go:565-570 | a draining connection takes no more steps than its handlers have left, however they interleave |
| QuerySlots.SemaphoreIsExact | src/dns64/server.go:242-259 | the global semaphore holds one slot per open connection and UDP query, within its limit |
| QuerySlots.TakenUpIffRoom | src/dns64/server.go:242-259 | in every run a connection or UDP query is taken up if and only if those at work are fewer than the limit, and a connection goes only when it has returned |
| QuerySlots.ConnectionsAreIndependent | src/dns64/server.go:503-548 | in every interleaving an open connection is where its own events alone would have led it |
| QuerySlots.ReleasedConnectionsAreQuiet | src/dns64/server.go:503-533 | a connection's slot is given back only when none of its handlers runs |

## Left out

- gVisor, the Yggdrasil core, operating-system sockets, the raw ICMP socket, logging and packet taps are environment steps or opaque values.
- The DNS wire format: records are the four kinds the proxy tells apart, and building a record from text never fails.
- The clock never runs backwards within a run, and durations are unbounded integers or reals; float64 rounding of bucket levels is not modelled.
- The stack hands out at most one endpoint per client tuple, the system binds open sockets to distinct addresses, and a BIB's socket ends only by expiry or shutdown.
- Admission, registration, one forwarded or received datagram, one teardown, one cleanup tick and a reload of the UDP translator are single steps.
- The choice of a port of the client's parity and range for a new UDP socket: the address comes with the event.
- TCP proxying, keepalives and the reaping of idle TCP connections.
- ICMPv4 type and code tables, the parameter-problem offset, Packet Too Big sizes and parsing of the quoted IPv4 header would only add easy members.
- The interceptor's tests of source and destination address.
- The identification of outgoing fragments is an input.
- Fragmentation.CutParseReassemble: assumes room at each fragment, because other datagrams may take it; Fragmentation.CutParseReassembleWithRoom assumes it once.
- Datagram.ReassembledInAnyOrder: the same, with DatagramRun.FedInAnyOrder.
- Datagrams of more than 16 fragments, which the table refuses.
- Text of prefixes: parsing starts from the address and length the CIDR text spells. Names are ASCII.
- Subnets are predicates on addresses, and the zone of a name is looked up in a table rather than matched by suffix.
- ipv4only.arpa, static answers, A and PTR answers, DNSSEC-validating clients, EDNS options, query-name case and forwarder selection.
- Dns64.Proxy.HandleAaaa: both upstream exchanges are inputs, also when the code makes only one, and the settings are read once, although the code loads them anew for each filter.
- DnsCaches.DnsCache.Get: records are values, so that a never-expiring entry is returned without a copy is not visible.
- Dns64Laws.ServedHasOrigin: a question is matched to its zone in one step, looked up in the cache and filtered in one, resolved in one and stored in one, and the settings are swapped in one; the swap and the flush of a reload, and all questions, interleave freely.
- The janitor's timing is the environment's.
- UDP queries are only counted against the query semaphore.

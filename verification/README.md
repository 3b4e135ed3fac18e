# awl, verified

A Dafny 4.11 model of the parts of awl (a peer-to-peer mesh VPN written in Go) whose correctness is not
visible from any one function, with machine-checked proofs. `dafny verify dfyconfig.toml` checks all of it.

**The packet path.** `Checksum`, `HeaderChain`, `PacketView`, `PacketTheorems` and `PacketBuffer` model
`vpn/packet.go`: one's-complement sums with explicit 32-bit bounds, the walk over IPv6 extension headers, and
the in-place repair of a packet whose addresses were rewritten, including fragments of datagrams that are never
seen whole. `PacketPlaces` states what it does to which bytes in the numbers of the RFCs. `Framing` models the
length-prefixed stream of `protocol/tunnel.go` over a reader that splits its bytes arbitrarily. `Routing` and
`GatewayRoundTrip` compose all of it into what a client and its exit node see; `Masks` and `PacketHops` say
where every packet goes and what each receiver makes of it, from the node's fields and the packet's bytes alone.
`InboundBatch` is the in-place rewriting of what a peer sent, `BoundTunnels` takes two tunnel objects to that
theorem.

**The tunnel.** `PeerIndex` and `TunnelState` model the index from addresses to peers, the gateway pointer and
the channels of `service/tunnel.go`; `Ownership` models who owns each pooled packet under every interleaving.

**Peer membership.** `Handshake` is a transition system for any number of nodes exchanging auth and status
messages that may be lost, delayed, reordered or duplicated; `Admission` says who is let in. `Aliases`,
`Addresses`, `Membership`, `MembershipRuns`, `Loading` and `ConfigStore` model aliases, address allocation and
invites as a bounded resource, `Permissions` what is stored and where exit permissions come from; `ConfigWriter`
models the goroutine that saves the configuration.

**Hot swap and system state.** `SwappableTun` models the replaceable TUN device step by step. `LinuxRoutes` and
`LinuxNat` model setup, rollback, reconcile and teardown over a kernel whose every call may fail; `Ranges`
spells out their lists of networks. `WindowsSplit` models longest-prefix match together with the weighted
firewall fence, and `Orchestration` how all of this, the configuration, the tunnel and the resolver stay in
agreement; `TunnelRefinement` ties its account of the tunnel to the tunnel object. `RingBuffer` is the log
buffer.

Code that changes state step by step is modelled by classes and methods, each proved against a specification
function or relation about which the theorems are stated. Protocols are transition systems whose steps are
single atomic accesses; their theorems quantify over all runs. Clocks, randomness, system calls and the network
are parameters (`now`, drawn ids, fault functions, choices of a step).

## Where the code does not meet its promise

- AddPeer lifts a block before its checks. If it then fails, or while it has not committed, a notice that was to
  announce the block goes out as a status of a peer that never was a member, and is taken for a confirmation.
  `Handshake.SendKeepsConsents` gives the exact condition on the sending, `Handshake.CarelessSendViolates` shows it is
  needed in every state, `Handshake.ViolationReachable` is a concrete run. An AddPeer that goes on to succeed does no
  harm (`Handshake.ConfirmedMeansAddedIfAddsSucceed`), and declines are never misread
  (`Handshake.DeclinedMeansBlocked`).
- A refresh can leave a peer unreachable when an address passes from one peer to another within it, and that peer
  stays unreachable until its address changes. `PeerIndex.RefreshReaches`, `PeerIndex.RefreshCompleteIff` and
  `PeerIndex.RunKeepsLost` say exactly when; `PeerIndex.ReplacementLost` is a concrete case.
- The address generator tests neither containment nor use. `Membership.GeneratedProperIffRoom`,
  `Membership.AddKeepsAddresses`, `MembershipRuns.RunKeepsAddresses` and `ConfigStore.Config.Load` say exactly when its
  result is proper; `Membership.GeneratedOutside` is a concrete case.
- CheckIPUnique compares the texts of addresses, while everything else reads them as numbers. An IPv4-mapped spelling of
  another peer's address is accepted, and two peers hold one address; the search for the DNS address overlooks a peer
  stored that way. `Membership.UpdateKeepsAddresses`, `Membership.AddKeepsAddresses`,
  `MembershipRuns.RunKeepsAddresses` and `Loading.LoadsServe` say exactly when; `Membership.SpelledTwice` and
  `Loading.DnsOnPeer` are concrete cases. The only other guard is the request validation of the HTTP API, which is not
  part of this model.
- AddPeer loses a use of an invite when it refuses the alias or address after the reservation.
  `Membership.AddConserves` and `MembershipRuns.RunConserves` say exactly when, `Membership.UseLost` is a concrete
  case; the callers that redeem invites avoid it.
- Incremental and full checksum repair differ on one degenerate family of inputs (`Checksum.AdjustIsRecompute`, with
  the concrete segment of `Checksum.DegenerateSegment`), and a second repair of a fragment is not the identity there
  (`PacketTheorems.FragmentIdempotent`).
- Over IPv4 a UDP checksum that comes out as 0 is sent as 0, which RFC 768 reads as no checksum
  (`PacketTheorems.ZeroField4`, `PacketTheorems.ZeroUdp4`).
- A body that fills the packet buffer is refused unless the stream reports its end with the last bytes
  (`Framing.DecodeOneThenRest`).
- A failed write of the configuration is not retried (`ConfigWriter.FailedWriteCovered`,
  `ConfigWriter.FailedWriteLosesSave`); `ConfigWriter.SaveOnDiskIff` says exactly which saves are on disk at rest.
- Default routes with the same key can confuse the reconcile, and a copy that could not be added once is not tried
  again. `LinuxRoutes.ReconciledIff` and `LinuxRoutes.InStepIff` say exactly when, `LinuxRoutes.AmbiguousKeyLeavesCopy` is
  the simplest case.
- A read of no bytes is not skipped and goes to the gateway as an empty frame, which every receiver drops
  (`TunnelState.Tunnel.HandleReadPacket`, `GatewayRoundTrip.EmptyIsDropped`).
- The comment of recalculateChecksumIPv6 names the Routing header among those handled; the code stops there without
  a repair, and so does the model (`HeaderChain.Ipv6UpperLayer`).

## Model

| member | source | states |
|---|---|---|
| `Checksum.FoldCarries` | vpn/packet.go:363-365 | the carry loop ends for every 32-bit sum and yields its one's-complement value (the sum modulo 65535, with 0xffff for nonzero multiples), no step leaving 32 bits |
| `Checksum.TcpipChecksum` | vpn/packet.go:450-468 | the summing loop gives the complement of the one's-complement sum of the data's big-endian words on top of a start value, an odd last byte counting as high byte; no 32-bit overflow for any body a packet can hold |
| `Checksum.ChecksumIPv4Header` | vpn/packet.go:385-398 | the header loop gives the complement of the header's one's-complement sum |
| `Checksum.ChecksumIPv4TCPUDP` | vpn/packet.go:400-425 | the computed value is the complement of the one's-complement sum over the IPv4 pseudo-header of RFC 768, laid out as bytes, followed by the segment |
| `Checksum.ChecksumIPv6TCPUDP` | vpn/packet.go:427-448 | the same over the pseudo-header of section 8.1 of RFC 8200 |
| `Checksum.Total4Sum` | vpn/packet.go:400-425 | the total over the IPv4 pseudo-header and a segment is the sum of both addresses, the protocol, the length and the segment |
| `Checksum.Total6Sum` | vpn/packet.go:427-448 | the same over IPv6, the 32-bit length in two words |
| `Checksum.VerifiesIffMultiple` | vpn/packet.go:363-365 | a total is accepted if and only if it is a positive multiple of 0xffff |
| `Checksum.AdjustIPv6PseudoHeaderChecksum` | vpn/packet.go:354-373 | the word-by-word adjustment with a fold after every word equals one exact exchange of both addresses folded once (section 3 of RFC 1624) |
| `Checksum.RecomputeVerifies4` | vpn/packet.go:400-425 | for every segment and address pair, zeroing the field, summing and writing the complement back makes a receiver's sum 0xffff |
| `Checksum.HeaderVerifies` | vpn/packet.go:385-398 | the same for the IPv4 header checksum |
| `Checksum.RecomputeVerifies6` | vpn/packet.go:251-279 | over IPv6 any field congruent to the complement modulo 65535 verifies, so UDP's 0 sent as 0xffff does |
| `Checksum.AdjustVerifies` | vpn/packet.go:354-373 | incremental repair is exact for datagrams never seen whole: for every remaining payload, a checksum that verified for the old pair verifies for the new pair after the adjustment |
| `Checksum.AdjustIsRecompute` | vpn/packet.go:354-373 | fast form against slow form: the adjusted checksum is always congruent to the recomputed one and bit-equal if and only if the exchange is not the one degenerate family (checksum 0xffff, all-ones addresses becoming all-zeros), where it is 0xffff against 0 |
| `Checksum.DegenerateSegment` | vpn/packet.go:354-373 | a concrete segment that verifies between all-ones addresses and on which the two forms differ: the adjustment gives 0xffff, the recompute 0 |
| `Checksum.AdjustSameAddresses` | vpn/packet.go:354-373 | adjusting for unchanged addresses is the identity exactly on checksums other than 0xffff, which becomes 0 |
| `HeaderChain.Ipv6UpperLayer` | vpn/packet.go:288-338 | the loop returns, for every byte string, exactly what the recursive walk with sixteen units of fuel returns, and a successful offset lies within the packet |
| `HeaderChain.WalkComplete` | vpn/packet.go:288-338 | for every serialized chain of extension headers that ends within the fuel, the walk reports that chain's protocol, end offset and fragment flags |
| `HeaderChain.WalkSound` | vpn/packet.go:288-338 | whenever the walk succeeds the bytes really are the serialization of such a chain followed by a payload |
| `HeaderChain.UpperLayerMeaning` | vpn/packet.go:288-338 | the walk succeeds if and only if the packet carries a header chain (section 4 of RFC 8200) that ends within sixteen looks, and then reports that chain |
| `HeaderChain.UpperLayerLocal` | vpn/packet.go:288-338 | nothing past the reported offset is parsed, in particular nothing past a later fragment's header, and of the base header only the next-header byte, so rewriting addresses never changes the answer |
| `PacketPlaces.Accepted` | vpn/packet.go:113-153 | Parse accepts exactly packets whose first byte is 0x45 to 0x4f with the header it announces, or 0x60 to 0x6f with 40 bytes |
| `PacketPlaces.ParsedPlaces` | vpn/packet.go:113-153 | and notes the family, the protocol byte at 9 or 6, and over IPv6 the addresses at 8 and 24 |
| `PacketPlaces.AddressPlaces` | vpn/packet.go:113-153 | addresses are at 12 and 16 or at 8 and 24, and replacing one changes those bytes alone |
| `PacketPlaces.RepairPlaces4` | vpn/packet.go:155-188 | with literal places: of an IPv4 packet only bytes 10 and 11 may change and, in a TCP segment of 18 bytes or more, bytes 16 and 17 of it, in a UDP segment of 8 or more, bytes 6 and 7; header and segment then fold to 0xffff; without a proper header nothing changes |
| `PacketPlaces.RepairPlaces6` | vpn/packet.go:201-279 | with literal places: of an IPv6 packet only the two bytes at 16, 6 or 2 of its TCP, UDP or ICMPv6 segment may change, if it is long enough and whole or a first fragment of remembered origin; a whole packet then folds to 0xffff |
| `PacketPlaces.FragmentPlaces6` | vpn/packet.go:218-250 | and a first fragment does, with any rest for which it did under the remembered addresses |
| `PacketPlaces.LookPlaces` | vpn/packet.go:288-338 | the walk in the numbers of RFC 8200: 0 and 60 are options, 44 a fragment header, 43, 50, 51 and 59 end it without an answer, anything else is the upper layer |
| `PacketPlaces.ChainPlaces` | vpn/packet.go:288-338 | it starts at byte 40 with the kind in byte 6 and looks at sixteen headers at most |
| `PacketTheorems.RecalculateVerifies4` | vpn/packet.go:155-188 | for every parsed IPv4 packet the header sum, and with a long enough TCP or UDP segment the pseudo-header sum, folds to 0xffff afterwards, and no byte outside the checksum fields moved |
| `PacketTheorems.ZeroField4` | vpn/packet.go:170-187 | the repaired IPv4 field is written as 0, which RFC 768 reads in a UDP datagram as no checksum, if and only if the total without it is a multiple of 0xffff |
| `PacketTheorems.ZeroUdp4` | vpn/packet.go:179-187 | a concrete UDP datagram over IPv4 on which that happens |
| `PacketTheorems.RecalculateVerifies6` | vpn/packet.go:201-279 | the same for every unfragmented IPv6 packet with a repairable checksum; addresses and header chain are as before |
| `PacketTheorems.NoZeroUdp6` | vpn/packet.go:237-279 | over IPv6 a repaired UDP field is never 0 |
| `PacketTheorems.FirstFragmentStep` | vpn/packet.go:201-249 | one rewrite and repair of a first fragment keeps the invariant: if the datagram verified for the remembered pair with some unseen rest, it verifies for the current pair with the same rest, and the current pair is the remembered one again |
| `PacketTheorems.FirstFragmentKeeps` | vpn/packet.go:217-249 | such a step touches the addresses and the checksum field alone |
| `PacketTheorems.FragmentRunVerifies` | vpn/packet.go:201-249 | the invariant over any sequence of address rewrites, each followed by a repair, for every unseen rest |
| `PacketTheorems.ParseRemembers` | vpn/packet.go:113-153 | parsing establishes what that run needs: the remembered pair is the pair on the wire |
| `PacketTheorems.LaterFragmentUntouched` | vpn/packet.go:212-216 | a later fragment holds no checksum: a repair leaves all its bytes alone |
| `PacketTheorems.RecalculateIdempotent4` | vpn/packet.go:155-188 | repairing an IPv4 packet twice is repairing it once |
| `PacketTheorems.RecalculateIdempotent6` | vpn/packet.go:201-279 | the same for an IPv6 packet seen whole |
| `PacketTheorems.FragmentIdempotent` | vpn/packet.go:212-249 | a first fragment is left alone by a second repair if and only if it carries UDP or the exchange was not the degenerate one |
| `PacketBuffer.Packet.Parse` | vpn/packet.go:113-153 | in place on the buffer: accepts exactly well-formed IPv4 and IPv6 headers and sets family, protocol, addresses and the remembered pair, leaving the bytes alone |
| `PacketBuffer.Packet.CopyTo` | vpn/packet.go:81-90 | the copy is a packet of the same value in a buffer of its own; the original is unchanged |
| `PacketBuffer.Packet.Clear` | vpn/packet.go:71-79 | everything but the bytes of the buffer is reset |
| `PacketBuffer.Packet.RememberAddrs` | vpn/packet.go:340-347 | the current IPv6 pair becomes the remembered one; IPv4 forgets |
| `PacketBuffer.Packet.WriteSrc` | service/tunnel.go:778-849 | overwriting the source in place changes those bytes and nothing else |
| `PacketBuffer.Packet.WriteDst` | service/tunnel.go:778-849 | the same for the destination |
| `PacketBuffer.Packet.RecalculateChecksum` | vpn/packet.go:155-188 | the in-place code turns the buffer into exactly the repaired packet the theorems above are about, for every branch |
| `PacketBuffer.Packet.RecalculateChecksum6` | vpn/packet.go:201-279 | the IPv6 branches in place: full recompute, incremental adjustment, or nothing, and what is remembered afterwards |
| `Framing.HeaderRoundTrip` | protocol/tunnel.go:24-55 | every body length a frame can have and every direction survive being packed into the 64-bit header, and lengths above the limit are refused |
| `Framing.HeaderOnWire` | protocol/tunnel.go:59-74 | a frame starts with 0x80, 0x40 or 0 for forwarded, returned or peer, five zeros and its length, high byte first |
| `Framing.HeaderOffWire` | protocol/tunnel.go:33-55 | eight bytes are a header if and only if they are of that form and the length is at most 3586, and then mean that length and direction |
| `Framing.AppendPacketToBuf` | protocol/tunnel.go:59-74 | appends exactly one encoded frame behind what the buffer held |
| `Framing.DecodeOneThenRest` | vpn/packet.go:92-111 | what one encoded frame decodes to before any bytes: itself and then the rest if and only if its body is below the limit, or fills the buffer at the very end of a stream that reports its end with the last bytes; otherwise decoding stops |
| `Framing.FramingRoundTrip` | protocol/tunnel.go:33-74 | decoding the concatenated encodings of any frames with bodies strictly below the limit returns exactly those frames |
| `Framing.Reader.Read` | vpn/packet.go:92-111 | a stream that hands out its bytes in arbitrary pieces, empty ones included: a read takes a prefix of what is left and reports the end only there |
| `Framing.ReadPacketHeader` | protocol/tunnel.go:33-55 | consumes eight bytes, however they arrive, and returns the size and direction they mean, or fails |
| `Framing.ReadFrom` | vpn/packet.go:92-111 | fills the packet's buffer with the body however it is split, and refuses exactly a body that fills it without the end in sight |
| `Framing.DecodeStream` | service/tunnel.go:130-149 | the receive loop returns the frames the byte stream decodes to, independent of how reads split it |
| `Framing.EncodeBatch` | service/tunnel.go:500-503 | the send loop writes the concatenation of the encodings |
| `Framing.SendThenReceive` | service/tunnel.go:115-168 | send loop, stream and receive loop together: for every way the stream splits its reads the receiver gets exactly the frames sent |
| `Masks.ContainsIff` | service/tunnel.go:402-410 | the byte-wise mask test is agreement of the two addresses, read as numbers, above the host bits |
| `Masks.BroadcastIs` | vpn/packet.go:470-478 | the broadcast address is the number of the subnet whose host bits are all ones |
| `PacketHops.InterceptedIff` | service/tunnel.go:318-323 | a packet is intercepted if and only if it is for the in-tunnel DNS address, before everything else |
| `PacketHops.ToPeerOfAddress` | service/tunnel.go:325-344 | next the peer under that address gets it, tagged as a return if and only if the node serves it and the packet came from outside the awl subnet, otherwise with the tag it has |
| `PacketHops.BroadcastIff` | service/tunnel.go:346-361 | broadcast are exactly IPv4 packets to the subnet's highest number or to 255.255.255.255 that are neither |
| `PacketHops.ElsewhereIff` | service/tunnel.go:363-380 | everything else goes to the bound gateway, tagged forward, if and only if it is not loopback, link-local, multicast or an awl address, and nowhere otherwise |
| `PacketHops.PeerPacket` | service/tunnel.go:833-842 | a peer packet is written if and only if the node has an own address and one for the sender in that family, and then from the sender's to its own, repaired, otherwise the same bytes |
| `PacketHops.ForwardPacket` | service/tunnel.go:808-825 | a forwarded packet is written if and only if the server is on, the peer permitted and both addresses exist, and then only its source is the sender's address |
| `PacketHops.ReturnPacket` | service/tunnel.go:826-832 | a returned packet is written if and only if the sender is the bound gateway and the node has an own address in that family, and then only its destination is that |
| `PacketHops.PeerHop` | service/tunnel.go:303-381 | a packet to a peer's indexed address goes to that peer alone, whose TUN gets one packet from the sender's address there to its own, repaired, otherwise the same bytes |
| `PacketHops.PeerRoundTrip` | service/tunnel.go:303-381 | the answer to what arrived, sent back to the address it came from, returns as if the address first asked had answered |
| `InboundBatch.Rewrite` | service/tunnel.go:778-849 | the in-place rewrite drops a packet or leaves in its buffer exactly what the inbound function of the round-trip theorem says |
| `InboundBatch.WriteInboundBatch` | service/tunnel.go:778-849 | a whole batch, one packet after the other in their own buffers, writes exactly the packets that function keeps, rewritten, in order |
| `GatewayRoundTrip.RequestReachesExit` | service/tunnel.go:303-381 | outbound hop, composing classification, tagging, framing, parsing, rewriting and repair: the exit's TUN gets the packet with the client's address there as source, the same destination, valid checksums and otherwise the same bytes |
| `GatewayRoundTrip.ReplyReachesClient` | service/tunnel.go:778-849 | inbound hop: the reply reaches the client's TUN from the internet address to the client's own address, valid and otherwise the same |
| `GatewayRoundTrip.GatewayRoundTrip` | service/tunnel.go:303-381 | for a bound, permitted pair with the server on and any routable destination outside both awl subnets that is no known peer, the request leaves the exit as sent by the client's address there, and every reply to that address comes back as if the destination had answered the client |
| `GatewayRoundTrip.Delivered` | service/tunnel.go:778-849 | what any tagged frame becomes at the receiver, per direction, for both families and for fragments |
| `GatewayRoundTrip.UnpermittedIsDropped` | service/tunnel.go:792-849 | a forwarded packet is written only by a serving node for a permitted peer, a returned one only by a client from its own gateway, whatever bytes arrive |
| `GatewayRoundTrip.EmptyIsDropped` | service/tunnel.go:365-374 | an empty frame, which is what a read of no bytes becomes on its way to the gateway, is never written by a receiver |
| `BoundTunnels.TunnelsAreBound` | service/tunnel.go:303-381 | a client tunnel bound to its gateway and a serving exit tunnel whose index is complete are a pair the round-trip theorem is about |
| `Handshake.SendKeepsConsents` | service/auth_status.go:130-145 | sending a status in an exchange keeps the invariant on consents if and only if it has a ground: the sender blocks the receiver or had it among its peers |
| `Handshake.StepKeepsConsents` | service/auth_status.go:74-169 | every other atomic step of every handler, user action, retry, restart and message loss keeps the invariant on consents recorded, in flight and in progress |
| `Handshake.StepKeepsRefusals` | service/auth_status.go:74-169 | every step whatsoever keeps the invariant on refusals: what is said or recorded as declined goes back to a block |
| `Handshake.ConfirmedMeansAdded` | service/auth_status.go:198-238 | over all runs, with lost, delayed, reordered and duplicated messages, in which every notice is sent with a ground: if x records y as confirmed, y had added x at some moment up to then |
| `Handshake.ConfirmedMeansAddedIfAddsSucceed` | service/auth_status.go:473-525 | the same for every run in which an AddPeer that lifts a block while a notice about it is pending goes on to succeed at once |
| `Handshake.SuccessfulAddsAreCareful` | service/auth_status.go:473-525 | such runs send no notice without a ground |
| `Handshake.CommitBeforeSendIsCareful` | service/auth_status.go:473-525 | what a send needs: if the peer was added at some moment before, the notice has a ground, however many blocks were lifted in between |
| `Handshake.DeclinedMeansBlocked` | service/auth_status.go:394-438 | over all runs, without any condition: if x records y as declined, y had blocked x at some moment up to then |
| `Admission.AdmittedOnlyIfLetIn` | service/auth_status.go:276-296 | over all runs: a pair leaves the block list or enters the members only if the node's user invited or accepted it, or an auth handler read the block list while the pair was not in it and found the peer unknown |
| `Admission.BlockedStaysOut` | service/auth_status.go:282-296 | over all runs: from a moment at which a peer is blocked, unknown and nothing older is under way, it stays blocked and out until the user says otherwise, whatever it sends, invites and auto-accept included |
| `Admission.AnswersAreHonest` | service/auth_status.go:298-316 | over all runs: an auth answer is declined exactly as the block list was read, and confirmed exactly as the members were read or the handler's own add ended |
| `Admission.OfferedIff` | service/auth_status.go:298-310 | a request is offered for a manual accept if and only if its sender was neither blocked nor known nor taken in |
| `Admission.MembershipChanges` | service/auth_status.go:473-525 | which steps put a pair on the block list or among the members, and which take it out |
| `Admission.RecordChanges` | service/auth_status.go:198-238 | the same for confirmed and declined |
| `Admission.RequestChanges` | service/auth_status.go:394-438 | the same for requests without an answer |
| `Admission.StatusSettles` | service/auth_status.go:198-238 | a status settles a member's record as declined, or as confirmed and not declined, and changes nothing for anyone else |
| `Admission.MessageChanges` | service/auth_status.go:74-156 | over every step: which of them send a request, a status or its reply, and that a status says declined exactly if its receiver is blocked |
| `Admission.AddSetsGoing` | service/auth_status.go:473-549 | over every step: an exchange begins exactly with an add, a block or a refresh, a request exactly with an unconfirmed add or a retry |
| `Admission.UserSetsGoing` | service/auth_status.go:158-169 | over every step: an add or a block by the user begins with that user's call alone |
| `Admission.StatusSetsGoing` | service/auth_status.go:74-156 | over every step: a status is listened to from members and blocked peers alone, and merged exactly unless its sender is blocked or declined |
| `Admission.RestartForgets` | service/auth_status.go:50-72 | a restart ends what a node was doing, drops its requests and changes nothing stored |
| `Handshake.CarelessSendViolates` | service/auth_status.go:130-145 | the condition is exact: from every state in which a notice is sent without a ground the protocol can go on to a confirmation that was never given |
| `Handshake.ViolationReachable` | service/auth_status.go:473-550 | a concrete run of two nodes from the empty state that ends in such a confirmation |
| `Aliases.GenUniqPeerAlias` | config/config.go:643-667 | the wished alias, or the name, or peer, if it is free, otherwise its first free variant with an underscore and a number |
| `Aliases.DecimalReads` | config/config.go:660-660 | the number is written in decimal |
| `Aliases.FreshUnique` | config/config.go:643-667 | that alias is determined by the wish and the used set |
| `Addresses.SearchFree` | config/network_addr.go:129-142 | the search ends within one step more than there are excluded addresses and returns the first free address after the start, with 32-bit wrap-around |
| `Addresses.FirstFreeStaysBelow` | config/network_addr.go:129-142 | from below the broadcast address the search stays below it if and only if some address in between is free, and then finds the lowest |
| `Addresses.SubnetBounds` | config/network_addr.go:201-206 | network and broadcast are 32-bit addresses around the node's own address |
| `Membership.GeneratedIsUsable` | config/network_addr.go:100-188 | a generated address is not excluded, and an unused one of the subnet passes CheckIPUnique; in a proper subnet with fewer than 2^31 - 3 exclusions being in the subnet means being unused |
| `Membership.GeneratedProperIffRoom` | config/network_addr.go:100-143 | the generator tests neither containment nor use: its result is an unused address of the subnet if and only if there is an unreserved address above the highest one in use and below broadcast or, when the subnet is the whole space, the address where the search comes back is unused |
| `Membership.GeneratedOutside` | config/network_addr.go:100-143 | a concrete configuration, 10.66.0.1/24 with a peer at 10.66.0.254, whose next address is 10.66.1.0 |
| `Membership.AddKeepsAliases` | service/auth_status.go:494-501 | adding a peer keeps aliases distinct, whichever way the alias was chosen and whatever the outcome |
| `Permissions.AddedRecord` | service/auth_status.go:473-525 | what a successful AddPeer stores, field by field: name and confirmation are the caller's; permission, alias and invite id are the redeemed invite's, or the caller's and none; other peers and invites are unchanged |
| `Permissions.RefusedRecord` | service/auth_status.go:473-525 | a failed AddPeer lifts the block, may have spent one use, and stores nothing |
| `Membership.AddKeepsAddresses` | service/auth_status.go:502-525 | from proper addresses, adding a peer keeps them distinct, in the subnet and different from the local, broadcast and DNS addresses if and only if the address given by hand is no other peer's under another spelling or, without one, there was room |
| `Membership.UpdateKeepsAddresses` | api/peers.go:139-148 | updating a peer's settings keeps addresses proper if and only if no accepted address is another peer's under another spelling, which the textual comparison does not see |
| `Membership.SpelledTwice` | config/network_addr.go:146-188 | a concrete update, 10.66.0.2 given to a second peer as ::ffff:10.66.0.2, that is accepted with the subnet almost empty and leaves two peers with one address |
| `Membership.MergeKeepsMembers` | service/auth_status.go:216-235 | merging a peer's status, with the alias it may give, keeps aliases distinct, addresses and members as they are |
| `Membership.AddConserves` | config/invites.go:143-156 | AddPeer conserves invites (uses spent equal insertions made, at most the allowed number, none after revocation) if and only if, before the call, the token does not open an invite whose alias is taken and not to be made unique, or come with an address that is not free; redeeming callers, who set UniquifyAlias and no address, always conserve |
| `Membership.UseLost` | service/auth_status.go:482-525 | a concrete configuration and call on which a use is spent and no peer added |
| `Membership.RevokeConserves` | config/invites.go:112-127 | revoking conserves invites |
| `Membership.CreateConserves` | config/invites.go:48-85 | creating an invite with a fresh id and token conserves invites |
| `Permissions.RedeemsIff` | config/invites.go:158-198 | a token opens exactly the invite that has it, not revoked, not past its date, with uses left |
| `Permissions.CreatedInvite` | config/invites.go:48-85 | a new invite has the terms it was created with, at least one use, none spent |
| `Permissions.UpdatedRecord` | api/peers.go:113-156 | an accepted update stores alias, address and permission and nothing else |
| `Permissions.MergedRecord` | service/auth_status.go:216-235 | a merged status stores the name and confirms; permission, address and invite stay |
| `MembershipRuns.RunKeepsAliases` | service/auth_status.go:353-382 | in every state of every run of creating, revoking, adding, updating, removing, merging status and restarting, aliases are distinct |
| `MembershipRuns.RunConserves` | config/invites.go:143-156 | invites are conserved in all states of a run if and only if no AddPeer in it meets the condition above |
| `MembershipRuns.SafeCallersConserve` | service/auth_status.go:353-382 | so with the callers that redeem invites they always are |
| `MembershipRuns.RunKeepsAddresses` | service/auth_status.go:502-510 | a run, restarts included, from proper addresses has proper addresses in all its states if and only if every generated address was asked for while there was room, at a restart room for every peer without one, and no address taken by hand or reserved for DNS was another peer's under another spelling |
| `MembershipRuns.RevocationIsFinal` | config/invites.go:143-176 | however a run goes on, no peer is inserted under an invite after its revocation |
| `Permissions.PermissionHasOrigin` | service/auth_status.go:493-519 | over every run a peer has exit permission if and only if the last successful AddPeer or update of it gave it, the user or the redeemed invite |
| `Permissions.TermsStay` | config/invites.go:48-85 | over every run an invite is never lost and its terms never change |
| `Loading.LoadIsIdempotent` | config/other.go:274-297 | loading what was loaded before changes nothing: no alias, no address, not the reserved DNS address, whatever order the map yields |
| `Loading.DnsIsStable` | config/network_addr.go:73-92 | assigning addresses to peers never moves the reserved DNS address of a later load |
| `Loading.DnsIsHighest` | config/network_addr.go:73-92 | the DNS address is the highest inner address that is neither the node's own nor some peer's dotted text, and missing only if there is none |
| `Loading.AssignKeepsAccount` | config/other.go:290-292 | each address assigned while loading uses up exactly one of the addresses that can be given out, until the first improper one shows there were fewer than peers without one |
| `Loading.LoadsServe` | config/other.go:274-297 | whatever order the peers have their turns in, the outcome of the turns is as loading promises and as the account says |
| `Loading.DnsOnPeer` | config/network_addr.go:73-92 | a concrete configuration, with a peer stored as ::ffff:10.66.0.254, whose address is reserved for the DNS server on top of it |
| `ConfigStore.Config.MaxInUse` | config/network_addr.go:107-119 | the loop over the peers finds the highest address of the subnet in use, the node's own included |
| `ConfigStore.Config.GenerateNextIpAddrExcept` | config/network_addr.go:100-143 | the address is the first free one after the highest in use, found within |except|+3 steps |
| `ConfigStore.Config.CheckIPUnique` | config/network_addr.go:146-188 | accepts exactly texts that read as an address in the subnet, not broadcast, local or reserved, and that are not letter for letter another peer's |
| `ConfigStore.Config.IsUniqPeerAlias` | config/config.go:252-262 | true exactly when no other peer has the alias |
| `ConfigStore.Config.ComputeNetstackDNSIP` | config/network_addr.go:73-92 | the downward search finds the highest address strictly inside the subnet whose dotted text is nobody's, or none exactly when there is none |
| `ConfigStore.Config.FindUsableInvite` | config/invites.go:158-198 | finds the usable invite of a token if there is one, and otherwise the reason: unknown, revoked, expired or used up, in that order |
| `ConfigStore.Config.ReserveInvite` | config/invites.go:143-154 | spends exactly one use of the invite found, or changes nothing |
| `ConfigStore.Config.CreateInvite` | config/invites.go:48-85 | takes the first unused of ten drawn ids, clamps the uses to at least one, and fails without effect when all ten are taken |
| `ConfigStore.Config.RevokeInvite` | config/invites.go:112-127 | revokes once, and says whether the invite exists |
| `ConfigStore.Config.AddPeer` | service/auth_status.go:473-525 | the whole critical section as specified by the relation the conservation and address theorems are about, on every path: already known, invite rejected, alias taken, address taken, added |
| `ConfigStore.Config.UpdatePeerSettings` | api/peers.go:113-156 | changes alias, address text and permission if and only if the peer is known and both pass for it, otherwise nothing |
| `ConfigStore.Config.RemovePeer` | config/config.go:307-323 | removes the peer and reports whether it was there |
| `ConfigStore.Config.MergeStatus` | service/auth_status.go:216-235 | takes over the name, confirms, and gives a fresh alias exactly to a peer without one; an unknown peer is passed over |
| `ConfigStore.Config.Suggest` | api/peers.go:272-287 | suggestions for any number of pending requests are pairwise distinct, and each unused one in the subnet passes CheckIPUnique |
| `ConfigStore.Config.Load` | config/other.go:274-297 | the loop is one of the runs of turns the theorem is about; every peer gets a unique non-empty alias, an empty address text is filled in and any other kept, and all addresses are proper if and only if the reserved one is nobody's and the addresses that can be given out, which the specification counts, are at least as many as the peers without one |
| `ConfigWriter.RunKeepsInv` | config/config.go:230-243 | at every point of every interleaving the latest Save is on disk, or a token is queued, or the writer holds a token not yet marshalled or a snapshot at least that new |
| `ConfigWriter.SaveReachesDisk` | config/config.go:597-610 | no save is lost: what a Save saw is on disk whenever the writer comes to rest later, and after the final flush if the Save came before Close |
| `ConfigWriter.DiskNeverGoesBack` | config/config.go:613-629 | over all runs, failing writes included, a version on disk is never replaced by an older one |
| `ConfigWriter.CloseFlushes` | config/config.go:572-585 | once the writer has stopped, the version at Close is on disk |
| `ConfigWriter.WriterSettles` | config/config.go:597-610 | left alone the writer comes to rest within eight steps |
| `ConfigWriter.FailedWriteCovered` | config/config.go:613-629 | a failing write keeps the latest Save covered if and only if an earlier write or a newer token covers it |
| `ConfigWriter.SaveOnDiskIff` | config/config.go:597-629 | over all runs with failing writes: once the writer rests every save made before Close has been attempted, and it is on disk if and only if it was already or one of the attempts worked |
| `ConfigWriter.FailedWriteLosesSave` | config/config.go:613-629 | a concrete run in which a failed write loses a save for good |
| `PeerIndex.RefreshSound` | service/tunnel.go:170-254 | after a refresh in any order every entry leads to a peer that has that address, and every peer has the address the configuration says |
| `PeerIndex.Tracked` | service/tunnel.go:203-235 | from any sound index, a slot whose address changes is found under it exactly until the old holder of that address is visited |
| `PeerIndex.RefreshReaches` | service/tunnel.go:170-254 | for every visiting order and any sound index: with distinct addresses a peer is reachable after the refresh if and only if it keeps an address under which it was reachable, or takes one that nobody gives up later in the same refresh |
| `PeerIndex.RefreshCompleteIff` | service/tunnel.go:170-254 | with distinct addresses all peers are reachable in every visiting order if and only if no address passes from one peer to another within the refresh and nobody who keeps an address was unreachable under it before |
| `PeerIndex.ReplacementLost` | service/tunnel.go:170-254 | a concrete refresh that loses a peer in every order: a new peer with the address of one that is gone |
| `PeerIndex.LostStaysLost` | service/tunnel.go:203-235 | a peer lost once stays unreachable in every later refresh that leaves its address as it is |
| `PeerIndex.RunKeepsSound` | service/tunnel.go:170-254 | the index is sound after any run of refreshes |
| `PeerIndex.RunKeepsComplete` | service/tunnel.go:170-254 | a run of refreshes without hand-overs keeps every peer reachable |
| `PeerIndex.RunKeepsLost` | service/tunnel.go:170-254 | over a whole run, a peer once lost stays lost until its address changes |
| `PeerIndex.RefreshedPeers` | service/tunnel.go:181-254 | who has a channel after a refresh: known peers with a valid address, and known ones that had one |
| `TunnelState.VpnPeer.Close` | service/tunnel.go:452-462 | requires open channels: no channel is ever closed twice; both are drained |
| `TunnelState.VpnPeer.Send` | service/tunnel.go:338-343 | requires an open channel: no send targets a closed one; a full channel drops the packet |
| `TunnelState.Tunnel.Update` | service/tunnel.go:181-235 | adding or readdressing one peer keeps the tunnel linked and has exactly the specified effect on the index; other peers keep their objects |
| `TunnelState.Tunnel.RemovePeer` | service/tunnel.go:237-254 | the peer is closed and no entry leads to it any more |
| `TunnelState.Tunnel.Refresh` | service/tunnel.go:170-279 | the loops together refine the refresh of the index in some order; known peers stay the same objects, all others are closed, permissions follow, and the gateway stays bound exactly if its peer is still there |
| `TunnelRefinement.RefreshTunnel` | service/tunnel.go:170-279 | after a refresh the tunnel has exactly the known peers with a valid address and known ones it had, each validly configured one with the configured addresses, all with the configured permission |
| `TunnelState.Tunnel.Resync` | service/tunnel.go:181-254 | the update and delete loops together; channels of peers that stay are untouched |
| `TunnelState.Tunnel.Close` | service/tunnel.go:281-300 | every peer is closed once and nothing is left to look up |
| `TunnelState.Tunnel.SetVPNGatewayPeer` | service/tunnel.go:650-680 | binds if and only if the peer is known, permitted and has a channel; otherwise nothing changes |
| `TunnelState.Tunnel.ClearVPNGatewayPeer` | service/tunnel.go:692-706 | unbinds |
| `TunnelState.Tunnel.Decide` | service/tunnel.go:312-380 | the lookup decides as the classification of the round-trip theorem does, and a peer it names is one of the tunnel's |
| `TunnelState.Tunnel.NodeShows` | service/tunnel.go:303-381 | what of the tunnel classification goes by: the index, the peers' addresses and permissions, the subnets, the bound gateway and the server switch |
| `TunnelState.Tunnel.Dispatch` | service/tunnel.go:312-380 | exactly the channels the decision names get the packet, the peer's under the decided tag, if they have room, and no other |
| `TunnelState.Tunnel.HandleReadPacket` | service/tunnel.go:303-381 | decides as the classification of the round-trip theorem does, a read of no bytes included, and hands the packet to exactly those channels; after Close nothing is handed over |
| `TunnelState.Tunnel.RefreshPeersList` | service/tunnel.go:170-279 | a closed tunnel is left alone; otherwise the refresh above |
| `TunnelState.Run` | service/tunnel.go:116-381 | any sequence of refreshes, gateway binds and unbinds, sends and Close keeps the index sound, the gateway pointer in the peer map and every channel in use open, and the index complete as long as no refresh hands an address over |
| `TunnelState.TraceKeepsComplete` | service/tunnel.go:116-381 | every peer is reachable at every moment of a trace of tunnel operations whose refreshes hand no address over |
| `TunnelState.Tunnel.constructor` | service/tunnel.go:75-108 | a new tunnel is valid and its index complete |
| `TunnelState.Tunnel.HandleStreamPacket` | service/tunnel.go:151-165 | a received packet reaches the sender's own channel and no other, and only while the sender is known |
| `Ownership.StepConserves` | service/tunnel.go:131-167 | every atomic step leaves the number of owners of every packet as it was, except that a new packet gains one and a collected one loses one |
| `Ownership.RunIsAffine` | vpn/vpn.go:73-80 | in every state of every run each packet has at most one owner among pool, TUN array, stream handlers, broadcast copy, channels and live batches |
| `Ownership.NeverReturnedTwice` | vpn/vpn.go:77-80 | no packet is given back to the pool while it is there |
| `Ownership.NeverUsedAfterReturn` | service/tunnel.go:573-625 | a packet live in a batch is not in the pool and has no other owner |
| `Ownership.SlotsNeverAlias` | service/tunnel.go:347-364 | two slots never hold the same packet; a broadcast copy is never its original |
| `Ownership.BatchConserves` | service/tunnel.go:588-623 | filtering and clearing a batch move live packets or return one of them, and lose none |
| `Ownership.DeadPointersNeverRead` | service/tunnel.go:588-623 | the pointers in-place compaction leaves behind are never read: whatever they are, the batch goes the same way |
| `Ownership.FilterBatch` | service/tunnel.go:588-601 | in place on the array: the packets that parse move to the front in order, the others are given back in order |
| `Ownership.GoodAndBad` | service/tunnel.go:588-601 | kept and returned packets together are the batch |
| `Ownership.GoodIsKept` | service/tunnel.go:588-601 | a packet is kept exactly if it parses and given back exactly if it does not |
| `Ownership.ReadBatchFromChan` | service/tunnel.go:862-879 | takes packets in order until the batch is full or nothing waits |
| `Ownership.ClearTempPackets` | service/tunnel.go:526-531 | gives every packet back once and leaves no pointer behind |
| `SwappableTun.RunKeepsInv` | vpn/swappable_tun.go:76-206 | the invariant under every interleaving of calls, swaps, Close, the forwarder and closes from outside |
| `SwappableTun.ErrClosedHasReason` | vpn/swappable_tun.go:109-148 | a call returns ErrClosed only if the wrapper was closed or the device current at its check was closed from outside |
| `SwappableTun.RetriesBoundedBySwaps` | vpn/swappable_tun.go:109-148 | a call's retries are at most the devices installed since it began |
| `SwappableTun.SwapTakesEffect` | vpn/swappable_tun.go:94-107 | a swap is refused, and its device closed, exactly if the wrapper is closed or the batch sizes differ; otherwise the new device is current, later loads meet it and the old one is closed |
| `SwappableTun.SwapIsSeamless` | vpn/swappable_tun.go:109-131 | a call held by a device that a swap closed gets out of it and goes on with the current one |
| `SwappableTun.DevicesClosedOnce` | vpn/swappable_tun.go:94-107 | all installed devices have one batch size; each is closed at most once by the wrapper, at rest exactly if it is not current or the wrapper is closed; refused ones are closed |
| `SwappableTun.EventsClosedOnce` | vpn/swappable_tun.go:178-206 | the event channel is closed at most once and only after Close |
| `SwappableTun.ForwarderEnds` | vpn/swappable_tun.go:190-206 | once Close has returned the forwarder can always go on and ends within three of its steps |
| `SwappableTun.CallsEndAfterClose` | vpn/swappable_tun.go:109-131 | once Close has returned a call inside a device is told so and does not retry |
| `LinuxRoutes.SetupGatewayRoutes` | vpn/netstate/routes_linux.go:78-165 | whichever call fails, either nothing was touched or no awl rule, route or table entry is left; on success the exemption table is exactly the host's defaults; the host's own defaults are never touched |
| `LinuxRoutes.Setup6` | vpn/netstate/routes_linux.go:183-223 | a host without IPv6 is no error; otherwise all of rule, copies and TUN default, or a failure whose remains are recorded for the rollback |
| `LinuxRoutes.LiveExemptionDefaults` | vpn/netstate/routes_linux.go:521-547 | the result is exactly the live forwarding defaults that do not lead into the TUN |
| `LinuxRoutes.ReconcileTable` | vpn/netstate/routes_linux.go:553-600 | removes the copies whose key vanished and adds those whose key is new, except where adding fails |
| `LinuxRoutes.ReconciledIff` | vpn/netstate/routes_linux.go:553-600 | whatever keys the routes have: from recorded copies the table equals the live defaults afterwards if and only if under every key on both sides it holds the desired routes already, under every key that went it holds no second copy, under every key that came there is one route, and every new copy could be added |
| `LinuxRoutes.InStepIff` | vpn/netstate/routes_linux.go:553-600 | from a table in step and with no fault the reconcile is exact if and only if under every key the old and the new defaults are the same or one side has none and the other one |
| `LinuxRoutes.ReconciledIfFaithful` | vpn/netstate/routes_linux.go:553-600 | where keys tell routes apart, the table never holds anything unrecorded and is exact if and only if the copies to keep were there and every new one could be added |
| `LinuxRoutes.AmbiguousKeyLeavesCopy` | vpn/netstate/routes_linux.go:602-608 | the simplest failing case: for any two different routes with one key the replaced copy is neither removed nor replaced and survives teardown |
| `LinuxRoutes.ReplacedIff` | vpn/netstate/routes_linux.go:602-608 | one default replaced by another is followed if and only if they differ in link, gateway, source or metric, or not at all |
| `LinuxRoutes.Manager.EnableClientRoutes` | vpn/netstate/manager_linux.go:106-119 | installed and in step with the host on success; as before on failure or when already active |
| `LinuxRoutes.Manager.DisableClientRoutes` | vpn/netstate/manager_linux.go:125-135 | leaves nothing of awl's behind, whatever happened since enabling |
| `LinuxRoutes.Manager.Reconcile` | vpn/netstate/routes_linux.go:489-514 | touches neither rules nor TUN defaults nor the host's routes; from a table in step it makes the table the live non-TUN forwarding defaults of both families |
| `LinuxRoutes.Session` | vpn/netstate/manager_linux.go:106-135 | enable, any interleaving of host changes and reconciles with any faults, then disable: nothing of awl's is left and the host has the defaults it gave itself; when no call fails, both exemption tables equal the live defaults after every tick |
| `LinuxNat.SetupNat` | vpn/netstate/nat_linux.go:50-105 | on failure the kernel is as before, forwarding included; on success IPv4 is installed and IPv6 either installed or as before; if no call fails it succeeds, IPv6 included where asked for |
| `LinuxNat.SetupNat6` | vpn/netstate/nat_linux.go:114-163 | a failed IPv6 setup rolls back rules, chain and forwarding of IPv6 only |
| `LinuxNat.SetupRules` | vpn/netstate/nat_linux.go:165-207 | complete chain, jumps and MASQUERADE in the right order, or a prefix of them on top of the host's rules |
| `LinuxNat.TeardownUndoes` | vpn/netstate/nat_linux.go:273-304 | tearing down any partial setup gives the host's FORWARD and POSTROUTING rules back, in order |
| `LinuxNat.Manager.EnableServerNAT` | vpn/netstate/manager_linux.go:148-162 | all or nothing, no effect when active, and success if no call fails |
| `LinuxNat.Manager.DisableServerNAT` | vpn/netstate/manager_linux.go:166-176 | the kernel is exactly as it was before enabling |
| `LinuxNat.ChainVerdict` | vpn/netstate/nat_linux.go:166-188 | the chain decides every packet by its destination address: replies pass, a new flow passes if and only if no private subnet covers its destination |
| `LinuxNat.ServedTraffic` | vpn/netstate/nat_linux.go:166-206 | with the gateway on, forwarding is on, what leaves is masqueraded, traffic of awl in either direction is decided by the awl chain before any rule of the host, and everything else by the host's rules as before |
| `Ranges.PrivateRanges4` | vpn/netstate/private_subnets.go:17-23 | the private IPv4 subnets are 10/8, 172.16/12, 192.168/16, 100.64/10 and 169.254/16 as ranges of numbers |
| `Ranges.PrivateRanges6` | vpn/netstate/private_subnets.go:27-30 | the private IPv6 subnets are fc00::/7 and fe80::/10 as ranges of numbers |
| `Ranges.ExitForwards` | vpn/netstate/nat_linux.go:166-206 | so a client's new flow is dropped if and only if its destination is in one of those ranges, and replies pass |
| `WindowsSplit.ParseClientBypassCIDRs` | vpn/netstate/routes_windows.go:131-156 | accepts exactly lists of well-formed prefixes more specific than /1, and keeps each masked network once |
| `Prefixes.MaskedCovers` | vpn/netstate/routes_windows.go:143-143 | clearing host bits changes nothing about which addresses a prefix covers |
| `Prefixes.MaskedIsCanonical` | vpn/netstate/routes_windows.go:143-143 | two prefixes of one length mask to the same network if and only if one covers the other's address |
| `WindowsSplit.BestUplink` | vpn/netstate/uplink_windows.go:46-59 | the first of the eligible candidates with the lowest metric, or none exactly when none is eligible |
| `WindowsSplit.ClientRoutes.ReplaceBypassRoutes` | vpn/netstate/routes_windows.go:158-214 | afterwards every bypass row is on the uplink of its own family, and a prefix has a row if and only if that uplink exists and creating the row worked |
| `WindowsSplit.SplitTunnel` | vpn/netstate/routes_windows.go:92-129 | every destination has a route, and longest-prefix match sends it to a physical uplink if and only if an installed bypass prefix covers it |
| `WindowsSplit.LongestExists` | vpn/netstate/routes_windows.go:92-129 | longest-prefix match finds a row in every non-empty set of matching rows |
| `WindowsSplit.NoUplinkStaysInside` | vpn/netstate/routes_windows.go:202-207 | with no bypass row installed every destination has a route, and it is the tunnel |
| `WindowsSplit.ClientFenceRules` | vpn/netstate/routes_windows.go:405-497 | the rule list is one layer per family, with its own share of the bypass prefixes |
| `WindowsSplit.FenceVerdict` | vpn/netstate/routes_windows.go:405-497 | some rule decides every connection, and the highest-weight matching rule permits it if and only if it is awl's own, in the tunnel, to a local destination or to a configured bypass |
| `WindowsSplit.SomeRuleDecides` | vpn/netstate/routes_windows.go:405-497 | no connection is left undecided |
| `WindowsSplit.RoutedIsPermitted` | vpn/netstate/routes_windows.go:386-404 | routes and fence agree: every destination has a route, and over it the fence permits the connection, whoever makes it |
| `WindowsSplit.ClientRoutes.RoutesAndFenceAgree` | vpn/netstate/routes_windows.go:92-214 | the installed rows of a valid object are a table those theorems are about: every destination has a route, physical exactly under an installed bypass, and the fence permits it |
| `WindowsSplit.OthersAreBlocked` | vpn/netstate/routes_windows.go:402-404 | another process's physical flow passes if and only if its destination is local or in a bypass |
| `Ranges.LocalRanges4` | vpn/netstate/routes_windows.go:406-411 | the local IPv4 destinations are the private ones, loopback, multicast and 255.255.255.255 |
| `Ranges.LocalRanges6` | vpn/netstate/routes_windows.go:412-417 | the local IPv6 destinations are the private ones, ::1 and multicast |
| `Orchestration.Gateway.EnableClient` | service/vpn_gateway.go:168-182 | succeeds exactly when the peer may be the gateway and routes are up or can be installed; when it fails, also as a switch, the whole state is unchanged |
| `Orchestration.Gateway.DisableClient` | service/vpn_gateway.go:190-201 | routes, binding, configuration and forced DNS go together |
| `Orchestration.Gateway.SetServerEnabled` | service/vpn_gateway.go:208-237 | NAT, configuration and tunnel flag change together or not at all |
| `Orchestration.Gateway.RemovePeer` | api/peers.go:316-334 | the active gateway is refused, so the binding survives |
| `Orchestration.Gateway.Refresh` | service/tunnel.go:256-268 | after guarded removals a refresh leaves the binding alone |
| `Orchestration.Gateway.UnguardedRemoval` | service/tunnel.go:256-268 | without the guard routes stay up with nothing bound |
| `Orchestration.Run` | service/vpn_gateway.go:168-237 | after any sequence of calls with any failures: routes up, client configured and tunnel bound agree, the bound peer is the configured one, known and with a channel; NAT, configured server and tunnel flag agree; DNS is forced exactly when routes are up if awl is the system resolver |
| `TunnelRefinement.Bind` | service/tunnel.go:650-680 | the tunnel object and gateway mode's account of it accept or refuse a gateway alike and stay in agreement |
| `TunnelRefinement.Unbind` | service/tunnel.go:692-706 | the same when it is unbound |
| `TunnelRefinement.Refresh` | service/tunnel.go:170-279 | the same for a refresh: both end with the same peers and the same binding |
| `RingBuffer.RingBuffer.Write` | ringbuffer/ring_buffer.go:28-47 | appends a prefix to the history: everything that fits, after a compaction if and only if the position is past 17 tenths of the size, and all of any write of at most 2·size − ⌊17·size/10⌋ bytes |
| `RingBuffer.RingBuffer.Compact` | ringbuffer/ring_buffer.go:34-38 | the overlapping copy keeps the last size bytes |
| `RingBuffer.RingBuffer.Bytes` | ringbuffer/ring_buffer.go:54-71 | returns the last min(size, total) bytes accepted since the last reset |
| `RingBuffer.Replay` | ringbuffer/ring_buffer.go:20-79 | for every sequence of writes of any size and resets the buffer reads like the tail of what was accepted, across any number of compactions |
| `RingBuffer.KeptIsWritten` | ringbuffer/ring_buffer.go:28-47 | what is accepted is the plain list of everything written if and only if every write since the last reset fit, as writes within the slack always do |

## Left out

- IPv4 fragments and padding after the IP length field: the IPv4 path has no fragment test, so its claims hold only for packets seen whole.
- Stream errors other than the end of the stream: a read yields bytes, nothing, or the end.
- TrimSpace, domain names and Unicode: aliases are plain strings. Of the text of a peer's IPv4 address the model keeps the number it reads as and which spelling it is.
- ConfigStore.Config.CheckIPUnique: an IPv6 address that is not IPv4-mapped counts as unreadable and is refused; the source relies on the request validation never to pass one.
- TunnelState: an address that does not parse is an absent one, as the refresh treats it.
- ConfigStore.Config.GenerateNextIpAddrExcept: the exclusion list leaves some address of the 32-bit space free, without which the search of the source has no end.
- ConfigStore.Config.AddPeer: takes tokens to be distinct, as 128-bit random values are; the token itself is a drawn value.
- MembershipRuns: a restart keeps the configured subnet; editing the stored file in between is not modelled.
- Handshake: BlockPeer and each critical section are single steps; the message set over-approximates duplication, and names, aliases and invites are abstracted to the choice whether an add succeeds.
- ConfigWriter: contents are version numbers; marshalling and the atomic file write are single steps.
- TunnelState.Tunnel.HandleReadPacket: handles one packet of a batch; the array of a batch and its slots are in Ownership, and connectivity events of the gateway peer are not modelled.
- Ownership: which channel a packet goes to is a free choice there; that only open channels are chosen is proved in TunnelState.
- SwappableTun: Swap and Close run one after the other, as documented; a device reports ErrClosed only when closed, and its event channel closes with it.
- LinuxRoutes and LinuxNat: undo calls on present entries succeed; the order of routes of equal metric, iptables back ends and other processes changing awl's own rules are not modelled.
- LinuxRoutes.Manager.Reconcile: needs route keys to tell the host's default routes apart, within each family, as the code assumes.
- WindowsSplit: host routes more specific than the default, WinNAT, socket options and the order in which fence and routes go up are not modelled.
- Orchestration: a tunnel that is switched off, startup with a stored client mode, and calls that overlap are not modelled.
- The libp2p host, DHT, relay, metrics, HTTP API beyond the guards above, CLI, tray, updater, SOCKS5, awldns and the Android and macOS managers: they would add plumbing or foreign libraries.

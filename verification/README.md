# A model of the GTP-U router

The router is an XDP program that sits on the user plane of a mobile network. It
recognises GTP-U tunnels, finds the forwarding rule of the subscriber, enforces a
per-rule packet cap with autonomous quarantine, and then strips, builds or redirects
the frame, with static 1:1 NAT on the way. A small control plane validates rules,
writes them into the shared maps and makes egress ports known to the redirect table.

This project models that behaviour in Dafny and proves what it guarantees over all
frames, all rules and all runs. `dafny verify dfyconfig.toml` checks everything.

## How it is built

The program works by changing memory, and so does the model: `FwdRules.FwdRule` is the
map value the data plane updates, `Maps.RuleMaps` the maps both planes share,
`Xdp.Context` the packet buffer that is moved and overwritten, `Stats.StatsMap` the
per-CPU statistics, `Router.Program` one invocation of the program over all of them.
Each method is proved equal to a function on values (`Policy.Enforce`, `Nat.Rewrite`,
`Gtpu.Parse`, `Gtpu.Encap`, `Gtpu.Decap`, `Dataplane.Step`, `ControlPlane.Exec`, ...),
and the theorems are about those functions and about runs of them: arrival times for
the policy, and any interleaving of operator commands and packets for the router. What
those functions compute is told a second time, without their branches and with offsets,
ports, types and times as plain numbers: the policy in `Arrivals`, recognition in
`Recognition`, a whole packet in `Outcomes`, the commands in `Commands`.

| file | content |
|---|---|
| `Bytes.dfy` | fixed-width words, big-endian fields, overwriting part of a frame |
| `Policy.dfy` | the rate cap and quarantine: one evaluation, and runs of it |
| `RateCap.dfy`, `Ceiling.dfy`, `Quarantine.dfy`, `Arrivals.dfy` | what the policy guarantees over whole runs, and every verdict told from arrival times |
| `Checksum.dfy`, `Nat.dfy` | one's-complement arithmetic; the address rewrite |
| `Gtpu.dfy`, `Tunnel.dfy` | recognition, decapsulation, encapsulation; round trip |
| `Recognition.dfy`, `Standard.dfy` | recognition told from the bytes of a frame, and compared with the standard's reading |
| `Rules.dfy`, `Dataplane.dfy` | the rule; one packet through the program |
| `Outcomes.dfy` | which rule decides, what is passed, dropped and sent, and the bytes that leave |
| `ControlPlane.dfy`, `Commands.dfy`, `Completion.dfy` | validation, commands, egress ports; what the maps hold after any run; what a validated rule is worth |
| `Isolation.dfy`, `Conservation.dfy`, `Growth.dfy`, `EndToEnd.dfy`, `Reply.dfy`, `Witnesses.dfy` | whole-program theorems, and frames that come out damaged |
| `Stats.dfy`, `Accounting.dfy`, `LostUpdates.dfy` | counters: per CPU, summed, and under races |
| `FwdRule.dfy`, `Maps.dfy`, `Xdp.dfy`, `Router.dfy` | both planes on mutable objects |

Choices that hold throughout: integers have the source's widths and wrap where the
source's do (counters, the violation streak, deadlines, 16-bit lengths, unsigned clock
subtraction). Bit tests are written as division and remainder (`flags & 0xE0` is
`flags / 32`). The three hash maps are one map whose keys are tagged `Teid`, `UeIp` or
`NatIp`. The clock is an input of every packet; in runs it never goes backwards and stays
below 2^63 ns. Moving the packet head fails when there is too little headroom or when no
Ethernet header would fit any more, as the kernel helper does. The egress port table is
a set of interface numbers below 256; writing a larger one is an error.

## What the proofs found

- The documentation promises a "packets-per-second ceiling". The fixed window admits up
  to twice the configured number less one in a second: one packet opens a window, and
  the rest of its cap and the next one meet at its end (`RateCap.LateBurstAdmitted`).
  That is the bound, with one exception: in seconds that start within the first one of
  the clock twice the cap can be admitted, because a rule is written with a window at
  time 0 that no packet opened (`RateCap.TwiceTheCapIff`). For rules first used later, a
  cap of one packet is met in every run, and no larger cap is
  (`Ceiling.CeilingAlwaysMetIff`);
  `Arrivals.CeilingMetIffArrivals` says, from arrival times alone, exactly which runs
  meet it.
- "Consecutive one-second windows" are consecutive windows that packets opened. Minutes
  of silence in between do not reset the streak (`Quarantine.IdleTimeKeepsStreak`);
  `EvidenceSpansAtMost` and `BackToBackIff` say how far apart the windows can lie and
  when they are back to back. The packet that sets a quarantine is itself admitted.
- A packet stamped earlier than its window began, as by another CPU, finds the window
  over, because its age is an unsigned difference: it is admitted into a new window that
  begins in the past (`RateCap.EarlierClockOpensWindow`).
- NAT keeps IPv4 headers valid or corrupt as they were, but not always segments.
  `Nat.AcceptedIff` tells beforehand whether the receiver accepts the rewritten one. A
  stored TCP checksum of zero, which is legitimate, is skipped, and the segment is then
  refused unless the two addresses have congruent sums
  (`Witnesses.ZeroChecksumBroken`). A UDP checksum that the update turns into zero is
  written as it is, which means "no checksum": a corrupt datagram is accepted
  (`Witnesses.CorruptUdpAccepted`), a good one goes unprotected.
- The rewrite never looks at the fragment fields. A later TCP or UDP fragment is dropped
  if it is too short to pass for a layer-4 header, and otherwise two bytes of its payload
  are "repaired" (`Nat.FragmentSurvivesIff`, `Witnesses.FragmentCorrupted`,
  `Witnesses.ShortFragmentDropped`).
- The extension walk starts when any of the E, S and PN flags is set and stops silently
  after four headers. `Standard.ParseMeetsStandardIff` gives the exact frames that are
  recognised as 3GPP TS 29.281 says. A G-PDU with only the S flag and a stale next-type
  byte is never read as the tunnel it is (`Standard.StaleNextTypeMisread`): it is dropped
  if its packet is too short to pass for an extension header
  (`Standard.StaleNextTypeDropped`), and otherwise the walk goes on into the packet, so
  that bytes of the subscriber's own can be served as the packet
  (`Standard.StaleNextTypeServed`). With five extension headers the fifth is taken for
  the packet: the frame goes to the kernel if it does not look like IPv4
  (`Standard.FiveExtensionsMissed`); if it does, it is served by the addresses read out
  of the header, and a decap rule sends the header out in front of the packet
  (`Standard.FifthHeaderServed`, `Standard.FifthHeaderSent`).
- Validation accepts rules that cannot forward: `add-teid --action encap` succeeds, and
  until the next command about that rule none of its packets is sent. What the policy
  admits goes to the kernel, uncounted; `pkt_count` shows only drops of the cap and
  quarantine blocks (`Completion.EncapTeidForwardsNothing`).
- Uplink NAT replaces whatever source the inner packet has. A reply to the NAT address
  goes to the one address given to `add-nat`, so it returns to its sender exactly if the
  sender used that address (`Reply.ReplyReturnsIff`).
- `add-teid` and `add-nat` write the rule before they provision its port, so an
  interface number of 256 or more leaves an unusable rule behind a failed command
  (`ControlPlane.FailedAddTeidLeavesRule`); `add-ueip` never provisions.

## Model

| member | source | states |
|---|---|---|
| `RateCap.RateCapHolds` | gtp-router/ebpf/gtp_xdp.c:151-176 | in every run of a capped rule, every interval of the clock holds at most (its length in started seconds + 1) times the cap of admitted packets, and one less unless its first packet is the first of the window at clock time 0 |
| `RateCap.TwiceTheCapPerSecond` | gtp-router/ebpf/gtp_xdp.c:151-176 | hence at most twice the cap in any second, and twice the cap less one with the same exception |
| `RateCap.TwiceTheCapIff` | gtp-router/ebpf/gtp_xdp.c:151-176 | some run of a rule admits twice its cap in the second that starts at a given time if and only if that time is within the first second of the clock |
| `RateCap.LateBurstAdmitted` | gtp-router/ebpf/gtp_xdp.c:151-176 | at every later time some run admits twice the cap less one within a second: that bound cannot be improved |
| `Ceiling.CeilingAlwaysMetIff` | gtp-router/ebpf/gtp_xdp.c:151-176 | of the rules whose first packet comes after the first second of the clock, exactly those with a cap of one meet the documented ceiling in every run |
| `Ceiling.CeilingMetIff` | gtp-router/ebpf/gtp_xdp.c:151-176 | without quarantine a run admits at most the cap in every second if and only if, in successive windows read off the arrivals, the packet that would exceed the cap comes a full second after its rival |
| `Arrivals.CeilingMetIffArrivals` | gtp-router/ebpf/gtp_xdp.c:134-177 | the same for every validated rule, quarantine included, on the arrivals that are let through, which are told from arrival times alone |
| `Arrivals.VerdictsFromArrivals` | gtp-router/ebpf/gtp_xdp.c:134-177 | for every packet of every run of a validated rule: its verdict, and whether it sets a quarantine, told from arrival times without counters, flags or deadlines |
| `Arrivals.FirstQuarantineIff` | gtp-router/ebpf/gtp_xdp.c:151-168 | the first quarantine of a run is set by the first arrival that begins a window right behind `threshold` windows with more than `rate_pps` arrivals each |
| `Ceiling.QuarantineOnlyRemoves` | gtp-router/ebpf/gtp_xdp.c:134-177 | on packets outside quarantine a rule decides as if it had no quarantine |
| `RateCap.NoFalseDrops` | gtp-router/ebpf/gtp_xdp.c:134-177 | traffic with at most the cap in every second is never dropped and never quarantined, in runs of any length |
| `RateCap.EarlierClockOpensWindow` | gtp-router/ebpf/gtp_xdp.c:151-176 | a packet stamped before its window began is admitted into a new one that begins at its own time, unless the unsigned difference wraps all the way round |
| `Quarantine.QuarantineIffEvidence` | gtp-router/ebpf/gtp_xdp.c:151-168 | a packet sets a quarantine if and only if it ends `threshold` consecutive windows, each with exactly `rate_pps` admitted and at least one dropped |
| `Quarantine.EvidenceSpans` | gtp-router/ebpf/gtp_xdp.c:151-168 | those windows cover at least `threshold` seconds |
| `Quarantine.EvidenceSpansAtMost` | gtp-router/ebpf/gtp_xdp.c:151-164 | if successive arrivals are less than a gap apart, those windows cover less than threshold * (1 s + gap) |
| `Quarantine.BackToBackIff` | gtp-router/ebpf/gtp_xdp.c:151-164 | they are back to back, covering exactly `threshold` seconds, if and only if a packet arrives at the end of each of them |
| `Quarantine.NextWindowWithinIff` | gtp-router/ebpf/gtp_xdp.c:151-167 | the next window opens within any given delay if and only if a packet arrives in that stretch |
| `Quarantine.IdleTimeKeepsStreak` | gtp-router/ebpf/gtp_xdp.c:151-164 | a run in which minutes of silence do not reset the streak, and the packet after them sets a quarantine |
| `Quarantine.QuarantinesApart` | gtp-router/ebpf/gtp_xdp.c:134-177 | two quarantines of a rule start at least (seconds + threshold) seconds apart |
| `Quarantine.BlockedIffQuarantined` | gtp-router/ebpf/gtp_xdp.c:136-146 | a packet is blocked if and only if an earlier one set a quarantine whose deadline is still ahead |
| `Quarantine.RateDropIffCapUsed` | gtp-router/ebpf/gtp_xdp.c:170-174 | the cap drops a packet if and only if it is not the first, is not blocked, and its window, under a second old, already admitted `rate_pps`; with the previous row this fixes every verdict |
| `Quarantine.BlockedUntilDeadline` | gtp-router/ebpf/gtp_xdp.c:136-141 | until the deadline every packet is blocked and the policy state is frozen |
| `Quarantine.ReleasedAtDeadline` | gtp-router/ebpf/gtp_xdp.c:142-176 | the first packet at or after the deadline is admitted into a fresh window with streak 0 |
| `Quarantine.NoDurationNoBlock` | gtp-router/control/maps/validate.go:10-14 | why validation demands a duration: without one no packet is ever blocked |
| `Policy.RunKeepsInvariant` | gtp-router/ebpf/gtp_xdp.c:134-177 | the invariant of every reachable policy state, deadlines included, with no 64-bit overflow |
| `FwdRules.FwdRule.EnforcePolicy` | gtp-router/ebpf/gtp_xdp.c:134-177 | the in-place evaluation computes the policy function and leaves the counters of the rule alone |
| `FwdRules.FwdRule.BumpRule` | gtp-router/ebpf/gtp_xdp.c:110-119 | both counters advance in 64 bits and nothing else changes |
| `Checksum.TwoCarries` | gtp-router/ebpf/gtp_xdp.c:189-190 | two carries always suffice |
| `Checksum.UpdateRefinesFull` | gtp-router/ebpf/gtp_xdp.c:182-192 | the incremental update of RFC 1624 gives bit for bit the recomputed checksum, exactly unless the changed data is all zero |
| `Checksum.UpdateRoundTrip` | gtp-router/ebpf/gtp_xdp.c:182-192 | updating there and back restores a checksum exactly when it was not 0xffff |
| `Checksum.UpdateZeroIff` | gtp-router/ebpf/gtp_xdp.c:182-192 | exactly which checksums and addresses update to zero |
| `Nat.RewriteEffect` | gtp-router/ebpf/gtp_xdp.c:197-268 | exactly which frames are rewritten, the new address and checksums, and that no other byte changes |
| `Nat.HeaderValidityKept` | gtp-router/ebpf/gtp_xdp.c:209-210 | after a rewrite the IPv4 header is valid if and only if it was before |
| `Nat.RewriteRecomputes` | gtp-router/ebpf/gtp_xdp.c:209-210 | if the stored IPv4 checksum was the one computed from scratch, the repaired one is, bit for bit |
| `Nat.AcceptedIff` | gtp-router/ebpf/gtp_xdp.c:216-228 | for every unfragmented TCP or UDP packet: whether the receiver accepts the rewritten segment, told from the packet and the two addresses; UDP is summed over its own length field, and a UDP checksum of zero counts as none |
| `Nat.AcceptanceKeptIff` | gtp-router/ebpf/gtp_xdp.c:216-228 | exactly when a rewrite keeps an accepted segment accepted and a refused one refused |
| `Nat.ZeroChecksumSegment` | gtp-router/ebpf/gtp_xdp.c:220-227 | a segment accepted with a stored zero stays accepted exactly when it is UDP or the two addresses have congruent sums |
| `Witnesses.ZeroChecksumBroken` | gtp-router/ebpf/gtp_xdp.c:650-671 | a received tunnel frame whose valid TCP packet leaves the router refused by its receiver |
| `Witnesses.CorruptUdpAccepted` | gtp-router/ebpf/gtp_xdp.c:222-227 | a received tunnel frame whose corrupt, refused UDP datagram leaves the router accepted |
| `Nat.FragmentSurvivesIff` | gtp-router/ebpf/gtp_xdp.c:212-228 | exactly when a later fragment, which the source does not recognise, passes NAT with its payload unchanged: lengths, protocol, stored bytes and address sums |
| `Witnesses.FragmentCorrupted` | gtp-router/ebpf/gtp_xdp.c:650-671 | a received tunnel frame whose later UDP fragment is sent on with another payload |
| `Witnesses.ShortFragmentDropped` | gtp-router/ebpf/gtp_xdp.c:650-671 | a received tunnel frame whose short later TCP fragment is dropped |
| `Nat.RewriteRoundTrip` | gtp-router/ebpf/gtp_xdp.c:197-268 | rewriting U to N and N to U restores the packet byte for byte exactly when the stated checksum conditions hold |
| `Gtpu.WalkExtensions` | gtp-router/ebpf/gtp_xdp.c:601-620 | the loop computes the limited walk, stays inside the frame and keeps cursor = start + size |
| `Gtpu.LimitedWalkIff` | gtp-router/ebpf/gtp_xdp.c:601-620 | the bounded walk agrees with the unbounded one exactly on chains of at most that many headers |
| `Gtpu.WalkMeetsStandardIff` | gtp-router/ebpf/gtp_xdp.c:590-621 | the exact chains on which the walk is that of TS 29.281 section 5.2.1, E flag included |
| `Recognition.TunnelIff` | gtp-router/ebpf/gtp_xdp.c:550-631 | for every frame: exactly when it is a tunnel with a given TEID, subscriber address, source and length to strip, told from its bytes and a chain of at most four extension headers |
| `Recognition.BareIff` | gtp-router/ebpf/gtp_xdp.c:563-577 | exactly the frames that are candidates for encapsulation: IPv4 that is not UDP, or whole UDP to a port other than 2152 |
| `Recognition.StackIff` | gtp-router/ebpf/gtp_xdp.c:556-625 | exactly the frames left to the kernel unseen: other protocols, malformed IPv4, no G-PDU, no IPv4 inside |
| `Recognition.TruncatedIff` | gtp-router/ebpf/gtp_xdp.c:92-99 | exactly the frames cut short in a header |
| `Recognition.BadIff` | gtp-router/ebpf/gtp_xdp.c:603-620 | exactly the frames with a broken chain of extension headers |
| `Standard.ParseMeetsStandardIff` | gtp-router/ebpf/gtp_xdp.c:550-631 | for whole frames: recognition is that of the standard exactly when the frame does not come with the GTP-U port, there are no optional fields, the chain is one both read alike, or both readings end where no IPv4 packet begins |
| `Standard.TunnelMeetsStandardIff` | gtp-router/ebpf/gtp_xdp.c:579-631 | for frames either takes for a tunnel the chain condition alone decides |
| `Standard.StaleNextTypeMisread` | gtp-router/ebpf/gtp_xdp.c:590-621 | a G-PDU with S set, E clear and a nonzero unused next-type byte, around any IPv4 packet, is by the standard a tunnel and is never read as that tunnel |
| `Standard.StaleNextTypeDropped` | gtp-router/ebpf/gtp_xdp.c:606-613 | it is dropped if the packet in it is shorter than the extension header it passes for |
| `Standard.StaleNextTypeServed` | gtp-router/ebpf/gtp_xdp.c:606-631 | packets so built that bytes inside them are served in their place |
| `Standard.FiveExtensionsMissed` | gtp-router/ebpf/gtp_xdp.c:603-625 | frames with five extension headers, the fifth not looking like IPv4, that the standard serves and the program leaves to the kernel |
| `Standard.FifthHeaderServed` | gtp-router/ebpf/gtp_xdp.c:603-631 | if the fifth looks like IPv4, its bytes are taken for the packet's addresses and decapsulation is to stop in front of it |
| `Standard.FifthHeaderSent` | gtp-router/ebpf/gtp_xdp.c:650-671 | a decap rule then sends the extension header out in front of the packet, where the standard strips it |
| `Gtpu.DecapSafe` | gtp-router/ebpf/gtp_xdp.c:276-303 | for every recognised tunnel decapsulation takes no error return, keeps the inner packet, and the saved source is the field NAT replaces |
| `Gtpu.DecapIff` | gtp-router/ebpf/gtp_xdp.c:276-303 | decapsulation fails exactly if no fixed IPv4 header of version 4 lies behind the bytes to strip, and else keeps all that follows |
| `Tunnel.EncapDecapRoundTrip` | gtp-router/ebpf/gtp_xdp.c:320-484 | what either format builds is recognised with the configured TEID, and decapsulating it returns the same bytes behind a fresh Ethernet header |
| `Tunnel.WrappedParses` | gtp-router/ebpf/gtp_xdp.c:568-631 | the parser finds TEID, subscriber address, inner source and 36 or 44 bytes to strip in what encapsulation builds |
| `Tunnel.OuterHeaderValid` | gtp-router/ebpf/gtp_xdp.c:369-380 | every outer IPv4 header passes the receiver's checksum test, for every rule and length |
| `Tunnel.OuterLengthsIff` | gtp-router/ebpf/gtp_xdp.c:353-393 | the nested length fields agree exactly when the outer length fits 16 bits |
| `Tunnel.OuterIpFields` | gtp-router/ebpf/gtp_xdp.c:349-367 | where the rule's MACs and addresses and the fixed fields end up in the frame |
| `Tunnel.OuterGtpFields` | gtp-router/ebpf/gtp_xdp.c:453-481 | the UDP and GTP-U fields, and in the 5G form the PDU Session Container |
| `Outcomes.DecidesIff` | gtp-router/ebpf/gtp_xdp.c:495-638 | for every table and frame: which rule decides, told from which keys are in the maps and their actions, TEID before subscriber address and NAT before subscriber address |
| `Outcomes.PassIff` | gtp-router/ebpf/gtp_xdp.c:547-689 | exactly which packets are passed to the kernel - nothing for the program, claimed by no rule, or a tunnel under an encap rule - and that they are counted so and left as they came |
| `Outcomes.DropIff` | gtp-router/ebpf/gtp_xdp.c:547-689 | exactly which packets are dropped, every cause listed, and under which slot |
| `Outcomes.SentIff` | gtp-router/ebpf/gtp_xdp.c:495-681 | exactly which packets a rule sends, and to which interface |
| `Outcomes.RedirectKeepsTunnel` | gtp-router/ebpf/gtp_xdp.c:672-676 | a redirect rule sends every tunnel it admits with nothing changed but the Ethernet addresses |
| `Outcomes.DecapSendsInner` | gtp-router/ebpf/gtp_xdp.c:650-671 | the frame a decap rule sends, byte by byte: new Ethernet header and the inner packet, with at most its source and checksums changed |
| `Outcomes.PlainDownlink` | gtp-router/ebpf/gtp_xdp.c:527-543 | the frame a ueip_map rule sends downlink: every field of the envelope, then the packet unchanged |
| `Outcomes.NatDownlink` | gtp-router/ebpf/gtp_xdp.c:501-522 | the same for a nat_map rule: the 5G envelope, then the packet with at most its destination and checksums changed |
| `Outcomes.PlainDownlinkIff` | gtp-router/ebpf/gtp_xdp.c:524-543 | a packet to a subscriber with an encap rule is sent exactly if the policy admits it and there are 36 bytes of headroom, and leaves in that rule's tunnel |
| `EndToEnd.UplinkRelays` | gtp-router/ebpf/gtp_xdp.c:650-671 | a packet that a decap rule sends has a valid header if and only if the packet in the tunnel had, and its segment is accepted exactly when that could be told from the packet in the tunnel, stored zeros included |
| `EndToEnd.DownlinkRelays` | gtp-router/ebpf/gtp_xdp.c:495-545 | a packet sent downlink is a tunnel with a valid outer header, addressed to the subscriber; the same two statements hold of the packet inside |
| `Reply.ReplyReturnsIff` | gtp-router/ebpf/gtp_xdp.c:640-671 | under any traffic and commands about other rules: a reply to a packet sent under a NAT address is sent exactly if it can be rewritten and there is room for the tunnel; it comes in the tunnel of the nat_map rule, addressed to that rule's subscriber, hence back to the sender exactly if that is the source the sender used |
| `EndToEnd.FramesGoWhereRulesSay` | gtp-router/ebpf/gtp_xdp.c:640-681 | passed frames are untouched; sent frames were admitted, carry the MACs of the deciding rule and leave by its interface, or nowhere if it is unknown |
| `Dataplane.StepFrame` | gtp-router/ebpf/gtp_xdp.c:547-689 | a packet changes no rule but the one that decides about it, and no configuration |
| `Isolation.StateIsolated` | gtp-router/ebpf/gtp_xdp.c:495-545 | until a command is about it, a rule's policy state is that of its own packets alone, under any interleaving of other commands and of packets over all maps |
| `Isolation.VerdictIsolated` | gtp-router/ebpf/gtp_xdp.c:633-643 | so is the decision about each of its packets |
| `Isolation.NeighboursIrrelevant` | gtp-router/ebpf/gtp_xdp.c:633-643 | routers that differ in other rules, commands and traffic leave the rule in the same state |
| `Isolation.RouterRateCap` | gtp-router/ebpf/gtp_xdp.c:547-689 | the rate cap as a bound on frames a rule actually sends, from its writing until a command is about it again; one less if no packet arrives in the first second of the clock |
| `Isolation.RouterNoFalseDrops` | gtp-router/ebpf/gtp_xdp.c:547-689 | a subscriber within its cap is admitted whatever others send and the operator does to other rules |
| `Isolation.RouterBlockedIff` | gtp-router/ebpf/gtp_xdp.c:547-689 | inside the router a packet is blocked exactly when its own rule's earlier traffic set an unexpired quarantine |
| `Isolation.RouterVerdict` | gtp-router/ebpf/gtp_xdp.c:547-689 | inside the router the verdict about each packet is the one told from the arrival times of its own rule's packets |
| `Conservation.ActionCompletesIff` | gtp-router/ebpf/gtp_xdp.c:645-681 | the exact rules and frames whose admitted packets do not complete |
| `Conservation.CountersConserved` | gtp-router/ebpf/gtp_xdp.c:110-119 | from the writing of a rule until a command is about it again: pkt_count = cap drops + quarantine blocks + completed actions, rate_drop_count = cap drops, byte_count = their bytes, modulo 2^64 |
| `Conservation.ShortfallIsUnfinished` | gtp-router/ebpf/gtp_xdp.c:501-543 | the packets a rule saw exceed the counted ones by exactly the unfinished ones |
| `Completion.AlwaysCompletesIff` | gtp-router/ebpf/gtp_xdp.c:645-681 | for each map, exactly which rules carry out their action on every packet they decide about, with frames that defeat the others |
| `Completion.EncapTeidAccepted` | gtp-router/control/cmd/add_teid.go:151-171 | an encap rule for a TEID passes validation and the command succeeds |
| `Completion.EncapTeidForwardsNothing` | gtp-router/ebpf/gtp_xdp.c:677-678 | from the writing of such a rule until a command is about it again, no packet it decides about is sent, admitted ones go to the kernel unchanged, and pkt_count = cap drops + quarantine blocks modulo 2^64 |
| `Growth.BoundedGrowth` | gtp-router/ebpf/gtp_xdp.c:305-314 | over any number of traversals under any rules a frame never grows by more than 44 bytes |
| `Growth.DecapBetweenEncaps` | gtp-router/ebpf/gtp_xdp.c:564-586 | an encapsulated frame is decapsulated before it is ever encapsulated again |
| `Accounting.SlotIsVerdict` | gtp-router/ebpf/gtp_xdp.c:92-108 | a packet bumps exactly the slot of its verdict; only frames cut short in a header bump none |
| `Accounting.VerdictsAccounted` | gtp-router/control/stats/stats.go:49-67 | for every run since a load, with any commands in between and every spread over CPUs, the totals at quiescence are the packets and original bytes of each verdict modulo 2^64 |
| `Accounting.EveryPacketLandsOnce` | gtp-router/ebpf/gtp_xdp.c:550-688 | the three counts and the frames cut short add up to the packets |
| `Accounting.CountersReported` | gtp-router/control/stats/stats.go:49-67 | what the control plane reads back under keys 0, 1 and 3 are the packets passed, dropped and redirected since the load, and their bytes |
| `Stats.ReadFromMap` | gtp-router/control/stats/stats.go:49-68 | fails exactly when a key is missing, else returns the sums over all CPUs in 64 bits |
| `Stats.SpreadCountsSequentially` | gtp-router/control/stats/stats.go:57-60 | per-CPU counting sums to one sequential counter |
| `Stats.StatsMap.BumpStats` | gtp-router/ebpf/gtp_xdp.c:101-108 | one CPU's entry advances, or nothing without an entry |
| `LostUpdates.LostUpdatesOnlyUndercount` | gtp-router/ebpf/gtp_xdp.c:110-119 | under every interleaving of loads and stores the counters never exceed the bumps and bytes begun |
| `LostUpdates.ExactIffSerial` | gtp-router/ebpf/gtp_xdp.c:112-117 | at quiescence pkt_count is exact if and only if no load-store pair was ever interrupted |
| `LostUpdates.BytesExactIffSerial` | gtp-router/ebpf/gtp_xdp.c:112-118 | so is byte_count, for its own load-store pairs, frames never being empty |
| `Commands.WriteLaw` | gtp-router/control/cmd/add_teid.go:151-175 | for every command that writes a rule: exactly what stands in the maps and ports afterwards, and whether it succeeds |
| `Commands.DeleteLaw` | gtp-router/control/maps/maps.go:43-49 | deleting takes out that rule and no other; a missing key is no error |
| `Commands.LoadLaw` | gtp-router/control/loader/loader.go:83-118 | a load starts without rules, and its interfaces become egress ports, up to one that does not fit |
| `Commands.MapsAreLastWritten` | gtp-router/control/maps/maps.go:36-49 | over any run of commands and traffic, the rules and egress ports are those of the commands alone: the last accepted write that was not deleted or followed by a load |
| `Commands.DeletedDecidesNothing` | gtp-router/control/cmd/del_teid.go:17-35 | a deleted rule decides about no packet until a command writes one under its key again |
| `Commands.ReportsFirstLack` | gtp-router/control/maps/validate.go:9-43 | validation reports exactly the first requirement a rule lacks, and accepts a rule that lacks none |
| `ControlPlane.NoRedirectMiss` | gtp-router/ebpf/gtp_xdp.c:70-78 | in any interleaving of commands and traffic since load, with every command successful, every forwarding rule has a ready port and no redirect misses |
| `ControlPlane.AddTeidKeepsIff` | gtp-router/control/cmd/add_teid.go:151-171 | exactly when add-teid keeps every port ready |
| `ControlPlane.AddNatKeepsIff` | gtp-router/control/cmd/add_nat.go:109-127 | the same for add-nat |
| `ControlPlane.AddUeipKeepsIff` | gtp-router/control/cmd/add_ueip.go:128-146 | add-ueip keeps every port ready exactly when the port was ready already |
| `ControlPlane.FailedAddTeidLeavesRule` | gtp-router/control/cmd/add_teid.go:163-171 | a failing provisioning step leaves the rule written |
| `ControlPlane.OnlyUsableRules` | gtp-router/control/maps/validate.go:5-8 | whatever commands are given and whatever fails, only validated rules are in the maps |
| `Maps.RuleMaps.AddTeidRule` | gtp-router/control/cmd/add_teid.go:151-175 | on the maps the data plane works on: validate, write the rule into memory of its own, provision |
| `Maps.RuleMaps.AddNatRule` | gtp-router/control/cmd/add_nat.go:55-131 | the same, with the rule filled in field by field and the subscriber's address as its NAT field |
| `Maps.RuleMaps.Put` | gtp-router/control/maps/maps.go:36-41 | a written rule replaces the old value with zeroed state, shares memory with no other, and leaves every other rule as it is |
| `Maps.RuleMaps.DeleteRule` | gtp-router/control/maps/maps.go:43-49 | deletion on the live maps is that command |
| `Xdp.Context.NatRewrite` | gtp-router/ebpf/gtp_xdp.c:197-268 | the in-place rewrite is `Nat.Rewrite` |
| `Xdp.Context.DecapGtpu` | gtp-router/ebpf/gtp_xdp.c:276-303 | the in-place decapsulation is `Gtpu.Decap` |
| `Xdp.Context.EncapGtpu` | gtp-router/ebpf/gtp_xdp.c:320-484 | the in-place encapsulation is `Gtpu.Encap` for either format |
| `Xdp.Context.ParseFrame` | gtp-router/ebpf/gtp_xdp.c:550-631 | following the cursor through the buffer is `Gtpu.Parse` |
| `Router.Program.Process` | gtp-router/ebpf/gtp_xdp.c:547-689 | one invocation on live rules, buffer and statistics is one `Dataplane.Step`: verdict, frame, every rule and the statistics |
| `Router.Program.Lookup` | gtp-router/ebpf/gtp_xdp.c:499-531 | which rule of which map decides about a frame |

## Left out

- `enforce_policy` on several CPUs at once: the source calls it best effort; the policy theorems are for packets of a rule in sequential order.
- Xdp.Context.EncapGtpu: the plain and the 5G encapsulation are one method with a format parameter; the source writes them out twice.
- Xdp.Context.WriteOuter: each outer header is written as one run of bytes, not field by field through a struct pointer.
- Nat.Rewrite: source and destination rewrite are one function with a side parameter; the source writes them out twice.
- Xdp.Context.AdjustHead: headroom is what the caller finds free before the frame; the driver's own reserve and metadata are not part of this model.
- Router.Program.Process: on a drop the bytes left in the buffer are unspecified, since nobody sees them.
- Accounting.VerdictsAccounted: for events without a load, which starts new statistics.
- ControlPlane.Exec: a command starts from parsed values and fails only in validation or for an interface number beyond the port table; full hash maps, failing system calls and unpinned maps are not part of this model.
- ControlPlane.NoRedirectMiss: a port that disappears with its interface after it was provisioned is not part of this model.
- Rules.Config: `dst_port` is left out, because the data plane never reads it.
- Nat.AcceptedIff: for unfragmented packets whose lengths fit the frame and leave room for the checksum (receivers discard others, before the rewrite and after it); the checksum of a first fragment covers bytes in other frames, and reassembly is not part of this model.
- The terminal dashboard, listings, byte formatting and lab scripts: presentation only; the dashboard's writes appear as `DashboardPut` and `Delete`.
- Loading, attaching and pinning of the program: only that load starts from empty maps and provisions its interfaces.
- `unload`, `Get` and `List`, and the conversion of IP addresses to keys: they would only add easy members.
- The pass-through program `xdp_pass.c`: a constant verdict.

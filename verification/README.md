# xdp-natd, verified

A Dafny model of the UDP network address translator xdp-natd, with proofs. `dafny verify dfyconfig.toml` checks it.

The program has three parts, and so has the model.

* **Rewriting a frame.** The two packet programs replace an address and a port of a frame in place and patch the two
  checksums incrementally, in 32-bit wrap-around arithmetic on words loaded in the host's byte order.
  `words.dfy` has bytes and native loads, `checksum.dfy` the `csum_*` functions, `packet.dfy` the checksums computed
  from scratch (section 3.1 of RFC 791, the "Fields" part of RFC 768), `rewrite.dfy` the in-place methods and
  `transparency.dfy` what they mean for a receiver. Integers are unbounded in Dafny, so every wrap-around is written out.
* **The connection table.** `conntrack.dfy` says what one packet does to the table, `datapath.dfy` has the packet
  programs and the sweeper acting on the kernel's maps, `system.dfy` the whole system as a state machine, and
  `unconditional.dfy`, `pairing.dfy`, `timing.dfy`, `retention.dfy`, `expiry.dfy`, `refinement.dfy` and `roundtrip.dfy`
  what its runs keep. `ticks.dfy` shows that a tick of the sweeper, with a clock reading for each entry, is such a run,
  and `orphans.dfy` has a run to an entry that outlived its reverse.
* **The control plane.** `ports.dfy` and `control.dfy` have the port pool and the two calls with every failure path,
  `portlaws.dfy` their laws over runs.

* **What it comes to.** `openings.dfy` states entry by entry what one packet leaves in a table of any size, `wire.dfy` byte by
  byte which frames are handled, what is read from them and what leaves, and `services.dfy` what runs mean for frames:
  which port of which container a service is reached on, which MAC a frame is sent to, and which address it carries.

`daemon.dfy` puts the parts together: its methods handle a frame, a tick of the sweeper or a call, and each is proved to
take the state machine along a run of its own. `StartUp` fills the device map and sets the rest up, and start-up is proved
to establish what the run theorems assume.

## Runs and what they assume

A run is a sequence of events: a packet at a veth or at the NIC, a sweep with one clock reading, a visit of a sweep to
one entry, the removal of one key, or a control-plane call. A visit that finds its entry expired makes the key pending,
and a sweep removes pending keys only (`DrawsFromPending`). The route lookup, the MAC addresses and the outcomes of the
expose map and iptables are part of the event, so a theorem over runs covers every choice. Four disciplines say what is
asked:

* `Timely`: the clock never goes back. Any key may be removed at any time; key clashes and a full table are allowed.
* `Orderly`: moreover a packet at a veth comes from a container and does not go to one, and a packet at the NIC does
  not come from a container. The programs do not check this; `AnswerComesBackIff` shows that it is needed.
* `Unclashed`: moreover no packet opens a flow whose reverse key is taken. `PacketKeepsPairsIff` shows that this is
  needed. No spare capacity is asked for: entries come in twos and the capacity is even, so a paired table never has
  room for one half of a flow only. Every tick of the sweeper is such a run (`TickIsARun`).
* `Clean`: moreover no key is removed singly, so sweeps are atomic. A tick with equal readings is an atomic sweep
  (`UniformTickIsASweep`), and `TickKeepsPairsIff` says which other ticks keep the pairs too.

## Where the code does not do what one might expect

* A frame with a zero UDP checksum keeps its port (`xdp-natd-ebpf/src/helpers.rs:71-73`), so an exposed service on a
  different port is not reached by it. `EndpointIsTranslatedIff` gives the exact condition.
* An IPv4 checksum of 0xFFFF is not restored by translating back. `InverseRestoresIff` gives the exact condition.
* A flow whose reverse key is taken, or that meets a table without room for both entries, is translated but its answers
  do not come back; unless the entry at that key is the flow's own from before, which outlived its reverse.
  `OpenedFlowIsAnsweredIff` gives the exact condition for any table, `WholeFlowIsAnsweredIff` the shorter one for a
  table of whole flows.
* If the reverse key was taken, the newcomer's later packets also take the reply flag and the longer lifetime of the
  owner away. `HitLowersReverseIff` and `NewcomerLowersOwnerIff` give the exact conditions.
* A sweep that a packet interrupts can drop an entry of a flow that was just refreshed. In a table of whole flows it does
  so exactly if it had already collected that entry when the packet came (`WholeFlowIsRetained`).
* An entry that outlived its reverse still leads to the reverse's key, and if another flow takes that key, the orphan's
  packets shorten that flow's lifetime, without any clash. `OrphanUndermines` has such a run from start-up. An entry is
  kept as promised if and only if no chain of such hits can bring its timeout down in time, and through interrupted
  sweeps if and only if moreover it was not collected: `FlowIsRetainedIff`, on every state that orderly runs keep.
* The readings of one tick may fall on both sides of a flow's timeout, and then it removes one entry of the flow:
  `TickKeepsPairsIff`.
* A refusal to remove a port from the expose map is ignored (`xdp-natd/src/api/expose.rs`), and leaves that port both free
  and exposed, to the same container, for good (`StuckForGood`, `StuckPortsAreCounted`). Nothing else breaks conservation
  or rules (`PortsAreConservedIff`, `RulesFollowTheMapIff`), and nothing at all makes a port free twice (`PoolStaysSound`).
* A failure to write the NIC's record is ignored (`xdp-natd/src/main.rs:336`), and then the programs read a zeroed one:
  what containers send leaves with source address 0 (`ContainersLeaveFromTheNic`).
* A container at address 0 would share the NIC's key in the device map, and its frames would go out through the NIC:
  `TranslatedMeansRedirected`.

## Model

| member | source | states |
|---|---|---|
| Checksum.CsumAddCastsOut | xdp-natd-ebpf/src/helpers.rs:14-17 | the carry added back makes 32-bit addition lose multiples of 2^32 - 1 only, and zero arises from zeros only |
| Checksum.CsumFoldIsComplement | xdp-natd-ebpf/src/helpers.rs:20-24 | two folds suffice for any 32-bit sum: the result is the negated residue modulo 0xFFFF, and 0xFFFF for the sum zero alone |
| Checksum.CsumReplace4Exact | xdp-natd-ebpf/src/helpers.rs:27-30 | equation 3 of section 3 of RFC 1624 holds exactly, as residues 0..0xFFFE, for all inputs but one; for any 16-bit checksum the result is never 0xFFFF |
| Checksum.ReplaceIsByteOrderIndependent | xdp-natd-ebpf/src/helpers.rs:64-80 | on native loads and `to_be` values the update stores the same bytes on hosts of either byte order (section 2 (B) of RFC 1071), for addresses |
| Checksum.ReplacePortIsByteOrderIndependent | xdp-natd-ebpf/src/helpers.rs:64-73 | the same for ports widened to 32 bits |
| Packet.EndAroundCarryIsResidue | xdp-natd-ebpf/src/helpers.rs:20-24 | reference: folding any sum, of a packet of any length, gives its residue, with 0xFFFF for nonzero multiples |
| Packet.IpChecksumIsResidue | xdp-natd-ebpf/src/helpers.rs:82 | reference: the header checksum computed from scratch as a residue, and the receiver's test |
| Packet.UdpChecksumIsResidue | xdp-natd-ebpf/src/helpers.rs:70-80 | reference: the UDP checksum computed from scratch over pseudo-header, header and payload, a computed zero sent as 0xFFFF |
| Rewrite.UpdateForPort | xdp-natd-ebpf/src/helpers.rs:72 | one native `csum_replace4` on a port stores the network-order residue |
| Rewrite.UpdateForAddr | xdp-natd-ebpf/src/helpers.rs:75 | one native `csum_replace4` on an address stores the network-order residue |
| Rewrite.ApplyIpDnat | xdp-natd-ebpf/src/helpers.rs:60-86 | in place and on either byte order, the frame becomes its translation on network-order fields, at the destination |
| Rewrite.ApplyIpSnat | xdp-natd-ebpf/src/helpers.rs:88-112 | the same at the source |
| Transparency.OnlyFourFieldsChange | xdp-natd-ebpf/src/helpers.rs:60-112 | no byte outside the two checksums, one address and one port changes |
| Transparency.IpChecksumIsExact | xdp-natd-ebpf/src/helpers.rs:82-83 | the patched header checksum equals the one computed from scratch if and only if the original header verified; the residue of the sum is kept in every case |
| Transparency.UdpChecksumIsExact | xdp-natd-ebpf/src/helpers.rs:70-80 | for any payload, the patched nonzero UDP checksum equals the one computed from scratch if and only if the original was right; a wrong one keeps its residue, and none becomes zero |
| Transparency.EndpointIsTranslatedIff | xdp-natd-ebpf/src/helpers.rs:70-83 | the frame carries the new endpoint if and only if its UDP checksum is in use or the port need not change |
| Transparency.InverseRestoresIff | xdp-natd-ebpf/src/helpers.rs:60-112 | translating back restores every byte if and only if the IPv4 checksum was not 0xFFFF |
| Datapath.RefreshEntry | xdp-natd-ebpf/src/main.rs:157-189 | the lazy refresh of the entry that is hit, in both directions |
| Datapath.MirrorEntry | xdp-natd-ebpf/src/main.rs:203-210 | the reverse entry takes over both mutable fields, if it is present |
| Datapath.ProcessUdpSnat | xdp-natd-ebpf/src/main.rs:144-270 | table, translation and frame after a packet at a veth, on a hit, on a miss and without NIC or route |
| Datapath.ProcessUdpDnat | xdp-natd-ebpf/src/main.rs:273-400 | table, translation and frame after a packet at the NIC, on a hit, on a miss and without exposure or route |
| Datapath.RewriteMacs | xdp-natd-ebpf/src/helpers.rs:214-220 | the two Ethernet addresses are replaced and nothing else |
| Datapath.TryXdpRedirect | xdp-natd-ebpf/src/main.rs:67-141 | frames that are not plain UDP over IPv4 pass untouched; all others get the table step, the translation and the redirection of their device key |
| Wire.FrameOutcome | xdp-natd-ebpf/src/main.rs:67-141 | from the bytes: a frame is translated if and only if it is plain UDP over IPv4 (no options, no fragment, all headers present) and has an entry or can open one; which translation it gets; it passes without one, and is redirected if its device is known |
| Wire.FrameLeaves | xdp-natd-ebpf/src/main.rs:144-400 | from the bytes: an untranslated frame leaves the table alone, a hit renews one entry and its reverse, an opening adds its entry and the one for the answers as far as there is room, each with all its fields |
| Wire.ForwardedBytes | xdp-natd-ebpf/src/helpers.rs:60-220 | every byte of a forwarded frame: next hop and sender in the Ethernet header, the new address, and the new port if and only if the UDP checksum is in use; all else is kept |
| Wire.ForwardedSums | xdp-natd-ebpf/src/helpers.rs:60-112 | and the sums over header and datagram that a receiver checks keep their residue |
| Openings.ContainersPacketOpens | xdp-natd-ebpf/src/main.rs:212-269 | a container's packet without an entry is translated if and only if NIC and route are known, in a table of any size, to the NIC's address and its own port; and the two entries it adds, field by field |
| Openings.ServicePacketOpens | xdp-natd-ebpf/src/main.rs:343-399 | a packet at the NIC without an entry is translated if and only if its port is exposed and a route is known, to the exposed container and port; and the two entries it adds, field by field |
| Openings.PacketHits | xdp-natd-ebpf/src/main.rs:157-210 | a packet with an entry gets what is stored, and renews the entry and its reverse after more than 1 s or on the first reply, to 30 s or 180 s |
| Datapath.Sweep | xdp-natd/src/main.rs:246-255 | collecting and then removing takes away exactly the entries expired by the reading at their own turn |
| Ports.Range | xdp-natd/src/port_allocator.rs:8-11 | the initial pool holds the ports of the inclusive range in ascending order, each once |
| Ports.PortAllocator.AllocateNext | xdp-natd/src/port_allocator.rs:13-15 | takes the port at the front, or none from an empty pool |
| Ports.PortAllocator.Deallocate | xdp-natd/src/port_allocator.rs:17-19 | puts the port at the back |
| Control.SetupDevmap | xdp-natd/src/main.rs:206-221 | inserts one device per container until the first insertion that the full map or the kernel refuses, and says what is in the map then; it succeeds if and only if the containers fit and no insertion is refused |
| Control.InsertDevice | xdp-natd/src/main.rs:229-230 | inserts or overwrites a device; it fails, without effect, exactly for a new key in a full map or on a kernel error |
| Control.AppState.ExposePort | xdp-natd/src/api/expose.rs:79-145 | state and answer for an unknown container, an empty pool, a failed insertion, a failed rule whose rollback may fail too, and success |
| Control.AppState.UnexposePort | xdp-natd/src/api/expose.rs:180-218 | state and answer for a port not exposed or not read, a rule that is not removed, a removal that fails unnoticed, and success |
| PortLaws.PortsAreConservedIff | xdp-natd/src/api/expose.rs:102-209 | over every run, free and exposed ports together are the configured range, each port once, if and only if no refused removal was ignored |
| PortLaws.ConservedMeans | xdp-natd/src/main.rs:340-341 | conservation read back: free and exposed ports are disjoint, without duplicates, together the range, and add up |
| PortLaws.RulesFollowTheMapIff | xdp-natd/src/api/expose.rs:107-209 | over every run, a TCP rule is installed, once, if and only if its host port is exposed to the container and port it names, whatever iptables refuses; this lasts if and only if no refused removal was ignored |
| PortLaws.ExposeAnswer | xdp-natd/src/api/expose.rs:79-145 | a confirmed exposure took the first free port, filed the container's own address, MAC, device and the requested port under it, and installed the rule from it to them; a failed one left rules and the set of free ports, and the map too unless the rollback was refused |
| PortLaws.ExposeAnswersIff | xdp-natd/src/api/expose.rs:79-145 | the exact condition of each of the four answers of an exposure |
| PortLaws.ExposureIsConfirmedIff | xdp-natd/src/api/expose.rs:102-130 | over runs with at most 256 ports and no ignored refusal, an exposure is confirmed if and only if the container is known, a port is free, and kernel and iptables obey |
| PortLaws.UnexposeAnswersIff | xdp-natd/src/api/expose.rs:180-218 | the exact condition of each of the three answers of an unexposure |
| PortLaws.FailedRemovalsAreCounted | xdp-natd/src/api/expose.rs:115-209 | over every run, each ignored refusal adds one to the sum of free and exposed ports, and one exposed port without a rule |
| PortLaws.PoolStaysSound | xdp-natd/src/api/expose.rs:102-209 | over every run, with any failures: no port is free twice, the ports of the range and no others are free or exposed, and the rules are those of the exposed ports that are not free |
| PortLaws.StuckForGood | xdp-natd/src/api/expose.rs:107-123 | a port that is both free and exposed stays so over every run, with the same container |
| PortLaws.StuckPortsAreCounted | xdp-natd/src/api/expose.rs:115-209 | the number of such ports grows by exactly the ignored refusals of the run |
| PortLaws.UnexposeAnswer | xdp-natd/src/api/expose.rs:180-218 | when rules and map are in step, unexposing succeeds if and only if the port is exposed and read and iptables works, and then frees the port, deletes its rule, and takes it out of the map unless that is refused; otherwise nothing changes |
| PortLaws.PoolIsFifo | xdp-natd/src/port_allocator.rs:13-19 | over every run, ports popped and then ports left are the initial pool and then the ports pushed, in order |
| PortLaws.ReturnedPortWaitsItsTurn | xdp-natd/src/api/expose.rs:102-123 | a port returned behind n others is handed out right after those n, through any failures |
| Unconditional.LifetimeIsBounded | xdp-natd-ebpf/src/main.rs:163-210 | in every timely run no timeout exceeds now + 180 s, nor now + 30 s unless a reply was seen, despite clashes, failed inserts and interrupted sweeps |
| Unconditional.HitLowersReverseIff | xdp-natd-ebpf/src/main.rs:203-210 | on any table, exactly when a hit takes the reply flag of the reverse entry away, and when it moves its timeout back |
| Unconditional.NewcomerLowersOwnerIff | xdp-natd-ebpf/src/main.rs:203-257 | after a clash, exactly when the newcomer's next packet does so to the owner of the reverse key |
| Unconditional.TranslationIsSticky | xdp-natd-ebpf/src/main.rs:157-257 | in any run whatsoever, an entry that stays keeps direction and translation, so exposing and unexposing never redirect a flow |
| Unconditional.ProgramsStayApart | xdp-natd-ebpf/src/main.rs:243-250 | in every orderly run, keys from containers lead to the NIC and all others to the container they name: the programs never hit each other's entries |
| Unconditional.TranslatedMeansRedirected | xdp-natd-ebpf/src/main.rs:118-140 | after every orderly run, with the device map of start-up, a translated packet goes to the NIC from a veth and to the device of the container it now names from the NIC; address 0 alone leads to the NIC instead |
| Unconditional.HostFrontsTheContainers | xdp-natd-ebpf/src/main.rs:243-380 | if what reaches the NIC is addressed to the host, all that leaves carries the host's address |
| Unconditional.AnswerComesBackIff | xdp-natd-ebpf/src/main.rs:242-257 | the answer to a container's packet is led back to it if and only if the destination is no container |
| Pairing.HitKeepsPairs | xdp-natd-ebpf/src/main.rs:157-210 | a hit through either program and direction keeps all pairs and changes one pair only |
| Pairing.OpeningMakesAPair | xdp-natd-ebpf/src/main.rs:243-257 | two fresh keys become each other's reverse, with opposite directions |
| Pairing.PairedTableIsEven | xdp-natd-ebpf/src/main.rs:42-43 | a paired table has an even number of entries |
| Pairing.PacketKeepsPairsIff | xdp-natd-ebpf/src/main.rs:374-387 | a packet keeps the table paired if and only if it does not open a flow on a taken reverse key; capacity never breaks a pair |
| Pairing.RemovalBreaksPair | xdp-natd/src/main.rs:253-255 | removing a single entry always breaks its pair |
| Pairing.RunsStayPaired | xdp-natd-ebpf/src/main.rs:157-257 | over every clean run each entry's reverse is present, leads back to it, has the other direction and the same reply flag and timeout |
| Pairing.TranslationsAreDistinct | xdp-natd-ebpf/src/main.rs:226-257 | no two live entries, of one program or of both, share a translated tuple |
| Pairing.OccupiedReverseKeyHasAnOwner | xdp-natd-ebpf/src/main.rs:249-257 | an opening packet meets a taken reverse key if and only if a live flow of its program has the same translated tuple; that flow keeps its target |
| Timing.RunsStaySound | xdp-natd-ebpf/src/main.rs:144-400 | all invariants together over every clean run |
| Timing.PacketSetsDeadline | xdp-natd-ebpf/src/main.rs:163-189 | a packet leaves its entry's deadline within one second of a full lifetime from now |
| Timing.NothingIsLowered | xdp-natd-ebpf/src/main.rs:163-210 | over every clean run in which a flow lives, its timeout and reply flag never go down |
| Retention.FlowIsRetainedIff | xdp-natd/src/main.rs:246-255 | on every state that orderly runs keep, whatever has lost its reverse: the entry that a packet hits or opens at t is kept exactly as long as it is not itself removed, in all unclashed runs whose sweeps read the clock before t + T - 1 s (T being 180 s or 30 s), if and only if no chain of orphans undermines it; and through interrupted sweeps if and only if moreover its key was not collected when the packet came |
| Retention.RetainedIffSecure | xdp-natd-ebpf/src/main.rs:163-210 | the same for any entry and any limit up to 180 s ahead: kept as long as it is not removed, if and only if its timeout reaches the limit and no chain of hits on other entries can lower it in time |
| Retention.SurvivesIffSecure | xdp-natd/src/main.rs:246-255 | and through sweeps that remove what they collected, if and only if moreover it is not pending |
| Retention.WholeFlowIsRetained | xdp-natd/src/main.rs:246-255 | so when all flows are whole, each of the two entries is kept exactly as long as it is not itself removed, and survives interrupted sweeps if and only if its key was not collected when the packet came |
| Orphans.OrphanUndermines | xdp-natd-ebpf/src/main.rs:203-210 | a run from start-up, without a clash and with nothing collected at the end, after which the next packet's two entries are both undermined |
| Timing.IdleFlowExpires | xdp-natd/src/main.rs:246-255 | a flow idle since t loses both entries to a sweep at or after t + T |
| Expiry.IdleEntryExpires | xdp-natd/src/main.rs:246-255 | in runs of any kind, an entry that no packet touches is collected by the visit of a sweep if and only if its deadline has come, which is within one second of a full lifetime; it then stays due until its removal takes it away |
| Expiry.TickTakesIdleEntryIff | xdp-natd/src/main.rs:246-255 | so a tick with any readings takes an untouched entry away if and only if the reading at its own turn has reached its deadline |
| Ticks.TickIsARun | xdp-natd/src/main.rs:246-255 | a tick with any ascending readings is a run of visits and removals that draws from what it collected; it takes away exactly the entries expired at their own reading |
| Ticks.UniformTickIsASweep | xdp-natd/src/main.rs:246-255 | with the same reading at every entry the tick is an atomic sweep |
| Ticks.RemovalKeepsPairsIff | xdp-natd/src/main.rs:253-255 | removing a set of keys keeps the table paired if and only if it takes both entries of a flow or neither |
| Ticks.TickKeepsPairsIff | xdp-natd/src/main.rs:246-255 | a tick keeps the table paired if and only if the two readings of each flow agree on whether it has expired |
| Timing.SeenReplyIsHistory | xdp-natd-ebpf/src/main.rs:178-209 | the reply flag is set if and only if a packet hit the reply entry of the flow since it was opened |
| Refinement.LazyRefinesEager | xdp-natd-ebpf/src/main.rs:162-189 | between sweeps the lazy table has the keys, translations and reply flags of one rewritten on every packet, each timeout at most 1 s behind and never ahead |
| Refinement.LazyTranslatesLikeEager | xdp-natd-ebpf/src/main.rs:291-317 | so both tables translate every packet alike |
| RoundTrip.OpenedFlowRoundTrips | xdp-natd-ebpf/src/main.rs:243-257 | over every clean run in which it lives, a flow's packets keep their translated tuple and the answers come back as the swapped original tuple |
| RoundTrip.OpenedFlowIsDelivered | xdp-natd-ebpf/src/main.rs:243-250 | over the same runs, outgoing frames go to the looked-up next hop through the NIC, and incoming ones to the container's own MAC and through its own device |
| Services.FramesAreDelivered | xdp-natd-ebpf/src/main.rs:129-135 | over the same runs, on frames: one that goes out is addressed to the next hop of the route looked up for the first frame, and one that comes in to the container's own MAC, in its first six bytes |
| Services.ServiceIsReached | xdp-natd-ebpf/src/main.rs:343-399 | over every run: after a confirmed exposure and while its host port stays exposed, a frame to it without an entry is led to the container's address, MAC and device, and to the requested port if and only if its UDP checksum is in use or the ports are equal |
| Services.ContainersLeaveFromTheNic | xdp-natd-ebpf/src/main.rs:218-269 | over every run from start-up, what a container sends without an entry leaves from the NIC's address, or from 0 if its record was not written, under its own port |
| Services.OutgoingFramesCarryTheHost | xdp-natd-ebpf/src/main.rs:157-269 | after every orderly run from start-up in which the NIC receives what is addressed to it, every translated frame of a container, on a hit or not, leaves from the NIC's address |
| RoundTrip.TwinStaysAlive | xdp-natd/src/main.rs:246-255 | the two entries of a flow live and die together |
| RoundTrip.OpenedFlowIsAnsweredIff | xdp-natd-ebpf/src/main.rs:256-257 | on any table, the answers to the first packet of a flow come back if and only if the reverse key was free and there was room for two entries, or the entry at that key led back already |
| RoundTrip.WholeFlowIsAnsweredIff | xdp-natd-ebpf/src/main.rs:256-257 | in a table of whole flows, if and only if the reverse key was free and there was room for one entry |
| RoundTrip.FramesRoundTrip | xdp-natd-ebpf/src/main.rs:284-341 | on frames: over every clean run in which its flow lives, a frame that answers a forwarded one is translated, and forwarded to the swapped endpoints of the original if and only if its UDP checksum is in use or its port need not change |
| RoundTrip.ContainerFlowsKeepThePort | xdp-natd-ebpf/src/main.rs:226 | flows that containers open meet that condition without a UDP checksum |
| RoundTrip.ForwardedChecksumsAreExact | xdp-natd-ebpf/src/main.rs:67-141 | a forwarded frame has exact checksums if and only if the frame received verified |
| Daemon.Natd.OnFrame | xdp-natd-ebpf/src/main.rs:56-64 | handling a frame is one packet step of the state machine, with its effect on the frame |
| Daemon.Natd.OnTick | xdp-natd/src/main.rs:241-257 | a tick of the sweeper, with a reading at each entry, takes the machine along the run of its visits and removals |
| Daemon.Natd.OnExpose | xdp-natd/src/api/expose.rs:79-145 | an expose call is one control step |
| Daemon.Natd.OnUnexpose | xdp-natd/src/api/expose.rs:180-218 | an unexpose call is one control step |
| Daemon.SetupRedirect | xdp-natd/src/main.rs:206-230 | the device map ends up with exactly the containers and the NIC, if and only if they fit and no insertion is refused |
| Daemon.StartUp | xdp-natd/src/main.rs:309-345 | start-up gives a daemon with no flows, exposures or rules, the ports of the range, that device map, and the NIC's record or a zeroed one if writing it fails; or it fails exactly when the device map cannot be filled |
| Daemon.EveryRunFromStartUp | xdp-natd/src/main.rs:309-345 | from start-up, every run conserves ports and keeps rules in step if and only if no refused removal was ignored, keeps the pool sound in any case, and if timely, orderly or clean keeps the invariants of its discipline |
| Daemon.FramesReachTheirDevice | xdp-natd-ebpf/src/main.rs:118-140 | from start-up and after every orderly run, a translated frame is redirected to the NIC's device from a veth, and to its container's device from the NIC |

## Left out

- Docker discovery, interface and namespace handling, program loading, logging, configuration, HTTP routing and error texts: plumbing around the modelled code.
- The kernel's route lookup: its result is an arbitrary input of every packet step, and its arguments are not modelled.
- Interleaving of several CPUs within one packet: one packet is one atomic step.
- Multi-buffer frames: a frame is modelled as one buffer that holds the whole packet.
- Insertion into the connection table fails in the model for a present key or a full table, not for other kernel errors; the expose map and iptables may fail at will.
- A clock so late that a deadline does not fit in 64 bits is excluded by the type `Instant`.
- TCP, ICMP, fragments and IP options: they pass through untouched, as `TryXdpRedirect` states.
- The port range text and the reserved-ports file: the range is a parameter.
- Datapath.ProcessUdpSnat: hits are written to the map as a whole entry, where the code writes single fields in place.
- RunsStayPaired: holds for atomic sweeps and fresh reverse keys only, because the code breaks pairs otherwise, as `PacketKeepsPairsIff`, `RemovalBreaksPair` and `TickKeepsPairsIff` prove.
- OnTick: packets between the visits of one tick are covered by the runs of the state machine, not by this method.
- StartUp: a configuration without a NIC, which starts no sweeper and no control plane, is not modelled.

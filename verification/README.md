# ndpresponder: a verified model

ndpresponder makes a host's uplink answer IPv6 Neighbor Discovery for a set of addresses: static
prefixes from the command line and from a file that is reloaded, and addresses learned from
container runtimes. On Linux it captures neighbor solicitations and answers them itself; on macOS
and BSD hosts it drives the operating system's NDP proxy table. This project models the parts of
the program on which that depends, and proves what they promise for every input, every run and
every interleaving. `dafny verify dfyconfig.toml` checks all of it.

## The parts

- **The BSD proxy reconciler** (`NdpHost.dfy`, `BsdProxy.dfy`, `BsdRuntime.dfy`). The operating
  system is a class with a table, a route lookup and three commands that may fail, do nothing, do
  something else than they report, or leave any entry they like; between two addresses other
  processes may edit the table. A ghost log records what every command reported and what it did.
  The reconciler's loops run in arbitrary order. Theorems say what holds of every log (no foreign
  entry is touched), and what holds of logs in which commands are *truthful* (nobody else edits the
  table, failing commands have no effect, and `ndp -s` leaves a proxy on the interface the address
  routes through, or nothing), *reliable* (listings succeed too) or *working* (additions and
  deletions take effect too).
- **The NDP table parser** (`Text.dfy`, `NdpTable.dfy`): reading back any printed table.
- **The active-address registry** (`Registry.dfy`, `RegistryRuns.dfy`, `ActiveIps.dfy`,
  `Producers.dfy`): producers and consumers as interleaved steps over a mutex, a published set, a
  one-slot channel and a bounded queue; and the same code as it runs while it holds the mutex.
- **The wire layer** (`Bpf.dfy`, `Checksum.dfy`, `Frames.dfy`, `Messages.dfy`): a classic BPF
  machine, the filter and its source expression, byte-level frames, checksums, the capture decoder.
- **Static targets, announcements and the decision to answer** (`Addresses.dfy`,
  `StaticTargets.dfy`, `Announcements.dfy`, `Decision.dfy`): 128-bit prefix arithmetic,
  all-or-nothing reloads, once-per-residence announcements, and who gets an answer.
- **Interface ranking and selection** (`Interfaces.dfy`, `Responder.dfy`, `HostInfo.dfy`).

`Ordered.dfy` has ascending listings of sets, for iteration over a map followed by a sort;
`Selections.dfy` says what going through a list in order takes from it.

## What came out

The reconciler's documentation promises that the process removes only entries it created. That
holds in every run, whatever fails and whoever edits the table (`Run`, predicate `Safe`). It does
not follow that it removes *all* entries it created. If the listing that should confirm a
successful `ndp -s` fails, the entry is never adopted: after any call of `ensure` that goes this way
the address is not owned (`EnsureUnconfirmed`), and it is never owned or removed later, so that with
truthful commands the table differs from the starting one for good (`LeakedForGood`). `Leaks`
collects these addresses from the log. `RestoredIff` gives the exact condition: on a
table nobody else edits, even if commands lie, the starting table is back after `Close` if and only
if `Close` deleted every entry this process had; with truthful commands, if and only if nothing had
leaked and no owned address still has an entry. If nothing leaked, an entry stays only where a
listing failed or a deletion did not take effect (`Hindered`). With listings that succeed nothing leaks, and
then `Close` restores the starting table whenever its deletions work.

What went wrong before does not matter for the next synchronization: if its own commands work it
succeeds whenever every target can be proxied, whatever failed, lied or was edited earlier (`Sync`).

A solicitation from an IPv4-mapped address is captured but cannot be answered, even if its target is
covered: the capture unmaps the address, and no IPv6 header can carry the four bytes that remain
(`MappedSourceUnanswered`). `AnswerableIff` and `Answered` say exactly when there is an answer.

Publishing the union of the sources after releasing the mutex, which a comment in `active_ips.go`
warns against, loses addresses: `LateStoreLosesAddresses` reaches a state with every producer idle
and a published set that lacks a live address. With the program's order, `FreeMutexPublished`
shows that this cannot happen.

The filter's branch for a fragment header can never accept a packet, because it asks one byte to be
58 and 135 (`FragmentsNeverAccepted`).

## Assumptions

- Addresses are values without zones: nothing, an IPv4 address, or an IPv6 address as a 128-bit
  number. Tests for kinds of addresses look through an IPv4 mapping, as the address library of the
  Go version in `go.mod` does. Address text is a pair of functions; `TextLaw` says that printing an IPv6 address gives
  one word without `%` and that parsing it gives the address back.
- `ndp -an` prints the table in some layout that `GoodOutput` admits, or fails. `ndp -s` and
  `ndp -d` act on one address. The route of an address is a function that does not change during a
  run. Other processes act between the handling of two addresses, not within it, and never put a
  proxy of their own on the selected uplink for an address in the owned set: the program could not
  tell such an entry from its own.
- A decoded packet is an Ethernet, an IPv6 and an ICMPv6 header and a solicitation, with the
  layouts of section 3 of RFC 8200 and sections 4.3 and 4.6 of RFC 4861. Frames carry the fields
  of sections 4.3, 4.4 and 4.6.1 of RFC 4861, the checksum of section 8.1 of RFC 8200 and section
  2.3 of RFC 4443, and the groups of section 2.7.1 of RFC 4291 and section 7 of RFC 2464.
- Serializing fails for an IPv6 header with an address that is not sixteen bytes long, and for an
  Ethernet header with a link address that is not six bytes long.
- Taking a snapshot of the sources is one step of the registry machine, since it holds the mutex
  throughout. Both consumers are in one machine: on BSD hosts the offers to the queue go nowhere,
  and on Linux nobody takes the wake-up signal.
- Outcomes of file reads, runtime queries, interface and route lookups, packet sockets and packet
  writes are parameters. The nonce of a gratuitous solicitation is a parameter.

## Model

| member | source | states |
|---|---|---|
| BsdProxy.BsdProxyResponder.Run | runtime_bsd.go:44-80 | Over any run of synchronizations followed by Close no command touches an entry this process did not create; without outside edits everything else in the table stays, and the starting table is back exactly if Close deleted every entry of this process; with truthful commands an entry stays only if it had leaked or something hindered its deletion; with reliable ones the table is the starting one plus exactly the owned proxies, and if deletions work the starting one |
| BsdProxy.BsdProxyResponder.Sync | bsd_ndp_proxy.go:95-122 | A synchronization that reports no failure on a table nobody else edits leaves a table and an owned set that are functions of what it found, whatever the iteration order, and every target could be proxied; whatever fails, there is a failure for each target without its proxy and each address not given up, and each target that could be proxied and is not was tried or a listing failed; whatever happened before the call, if its commands work it succeeds and settles the table when every target can be proxied, and otherwise leaves out exactly the targets that cannot be; on a settled table it only lists |
| BsdProxy.SyncSettles | bsd_ndp_proxy.go:95-122 | That outcome: every wanted address has a proxy on the uplink, only wanted addresses are owned, no proxy is left for an address given up, all other entries are as before, and doing it again changes nothing |
| BsdProxy.BsdProxyResponder.SyncTwice | bsd_ndp_proxy.go:95-122 | An immediate repeat of a successful synchronization issues nothing but listings and changes nothing |
| BsdProxy.BsdProxyResponder.Ensure | bsd_ndp_proxy.go:124-178 | Success means a proxy on the uplink, owned only if there was no entry; an existing entry is never changed; a conflicting one is reported and disowned; for an address that cannot be proxied only a listing is issued; whatever happened before the call, it fails only if the address cannot be proxied or a command of the call fails |
| BsdProxy.BsdProxyResponder.Add | bsd_ndp_proxy.go:159-177 | Creating an entry touches no other one, and the address becomes owned exactly if that succeeds; a failure changes nothing that is owned |
| BsdProxy.BsdProxyResponder.Remove | bsd_ndp_proxy.go:216-241 | Success means the address is no longer owned or proxied on the uplink; an entry that is no proxy on the uplink is left alone; a failure keeps the address owned; with truthful commands during the call it fails only if a listing or its deletion did |
| BsdProxy.BsdProxyResponder.Delete | bsd_ndp_proxy.go:227-240 | A deletion is issued only for an entry of this process, and the address is disowned only once a listing shows it gone |
| BsdProxy.BsdProxyResponder.EnsureAll | bsd_ndp_proxy.go:104-109 | The first loop in any order: without failures and edits the table gains exactly the wanted proxies and owned exactly those that had no entry; a command that fails does not end it, there is a failure for each address without its proxy; with working commands during the loop, those that can be proxied are, those in conflict are disowned, and nothing else changes |
| BsdProxy.BsdProxyResponder.RemoveExcept | bsd_ndp_proxy.go:110-117 | The second loop in any order: without failures and edits it withdraws exactly the unwanted owned proxies; it adds nothing; one failure is reported for each address that stays owned, and with truthful commands during the loop a listing failed or a deletion of it was tried and did not take effect |
| BsdProxy.BsdProxyResponder.Close | bsd_ndp_proxy.go:251-257 | With reliable commands and working deletions the starting table is restored; without outside edits it is restored exactly if every entry of this process was deleted; each address that stays owned has a listing or deletion of its own that went wrong, so that no failure keeps another address from being tried |
| BsdProxy.BsdProxyResponder.CheckTargetRoute | bsd_ndp_proxy.go:180-196 | Passes exactly when the uplink has a name and the target routes through it |
| BsdProxy.BsdProxyResponder.CheckTargetRoutes | bsd_ndp_proxy.go:198-214 | Passes exactly when every valid IPv6 target does |
| BsdProxy.BsdProxyResponder.List | bsd_ndp_proxy.go:243-249 | A listing that succeeds yields the table itself, however it was printed |
| BsdProxy.Prepare | bsd_ndp_proxy.go:30-52 | Selects the first candidate that is no virtual interface, has an Ethernet address and routes all targets, and fails only if none does |
| BsdProxy.UplinkNames | bsd_ndp_proxy.go:57-69 | A name is that of an uplink unless it is blank or begins, in any case, with one of the 24 prefixes of virtual interfaces |
| BsdProxy.KeepSet | bsd_ndp_proxy.go:124-178 | Any `ndp -s` on an address without entry, whatever it leaves, keeps the ownership invariant |
| BsdProxy.KeepAdopted | bsd_ndp_proxy.go:163-175 | Adopting an address after a confirming listing keeps the invariant and takes the entry off the leaks |
| BsdProxy.KeepDelete | bsd_ndp_proxy.go:227-230 | Any `ndp -d` on an owned entry of this process keeps the invariant, whether or not it works |
| BsdProxy.RestoredIff | bsd_ndp_proxy.go:251-257 | Without outside edits, even if commands lie, the starting table is back after some removals if and only if they deleted every entry there was; with truthful commands, if and only if nothing had leaked and no owned address has an entry |
| BsdProxy.PartServes | bsd_ndp_proxy.go:95-122 | What working commands leave: every wanted address that can be proxied is, only wanted ones are owned, and the table is settled if all of them can be |
| BsdProxy.ReliablyOwned | bsd_ndp_proxy.go:129-150 | If commands were reliable from the start no conflict disowns an address, and synchronizing in part is synchronizing with what can be proxied |
| BsdProxy.BsdProxyResponder.EnsureUnconfirmed | bsd_ndp_proxy.go:159-166 | A call whose `ndp -s` works and whose second listing fails reports a failure, leaves an entry it does not own, and the table is not the starting one |
| BsdProxy.LeakedForGood | bsd_ndp_proxy.go:129-137 | With truthful commands a leaked entry is never owned and never removed, whatever is issued later |
| BsdProxy.LeaksStay | bsd_ndp_proxy.go:129-166 | A leaked address stays leaked as the log grows |
| BsdProxy.FailedListingLeaks | bsd_ndp_proxy.go:163-166 | The invariant of a run admits such a log on any table without an entry for the address, with every command truthful |
| BsdProxy.ReliableIsExact | bsd_ndp_proxy.go:95-178 | With reliable commands the table is the starting table plus one uplink proxy per owned address |
| BsdProxy.RouteCheckNeeded | bsd_ndp_proxy.go:152-158 | An addition for a new address that installs where the address routes keeps the table at the starting one plus owned proxies exactly if it routes through the uplink: what the route check is for |
| BsdRuntime.Round | runtime_bsd.go:82-94 | A successful round leaves a proxy on the uplink for every static address and every address of a source outside the internal prefixes, withdraws what else it owned, and leaves all other entries alone; whatever happened before, with working commands it does so as far as the addresses can be proxied and succeeds if all of them can be |
| BsdRuntime.Drive | runtime_bsd.go:65-80 | Over any interleaving of producers and consumer steps with the responder behind them: once nothing is under way and the last synchronization reported no failure, on a table nobody else edited every static address and every address of a source outside the internal prefixes has its proxy and nothing else is owned; whatever happened before the run, if its commands work that holds as far as the addresses can be proxied |
| BsdRuntime.WantedIs | runtime_bsd.go:82-94 | The addresses to manage are exactly the static ones and those that some source has outside the internal prefixes |
| BsdRuntime.SelectUplink | bsd_ndp_proxy.go:30-52 | The uplink is the first of the ranked interfaces that can proxy all targets, a requested usable one that can is always chosen, and it fails only if none of them can |
| NdpTable.NdpEntries | ndp_proxy.go:17-42 | Reads the lines in order, later ones replacing earlier ones, and skips lines that are no IPv6 entry |
| NdpTable.OutputParses | ndp_proxy.go:13-42 | Parsing any printed listing, with blank state columns, attached probe counts, zones, an address shown more than once, any white space, header and junk lines, gives exactly the table printed, the last row of an address counting |
| NdpTable.TableHoldsRows | ndp_proxy.go:17-42 | With distinct addresses that table has every printed row, proxied exactly if its flags have p, and nothing else |
| NdpTable.ColumnsFlag | ndp_proxy.go:30-39 | Searching the columns for a proxy flag word finds one exactly if the flags column has p, wherever a blank state column has shifted it |
| NdpTable.IsNdpProxyFlag | ndp_proxy.go:49-74 | Accepts exactly the words of letters from R, P, W, l, p with a p among them, followed by digits |
| NdpTable.ProxyWordIs | ndp_proxy.go:49-74 | Those words, character by character |
| Text.FieldsOfLayout | ndp_proxy.go:20 | Splitting at white space recovers the words of any layout of them |
| Text.SplitOfJoin | ndp_proxy.go:19 | Splitting at a separator undoes joining lines that do not hold it |
| Text.TrimIs | main.go:219 | Trimming takes white space off both ends, and all of it |
| Text.AsciiCharacters | bsd_ndp_proxy.go:58 | Which ASCII characters are white space, and which change in lower case |
| RegistryRuns.PublishedAtAnyTime | runtime_linux.go:79 | What a load without the mutex sees: in every reachable state, whoever holds the mutex, sets were published in lock order but for at most the refresh under way, and the published set has exactly the addresses that the last published refreshes of the sources found |
| RegistryRuns.FreeMutexPublished | active_ips.go:34-56 | In every reachable state with the mutex free the published set is the union of the sources, each source holds its last refresh, and sets were published in lock order |
| RegistryRuns.LearnedUnmapped | active_ips.go:27-32 | In every reachable state only IPv6 addresses that are not IPv4-mapped have been published, whatever the sources report |
| RegistryRuns.LateStoreLosesAddresses | active_ips.go:52-56 | Storing after the unlock reaches an idle state whose published set lacks a live address |
| RegistryRuns.NoLostWakeUp | active_ips.go:58-63 | In every interleaving the last snapshot is current, or the channel is full, or a producer has yet to signal, or the consumer is on its way to a snapshot; a quiescent system has synchronized against the current targets |
| RegistryRuns.KeepsWillSee | runtime_bsd.go:65-80 | Every step of a producer or of the consumer loop keeps that |
| RegistryRuns.KeepsPublished | active_ips.go:34-56 | Every step keeps one holder of the mutex and publication in lock order |
| RegistryRuns.OffersConserved | active_ips_linux.go:11-19 | For every address: entries into a source = offers made + offers pending, and offers = dropped + queued + consumed, with at most 64 queued |
| RegistryRuns.ReplayHoldsLast | active_ips.go:34-43 | After any refreshes each source holds what its own last one found |
| Registry.UnionUnchanged | active_ips.go:34-37 | A replacement that is not signalled does not change the union |
| ActiveIps.ActiveIps.Replace | active_ips.go:25-67 | Replaces one source by exactly the IPv6 addresses among the given ones after unmapping, publishes the union, signals exactly if the source changed, and offers each address new to the source once, as far as the queue has room |
| ActiveIps.UninterruptedReplace | active_ips.go:25-67 | A call that no other producer interrupts is one pass through the machine's steps, with the same effect |
| ActiveIps.SameAddressSet | active_ips.go:69-79 | Comparing sizes and one inclusion decides equality of the sets |
| ActiveIps.ActiveIps.BuildUnion | active_ips.go:45-51 | Adding source after source in any order gives the union |
| ActiveIps.ActiveIps.OfferAll | active_ips_linux.go:11-19 | A send that never blocks: all addresses are queued if they fit, otherwise the queue is full of them, and earlier ones stay |
| ActiveIps.ActiveIps.Snapshot | active_ips.go:81-99 | The snapshot is strictly ascending and has the members of the published union |
| ActiveIps.ActiveIps.BsdProxyTargets | runtime_bsd.go:82-94 | The targets are the static addresses in their order followed, in ascending order, by exactly the addresses that pass the policy and are in some source |
| Producers.Refreshed | cni.go:49-59 | A failed refresh empties its source and a successful one replaces it; the signal follows a change |
| Producers.RefreshDockerNetworks | docker.go:125-138 | Every configured network is refreshed in spite of failures, each source holds what its refresh found, other sources stay, exactly the failing networks are reported, and the signal follows a change |
| Producers.SourcesApart | docker.go:179-181 | Different networks have different sources, and none is a CNI source |
| Bpf.FilterMeaning | ndp.go:15-28 | For every packet of any length the program, its source expression, and the test length >= 55, EtherType 0x86dd, byte 20 = 58, byte 54 = 135 agree |
| Bpf.FragmentsNeverAccepted | ndp.go:20-23 | No packet with a fragment header is accepted |
| Checksum.ComplementVerifies | ndp.go:29-32 | A stored complement makes the whole sum fold to 0xffff, whatever the other bytes |
| Frames.FrameWellFormed | ndp.go:29-32 | Every frame has correct length fields, hop limit 255 and a checksum that verifies against the pseudo-header in its own bytes |
| Frames.WellFormedResidue | ndp.go:29-32 | The bytes under the checksum of a well-formed frame, read as one number, are a multiple of 0xffff |
| Frames.SumResidue | ndp.go:29-32 | The sum of 16-bit words is the value of all the bytes modulo 0xffff |
| Messages.BuiltFramesWellFormed | ndp.go:41-202 | So has every frame of the four builders, for all link addresses and IPv6 addresses |
| Messages.AdvertisementBytes | ndp.go:41-71 | Byte for byte, an unsolicited advertisement tells all nodes that the host's link address is that of the address announced, with the router and override flags |
| Messages.GratuitousBytes | ndp.go:74-111 | Byte for byte, a gratuitous solicitation comes from the unspecified address with a nonce and goes to the group of the address it asks for |
| Messages.SolicitBytes | ndp.go:114-148 | Byte for byte, a solicitation for the gateway comes from the given address with the host's link address as option |
| Messages.SolicitRoundTrip | ndp.go:114-148 | A Solicit frame passes the filter and its capture recovers the sender, its address, the gateway's solicited-node group and the gateway |
| Messages.GratuitousRoundTrip | ndp.go:74-111 | A Gratuitous frame passes the filter and its capture recovers the sender, the unspecified address, the target's group and the target |
| Messages.SolicitationCaptured | ndp.go:205-249 | Any solicitation frame passes the filter and decodes to its own parts |
| Messages.AdvertisementsFiltered | ndp.go:16-28 | No advertisement of either builder passes the filter |
| Messages.AnswerGoesBack | ndp.go:166-202 | The answer to any captured packet, if its addresses fit an IPv6 header, is, byte for byte, an advertisement to the link and network address it came from that the host's link address is that of the address asked for, with the override flag exactly for a multicast destination; otherwise there is none |
| Messages.AnswerableIff | ndp.go:234-241 | The addresses fit exactly if neither the source nor the target in the packet is IPv4-mapped |
| Messages.MappedSourceUnanswered | ndp.go:174-178 | A solicitation from ::ffff:192.0.2.1 passes the filter and is captured, and no answer can be built |
| Messages.SolicitAnswered | ndp.go:166-202 | The answer to a captured Solicit frame, byte for byte, or none for a mapped source or gateway |
| Messages.MulticastDestination | ndp.go:187-189 | A destination counts as multicast exactly if its first byte on the wire is 0xff |
| Messages.GroupOf | ndp.go:78-83 | The group bytes spell the solicited-node address and the link destination is its Ethernet form |
| Messages.CapturedFields | ndp.go:232-241 | A captured packet passes the filter, and the link address and the three addresses taken from it spell its bytes |
| Messages.CapturedIff | ndp.go:222-232 | Exactly which packets are captured: ICMPv6 directly in IPv6, a solicitation of at least 24 bytes, and after it any number of whole options up to the end of the datagram |
| Addresses.PolicyIsPrefixes | ipv6_policy.go:10-12 | The policy's byte tests let through exactly the addresses outside ::, ::1, ff00::/8, fe80::/10 and fc00::/7, and of the IPv4-mapped ones those that carry an address that is global unicast and not private |
| Addresses.InternalRanges | ipv6_policy.go:10-12 | Those prefixes as ranges of 128-bit numbers |
| Addresses.RankIs | active_ips.go:95-97 | The order of addresses is that of the numbers, IPv4 addresses first |
| Addresses.RangeIsPrefix | main.go:255-258 | Lying between the first and last address of a masked prefix is agreeing with its leading bits, and masking does not change what it holds |
| Addresses.RangeInSpace | main.go:255-258 | No range leaves the 128-bit space |
| Addresses.Collect | active_ips.go:27-32 | The loop keeps exactly the IPv6 addresses among the given ones after unmapping |
| StaticTargets.AddressTarget | main.go:174-177 | A single address is a target that holds itself and nothing else |
| StaticTargets.PrefixTarget | main.go:166-173 | An IPv6 prefix keeps its length, has its host bits cleared, and holds what its leading bits say |
| StaticTargets.TargetErrors | main.go:165-179 | Nothing else is a target, and which error it is |
| StaticTargets.StaticTargetList.Start | main.go:109-136 | The program starts exactly when every argument parses, the named file loads and, on BSD hosts, every target is a single address |
| StaticTargets.ReadStaticTargetFile | main.go:204-234 | A file loads exactly if it can be read to its end and every significant line is a target; each error says what is wrong, and a bad line reported is the first one |
| StaticTargets.PrefixesAreTargets | main.go:219-229 | The prefixes of a file are the targets of its significant lines and no others |
| StaticTargets.PrefixesInOrder | main.go:217-229 | They are in the order of the lines |
| StaticTargets.SignificantIff | main.go:220-223 | A line counts exactly if its first character that is no white space exists and is not a hash sign |
| StaticTargets.LastAcceptedIs | main.go:236-267 | The load in force is that of the last acceptable file, or the one from before if there was none |
| StaticTargets.StaticTargetList.Reload | main.go:236-267 | A reload takes over an acceptable file as a whole; a missing, bad or rejected one changes nothing; a file that loads is rejected exactly if, on a BSD host, some target is not a single address |
| StaticTargets.StaticTargetList.ReloadAll | main.go:236-279 | Over any run of reloads the targets are the command-line ones followed by those of the last acceptable file, and the address set holds exactly what they cover; without a file name nothing changes |
| StaticTargets.BuildSet | main.go:255-263 | The set built from prefixes holds exactly the addresses they cover |
| StaticTargets.CoveredByEither | main.go:250-263 | Merged targets cover what either list covers |
| Announcements.Announcer.AnnounceStaticTargets | runtime_linux.go:168-194 | Tries exactly the addresses of /128 targets not yet announced, in ascending order, each with the frame that announces it; afterwards remembered are exactly the current ones announced before or now |
| Announcements.Announcer.AnnounceAll | runtime_linux.go:66-72 | Over any run of reloads and failing writes each call tries exactly the addresses that the calls before left unannounced |
| Announcements.AnnouncedIff | runtime_linux.go:168-194 | An address is remembered exactly if an announcement of it succeeded and it has been a target ever since |
| Announcements.OncePerResidence | runtime_linux.go:181-193 | Between two successful announcements of an address some call saw it absent; a failed one is tried again by the next call |
| Announcements.AnnounceableIff | ndp.go:42-47 | The advertisement guard rejects exactly the unspecified address, ff00::/8 and ::ffff:224.0.0.0/100, so every address the policy lets through can be announced |
| Announcements.QueuedFramesAre | runtime_linux.go:95-127 | Nothing goes out for an internal address taken off the queue; for any other one, byte for byte, an advertisement of it, which no filter accepts, then the solicitations for it and, with a gateway, from it for the gateway, from which a capture recovers who asks for what |
| Decision.AnsweredIff | runtime_linux.go:143-153 | In every reachable state of the registry, also while a producer holds the mutex: a target is to be answered exactly if a command-line prefix or a prefix of the target file covers it, or the last published refresh of some source found it and it is outside the internal prefixes; with the mutex free every refresh has been published |
| Decision.PacketAnswered | runtime_linux.go:74-93 | From packet to packet: a captured solicitation is answered exactly then and if its source is no mapped address, by a well-formed frame that no filter accepts and that is, byte for byte, the advertisement to its sender that this host's link address is that of the address asked for |
| Decision.Serve | runtime_linux.go:66-93 | Over any run of reloads and packets, each packet is answered in that way by the command-line targets, the last file accepted by the reloads before it, and what the registry has published when it is decided |
| Interfaces.Resolve | ifname.go:44-109 | The candidate list is the merge of the matches of the four phases, and it fails exactly if interfaces cannot be listed or none is usable |
| Interfaces.CandidatesAre | ifname.go:44-109 | That merge is the first-occurrence de-duplication by index of the phases in order; all candidates are usable, every usable interface's index is listed, and the reasons are exactly the phases that matched, in order |
| Interfaces.CandidatesUnique | ifname.go:44-131 | No other list meets these conditions |
| Interfaces.PhasesTake | ifname.go:50-102 | The matches are those of the four phases, one phase after the other, each in the order of its list |
| Interfaces.RequestedTakes | ifname.go:50-69 | The requested phase takes the first interface of that name if one is asked for and it is usable, and nothing otherwise |
| Interfaces.RoutesTake | ifname.go:71-88 | The route phase takes exactly the usable interfaces that positive route indexes name |
| Interfaces.AddressesTake | ifname.go:90-95 | The address phase takes exactly the usable interfaces with an IPv6 address |
| Interfaces.ScanTakes | ifname.go:97-102 | The scan takes exactly the interfaces that are up, no loopback, multicast, and have a six-byte address |
| Interfaces.ByNameIs | ifname.go:111-118 | An interface found by name is the first of that name |
| Interfaces.AskedIs | ifname.go:51-52 | A name is asked for unless it is blank or the word auto in any case |
| Interfaces.CandidateList.Add | ifname.go:120-131 | Searching and extending the reason text does what adding to a list of phases does |
| Interfaces.ReasonContains | ifname.go:125 | Searching a reason text for a phase's name finds exactly the phases that matched |
| Interfaces.NamesApart | ifname.go:56-100 | No phase's name occurs within another's |
| Interfaces.RequestedFirst | ifname.go:50-69 | A usable requested interface is the first candidate and the only one with that reason |
| Responder.Prepare | responder.go:25-64 | Selects the first initialized candidate that is requested or has a gateway, else the first initialized one; on success its handle is the only open one, on failure none is |
| Responder.SelectedUnique | responder.go:25-64 | That rule selects one candidate |
| Responder.TryCandidate | responder.go:92-116 | A candidate that fails leaves no open handle |
| Responder.Finalize | responder.go:66-90 | Closes the handle of every initialized candidate but the selected one |
| Responder.Choose | responder.go:118-126 | The first with a gateway, or the first |
| Responder.RequestedWins | responder.go:45-50 | A usable requested interface that can be initialized is always selected |
| Responder.GatewayDecides | responder.go:52-56 | Without a usable requested interface only a gateway ends the search |
| HostInfo.DefaultGateway | hostinfo.go:117-143 | The gateway of the first of the IPv6 default routes with the lowest priority value, and none exactly if there is no such route |
| Ordered.AscendingUnique | active_ips.go:95-97 | A set has one ascending listing, so sorting forgets the iteration order of the map |

## Left out

- BsdProxy.BsdProxyResponder.Interfere: other processes act before each address, not between the commands for one address.
- BsdProxy.Prepare: being root and having an `ndp` command is one parameter; names are lower-cased for ASCII letters only.
- BsdProxy.BsdProxyResponder.CheckTargetRoute: a responder without an interface or without a route lookup cannot be built, so these two errors are left out.
- RegistryRuns.NoLostWakeUp: says nothing about a synchronization that failed; the program does not retry one unprompted.
- RegistryRuns.OffersConserved: does not say that a queued address is still active when it is announced; the program does not check.
- Messages.CapturedFields: packets with extension headers, which the decoder library may also decode, are skipped; the reuse of decode buffers and the bounded channel of captured solicitations are not modelled.
- Messages.SolicitAnswered: an unspecified source is answered at that address, as the code does; section 7.2.4 of RFC 4861 asks for the all-nodes address.
- Announcements.QueuedFramesAre: for unmapped addresses only, which is what the registry offers.
- Responder.TryCandidate: what the socket, the filter and the gateway search come to is a parameter.
- Producers.RefreshDockerNetworks: what a network inspection finds is a parameter, and one network does not change while the loop runs; the order of the reported failures is not stated.
- BsdRuntime.Round: static targets in the IPv4-mapped range are left aside, as the synchronization does.
- Address zones.
- `ndpProxyEntryExists`: only used by the repository's own tests.
- `cniLeaseDirectories`, reading lease directories, the Docker client with its event stream and reconnects, netlink probing and neighbour states: their outcomes are parameters.
- `interfaceHasIPv6Address`, `describeInterfaces`, log texts and the wording of errors.
- Command-line flags, signals, the readiness file, the announcement of active addresses at startup, the stubs for other platforms.
- The agent, the install scripts, the container images and the service files are not modelled.

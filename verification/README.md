# Nullgate: a verified model of its core

Nullgate joins a group's own computers into a private network without a server. This
project models the parts of its core that decide things, and proves what they decide:

- **the signed roster** — how a bag of signed entries, partly hostile and in no order,
  folds into one membership, and how members get their virtual addresses;
- **packets** — in-place TCP MSS clamping with its checksum, and the connection tracking
  behind the one-way block;
- **the mesh** — the tie-break between duplicate connections run at two ends, dial backoff,
  path selection, and live changes of the relay map;
- **the edges** — the admission transcript and short authentication string, presence
  merging, and the command lines of device actions.

Loops and updates in place are methods and classes, each proved against a specification
function or predicate; the main theorems are lemmas about those specifications, over every
input, every run or every interleaving.

| module | source | about |
|---|---|---|
| `Basics` | | options, IPv4 addresses, machine integers, powers of two |
| `Ordering` | `roster.rs` (its two sorts) | finite sets put into the one ascending order |
| `Addressing`, `Turns` | `roster.rs` | the wrap-around address allocator |
| `Roster`, `RosterRules`, `RosterAddresses` | `roster.rs`, `engine.rs`, `router.rs` | the fold, its authorization rules, addresses, forwarding table |
| `RosterEffects` | `roster.rs` | what each kind of entry does, over whole runs |
| `Packets`, `PacketOptions` | `router.rs` | MSS clamping, Internet checksum; both on packets written out byte by byte |
| `Conntrack`, `OneWay` | `conntrack.rs`, `router.rs` | the flow table against the packet history; the same in terms of packets |
| `Mesh` | `engine.rs` | duplicate mesh connections, two ends |
| `Backoff`, `DialSchedule` | `engine.rs` | dial deduplication and backoff; when exactly a dial starts |
| `PathSelect` | `relays.rs` | path selection with hysteresis |
| `RelayMap` | `relays.rs`, `engine.rs`, `node.rs` | relay settings and the live relay map |
| `Sas` | `admission.rs` | transcript and emoji indices |
| `Presence`, `PresenceAddress` | `presence.rs` | heartbeat merging; the public address |
| `Placeholders` | `actions.rs` | filling in a member's details |
| `Actions` | `actions.rs` | tokenizing, the check for an address, the macOS script |

## Where the code differs from its documentation or goes beyond it

- `roster.rs:22` makes the `SetRole` op originator-only. Roles also change without it: a
  Controller can change a member's role by admitting it again. It can demote another Controller on an open Peer invite
  (`RosterRules.ReAdmissionCanDemote`) and promote a Peer on an open Controller invite
  (`RosterRules.ReAdmissionCanPromote`). `RosterRules.OnlyReAdmissionChangesRoles` says exactly
  when the role of a member who stays changes without the originator.
- `roster.rs:495-496` says that removing another member never shifts a member. It can
  (`RosterAddresses.RemovalCanShift`). It never does, whoever leaves, exactly for a member whose
  address is the one its probe starts from (`RosterAddresses.RemovalShiftsOnlyTheDisplaced`).
- `engine.rs:2885-2886` lets a holder of the originator secret publish an admission, but the
  entry is signed with the device key, and the fold judges that key
  (`RosterAddresses.SecretAloneAdmitsNobody` is a case; `RosterAddresses.AdmissionOutcome` says
  when such an admission takes effect).
- `engine.rs:3089-3094` promises that both ends converge on one connection. With two
  connections of the lower end registered in opposite orders both are lost
  (`Mesh.OppositeOrdersLoseBoth`). The promise holds if and only if the same connection wins the
  order of registrations at both ends: the last one dialed by the lower NodeId or, if there is
  none, the last one (`Mesh.ConvergesExactlyWhenAgreed`).
- `conntrack.rs:21-23` gives flows an idle lifetime of two minutes. A flow that expired but was
  never swept away comes back with one more outbound packet that opens nothing
  (`Conntrack.UnsweptFlowsRevive`), and one that was swept away does not
  (`Conntrack.ExpiredFlowsReviveUnlessSwept`).
- `actions.rs:331-335` catches the common case of `{ip}` used without an address. Quotes inside a
  placeholder hide it from the check (`Actions.QuotesHideAPlaceholder`). The check is right if
  and only if a placeholder that shows once the quotes are taken away also shows with them
  (`Actions.RefusedExactlyWhenNeeded`).
- `actions.rs:308-315` fills in one placeholder after the other. A stray brace can join a value
  to a new placeholder (`Placeholders.StrayBracesJoin`). With values that hold no opening brace
  the result is that of filling in all at once if and only if nothing joins
  (`Placeholders.SimultaneousExactlyWhenNothingJoins`).
- `presence.rs:282-286` lets heartbeats and observations both set a peer's public address, so
  the order of delivery can decide it (`PresenceAddress.PublicAddressDependsOnOrder`).
  `PresenceAddress.PossibleExactlyWhenReached` says which addresses a peer can end up with.

## Model

| member | source | states |
|---|---|---|
| Ordering.Sort | crates/ipn-core/src/roster.rs:277-279 | The sort yields the only ascending sequence of exactly the given elements. |
| Ordering.ArrangementUnique | crates/ipn-core/src/roster.rs:277-279 | Two ascending sequences over the same elements are equal, so the order entries were found in cannot matter. |
| Addressing.Probe | crates/ipn-core/src/roster.rs:513-518 | The probing loop with its cap of 253 tries ends on the host where a walk of the full circle ends. |
| Addressing.PickIsNearest | crates/ipn-core/src/roster.rs:513-518 | With fewer than 253 hosts taken, probing ends on a free host, and every host between the start and it is taken. |
| Addressing.GetsNearest | crates/ipn-core/src/roster.rs:511-519 | With at most 253 members each one gets the nearest host left free by those admitted before it. |
| Addressing.HostsDistinct | crates/ipn-core/src/roster.rs:511-523 | With at most 253 members no two get the same host. |
| Addressing.RemovalLeavesOneHole | crates/ipn-core/src/roster.rs:490-523 | After a removal, at every prefix of the admission order the occupied hosts are those occupied before minus exactly one. |
| Addressing.OwnHostIsKept | crates/ipn-core/src/roster.rs:490-523 | A member on the host it starts from keeps it whoever else leaves, collisions and wrap-around included. |
| Addressing.DisplacedMemberMoves | crates/ipn-core/src/roster.rs:490-523 | For a member not on the host it starts from, some single departure moves it. |
| Addressing.StableExactlyOnOwnHost | crates/ipn-core/src/roster.rs:490-496 | No departure ever moves a member if and only if it sits on the host it starts from. |
| Addressing.NewcomerGetsItsHost | crates/ipn-core/src/roster.rs:497-523 | A newcomer recording a host nobody holds gets it, wherever it falls in the admission order. |
| Addressing.NewcomerMovesNobody | crates/ipn-core/src/roster.rs:497-523 | A newcomer whose host was nobody's moves no existing member, whatever host it records. |
| Addressing.EarlierNeverMove | crates/ipn-core/src/roster.rs:406-409 | Members served before the newcomer keep their hosts. |
| Addressing.RecordIsHonoured | crates/ipn-core/src/roster.rs:513 | A usable recorded host that nobody served before holds is given as it is. |
| Addressing.UnusableRecordMeansTwo | crates/ipn-core/src/roster.rs:513 | For a record that is no usable host the search begins at .2. |
| Addressing.SearchWrapsAround | crates/ipn-core/src/roster.rs:515-518 | Two members recorded on .254: the second gets .2. |
| Roster.Serve | crates/ipn-core/src/roster.rs:511-523 | The serving loop gives each member the host of its turn and changes nothing else about it. |
| Roster.AssignIps | crates/ipn-core/src/roster.rs:497-524 | Members end with the hosts the allocator specification gives them, in the roster's subnet. |
| Roster.FirstFree | crates/ipn-core/src/roster.rs:486 | The first host from a point on that is not taken; .254 when all are. |
| Roster.Authenticate | crates/ipn-core/src/roster.rs:267-275 | The kept entries are the set of authentic ones, each once. |
| Roster.Fold | crates/ipn-core/src/roster.rs:284-399 | The imperative fold over all six op kinds computes the run of the authorization rules. |
| Roster.Build | crates/ipn-core/src/roster.rs:266-412 | The whole build equals a function of the set of authentic entries. |
| RosterRules.OutsidersHaveNoSay | crates/ipn-core/src/roster.rs:1-33 | Two bags with the same authentic entries signed inside a circle closed under admission build the same roster: order, copies, unauthentic entries and anything outsiders sign are irrelevant. |
| RosterRules.NoOriginatorNoMembers | crates/ipn-core/src/roster.rs:288-395 | Without an entry of the originator the roster is empty in every field. |
| RosterRules.PeersAndStrangersAreIgnored | crates/ipn-core/src/roster.rs:31-33 | An entry signed by neither the originator nor a current Controller has no effect. |
| RosterRules.RemovedMembersAreIgnored | crates/ipn-core/src/roster.rs:31-33 | After an authorized removal, over any run that does not admit the member again, deleting everything it signs leaves the fold state unchanged. |
| RosterRules.EntriesTakeTheirPlace | crates/ipn-core/src/roster.rs:277-288 | An entry that arrives at any time is judged at the place of its timestamp: it takes effect there iff it is authorized in the state of the entries before it, and otherwise the fold is as without it. |
| RosterRules.WithoutTheOriginator | crates/ipn-core/src/roster.rs:14-29 | No other signer's entry changes the freeze, the Controller invite, or a staying member it does not re-admit; only its Add brings a member in, and only Peers go. |
| RosterRules.RegeneratingInvalidates | crates/ipn-core/src/roster.rs:24-27 | After a new invite the old nonce is stale, the new one is good unless single-use and used up before, and the other kind checks as before. |
| RosterRules.RunWithinCircle | crates/ipn-core/src/roster.rs:31-33 | Dropping all entries signed outside a closed circle leaves the fold state, and members stay inside the circle. |
| RosterRules.AdmittedAreMembers | crates/ipn-core/src/roster.rs:284-399 | Admission times are kept for exactly the current members. |
| RosterRules.StepStaysPaid | crates/ipn-core/src/roster.rs:288-395 | Every step keeps the number of Controllers within originator grants plus spent Controller nonces. |
| RosterRules.ControllersAreBounded | crates/ipn-core/src/roster.rs:288-395 | A built roster has at most as many Controllers as originator Controller adds and role grants plus distinct nonces of originator Controller invites. |
| RosterRules.SingleUseAdmitsOnce | crates/ipn-core/src/roster.rs:341-395 | Over the whole fold two admissions that use up a single-use invite cite different nonces. |
| RosterRules.FoldOneMore | crates/ipn-core/src/roster.rs:266-399 | Adding an authentic entry that sorts last is one more step on the state before. |
| RosterRules.CheckInvitePredictsTheFold | crates/ipn-core/src/roster.rs:458-475 | A new device's admission that sorts last takes effect iff the roster is not frozen and the signer is the originator or a Controller whose nonce checks Ok. |
| RosterRules.OnlyReAdmissionChangesRoles | crates/ipn-core/src/roster.rs:301-395 | A non-originator entry changes the role of a member who stays iff it admits that member again at another role, unfrozen, by a Controller admitted no later, on the open invite of that role. |
| RosterRules.OnlyReAdmissionDemotes | crates/ipn-core/src/roster.rs:301-395 | A non-originator entry ends a Controller's role iff it is an open re-admission of it as a Peer; removals never do. |
| RosterRules.ControllersAreSafeFromEachOther | crates/ipn-core/src/roster.rs:20-22 | Over any run without originator entries and without an Add of that member, a Controller stays one. |
| RosterRules.ReAdmissionCanDemote | crates/ipn-core/src/roster.rs:384-393 | A concrete run in which one Controller demotes another by re-admission. |
| RosterRules.ReAdmissionCanPromote | crates/ipn-core/src/roster.rs:384-393 | A concrete run in which a Controller promotes a Peer by re-admission. |
| RosterRules.FrozenAdmitsNobody | crates/ipn-core/src/roster.rs:341-345 | Over any run from a frozen state without an originator unfreeze, no member is added. |
| RosterEffects.FrozenIsTheLastWord | crates/ipn-core/src/roster.rs:296-300 | Over every run the roster is frozen iff the originator's last `Freeze` said so; without one it stays as it was, whatever anybody else signs. |
| RosterEffects.LastFreezeDecides | crates/ipn-core/src/roster.rs:266-412 | Through the whole build: an originator `Freeze` that sorts last decides, and changes no member. |
| RosterEffects.FreezeHoldsUntilLifted | crates/ipn-core/src/roster.rs:341-346 | While the originator's last word is "frozen" no `Add` has any effect, its own included; once it is "not frozen" its next `Add` is a member as recorded. |
| RosterEffects.NameIsTheLastWord | crates/ipn-core/src/roster.rs:336-340 | Over every run the name is the last one set by the originator or by somebody who was a Controller at that moment. |
| RosterEffects.PeerInviteIsTheLastWord | crates/ipn-core/src/roster.rs:318-328 | Likewise the Peer invite, nonce and single-use mark. |
| RosterEffects.ControllerInviteIsTheLastWord | crates/ipn-core/src/roster.rs:329-334 | The Controller invite is the originator's last one, and single-use whatever its entry says. |
| RosterEffects.SpentExactlyBySingleUse | crates/ipn-core/src/roster.rs:359-383 | Over every run a nonce is spent iff some accepted Controller's admission cited it while it was the standing single-use invite of that role and unspent. |
| RosterEffects.CheckInviteAnswers | crates/ipn-core/src/roster.rs:458-475 | The answer is Stale iff no invite of the kind stands with this nonce, and Spent iff one stands, is single-use, and the fold has spent the nonce. |
| RosterEffects.OriginatorIsHeard | crates/ipn-core/src/roster.rs:288-395 | In any state the originator's removal, role grant and, unless frozen, admission take effect on the named member and on no other. |
| RosterEffects.ControllersEvictPeers | crates/ipn-core/src/roster.rs:301-309 | A Controller's removal takes out the named member iff it is a Peer, and nobody else. |
| RosterEffects.RoleIsTheLastWord | crates/ipn-core/src/roster.rs:310-317 | Over every run a role set by the originator is kept until its next `SetRole` of that member or until somebody admits the member again. |
| RosterEffects.CountsExactly | crates/ipn-core/src/roster.rs:267-275 | An entry counts iff it is in the bag, of this network, not after the ceiling, and verifies. |
| RosterEffects.FoldsInTimeOrder | crates/ipn-core/src/roster.rs:277-279 | Entries are folded by timestamp, then by content id. |
| RosterEffects.ServedInAdmissionOrder | crates/ipn-core/src/roster.rs:499-509 | Members are served by admission time, then by id. |
| RosterEffects.BuiltShowsTheFold | crates/ipn-core/src/roster.rs:399-412 | A built roster shows the fold's freeze, name, invites and members with their names, roles and vouchers. |
| RosterAddresses.AddressesAreDistinct | crates/ipn-core/src/roster.rs:497-524 | With at most 253 members all addresses are hosts 2 to 254 of the subnet and pairwise distinct. |
| RosterAddresses.RemovalShiftsOnlyTheDisplaced | crates/ipn-core/src/roster.rs:490-496 | No removal of another member changes a member, if and only if its address is where its probe starts. |
| RosterAddresses.RemovalCanShift | crates/ipn-core/src/roster.rs:490-523 | Two concrete members with one recorded host: the second moves when the first leaves. |
| RosterAddresses.RemoveIsLocal | crates/ipn-core/src/roster.rs:301-313 | Through the whole build, an authorized last Remove takes out its target, changes at most the addresses of others, and no address of a member on its own host. |
| RosterAddresses.LowestFreeIsFree | crates/ipn-core/src/roster.rs:477-488 | On a roster with room, the lowest free host is usable, unoccupied, and every lower host is occupied. |
| RosterAddresses.NewcomerIsLocal | crates/ipn-core/src/roster.rs:490-524 | A newcomer with an unoccupied host keeps exactly its record and every other member is unchanged, whatever the admission times. |
| RosterAddresses.NewcomerMovesExactlyTheSeated | crates/ipn-core/src/roster.rs:406-409 | Whatever host it records, a newcomer leaves every member its address iff the host it is given was nobody's. |
| RosterAddresses.NewcomerMovesNoneBefore | crates/ipn-core/src/roster.rs:406-409 | A newcomer never moves a member that sorts before it by admission time and id. |
| RosterAddresses.AdmissionOutcome | crates/ipn-core/src/engine.rs:2874-2913 | A published admission that sorts last on a roster with room adds exactly the new device at the address picked for it, or, when the device key is not entitled, changes nothing. |
| RosterAddresses.WhoMayPublish | crates/ipn-core/src/engine.rs:2882-2895 | An admission is published iff the roster is not frozen and the node holds the originator secret or is a Controller, with or without the secret; a freeze is reported first. |
| RosterAddresses.SecretAloneAdmitsNobody | crates/ipn-core/src/engine.rs:2882-2912 | A concrete Peer with the originator secret and an open invite: the local gate lets it publish an admission and the roster stays as it was. |
| RosterAddresses.RouteTableFrom | crates/ipn-core/src/router.rs:25-32 | The table maps each address somebody holds to the last holder by id, and holds no other address. |
| RosterAddresses.LookupIsExact | crates/ipn-core/src/router.rs:34-36 | On a resolved roster of at most 253 members, lookup answers a member iff that member has the address. |
| Packets.SumCovered | crates/ipn-core/src/router.rs:237-252 | On packets of at most 65535 bytes, odd lengths included, the u32 accumulator never wraps and holds the sum of pseudo-header and segment words. |
| Packets.FoldCarries | crates/ipn-core/src/router.rs:253-255 | The carry loop terminates on the one's-complement fold, below 2^16. |
| Packets.FoldResidue | crates/ipn-core/src/router.rs:253-255 | Folding keeps the residue modulo 0xffff and never makes a nonzero sum zero. |
| Packets.ComplementCompletes | crates/ipn-core/src/router.rs:253-257 | A sum completed by the complement of its fold folds to 0xffff. |
| Packets.RecomputeTcpChecksum | crates/ipn-core/src/router.rs:232-258 | Only the two checksum bytes change, and a receiver's one's-complement sum is then 0xffff. |
| Packets.LowerMssOptions | crates/ipn-core/src/router.rs:201-224 | The walk terminates in bounds on any bytes, lowers exactly the MSS options it meets, touches nothing else, and reports whether it lowered one. |
| Packets.ClampTcpMss | crates/ipn-core/src/router.rs:185-229 | Returns true iff some MSS option exceeded the bound; then every option is at the minimum of old value and bound, the checksum is valid, and all other bytes are unchanged. |
| Packets.ClampingKeepsOptions | crates/ipn-core/src/router.rs:185-229 | The clamped packet is walked to the same MSS options as the original. |
| Packets.ClampingSettles | crates/ipn-core/src/router.rs:185-229 | After clamping nothing exceeds the bound, and clamping again changes nothing. |
| Packets.ClampingReportsChanges | crates/ipn-core/src/router.rs:177-229 | The packet differs afterwards iff an option exceeded the bound, which is what the flag says. |
| PacketOptions.WalkReadsOptions | crates/ipn-core/src/router.rs:201-224 | Over any list of well-formed options laid out in the packet, the walk meets exactly the offsets where the entries of kind 2 and length 4 begin, and goes on behind the list. |
| PacketOptions.WalkStops | crates/ipn-core/src/router.rs:205-212 | At the end, at an end-of-list byte, and at a length that is cut off, below two or too long, it meets nothing more. |
| PacketOptions.SynOptionsAreReached | crates/ipn-core/src/router.rs:185-224 | The options clamped in a SYN or SYN-ACK are exactly the MSS options of its option list. |
| PacketOptions.AnnouncedMssIsClamped | crates/ipn-core/src/router.rs:177-229 | A SYN or SYN-ACK that announces an MSS after any well-formed options, whatever follows, announces the lower of it and the bound afterwards, with a valid checksum if it was lowered. |
| PacketOptions.OthersPass | crates/ipn-core/src/router.rs:186-200 | What is no IPv4, no TCP or has no SYN flag is unchanged. |
| PacketOptions.CoveredIsPseudoSegment | crates/ipn-core/src/router.rs:237-252 | The sum is that of the big-endian words of pseudo-header and segment written out as one byte string. |
| PacketOptions.OddIsPadded | crates/ipn-core/src/router.rs:250-252 | An odd last byte counts as if a zero byte followed. |
| PacketOptions.FoldsToAllOnes | crates/ipn-core/src/router.rs:253-255 | A sum folds to 0xffff iff it is a positive multiple of 65535. |
| Conntrack.Conntrack.constructor | crates/ipn-core/src/conntrack.rs:26-30 | A new table is exact for the empty history. |
| Conntrack.Conntrack.RecordOutbound | crates/ipn-core/src/conntrack.rs:43-58 | After a send the table is exact for the history with that send: it holds exactly the established flows with their last send times. |
| Conntrack.Conntrack.AllowsInbound | crates/ipn-core/src/conntrack.rs:61-69 | Admits a packet iff it is return traffic of the history. |
| Conntrack.Conntrack.Sweep | crates/ipn-core/src/conntrack.rs:72-77 | Sweeping keeps the table exact for the history with that sweep. |
| Conntrack.Conntrack.Clear | crates/ipn-core/src/conntrack.rs:80-82 | Clearing keeps the table exact for the history with that clear. |
| Conntrack.EstablishedNext | crates/ipn-core/src/conntrack.rs:43-82 | How each kind of event makes or ends an established flow. |
| Conntrack.AnswersHaveReversedKeys | crates/ipn-core/src/router.rs:106-175 | A packet with addresses and ports swapped belongs to the reversed flow. |
| Conntrack.AdmittedWasSolicited | crates/ipn-core/src/conntrack.rs:61-69 | An admitted packet answers a flow that was opened since the last clear and sent on within 120 s. |
| Conntrack.KeptAliveIsAdmitted | crates/ipn-core/src/conntrack.rs:43-82 | With time moving forward, a flow opened and sent on without a gap over 120 s is admitted however sweeps interleave. |
| Conntrack.ExpiredFlowsReviveUnlessSwept | crates/ipn-core/src/conntrack.rs:43-77 | An expired flow lets no answer in; after one more packet of ours that opens nothing it does iff since its opening there was no clear and no sweep later than 120 s after the last send before it. |
| Conntrack.UnsweptFlowsRevive | crates/ipn-core/src/conntrack.rs:47-54 | A concrete case: SYN at 0 s, ACK at 200 s, no sweep; the answer is kept out before the ACK and let in after it. |
| OneWay.InitiationIsClientSyn | crates/ipn-core/src/router.rs:128-148 | A packet is an initiation iff it is IPv4 TCP and its flag byte has SYN set and ACK clear. |
| OneWay.AnsweringOpensNothing | crates/ipn-core/src/conntrack.rs:43-69 | If nothing we sent on a TCP flow since the last clear had SYN set and ACK clear, no inbound packet of the flow is admitted, whatever sweeps ran. |
| OneWay.OpeningLetsAnswersIn | crates/ipn-core/src/conntrack.rs:43-69 | A packet of ours with SYN set and ACK clear, or of another protocol, lets its answers in for 120 s, whatever happened before. |
| OneWay.UnparsedIsKeptOut | crates/ipn-core/src/conntrack.rs:61-69 | A packet that is not IPv4 or is cut off is never admitted. |
| OneWay.FlowKeyBytes | crates/ipn-core/src/router.rs:151-175 | The key holds the address, protocol and port bytes of the packet, with ports 0 where TCP or UDP ports are missing. |
| OneWay.OppositeExactlyWhenMirrored | crates/ipn-core/src/router.rs:106-175 | Two packets belong to opposite directions of a flow iff protocol is equal and the address bytes and port bytes are exchanged. |
| OneWay.AdmittedMirrorsOurs | crates/ipn-core/src/conntrack.rs:61-69 | An admitted packet's addresses and ports are those of a packet we sent at most 120 s ago, exchanged. |
| Mesh.MeshTable.Register | crates/ipn-core/src/engine.rs:2934-2990 | The table and the connection to close are those the tie-break verdict names. |
| Mesh.MeshTable.OnClosed | crates/ipn-core/src/engine.rs:3040-3084 | A close watcher evicts the entry iff it still is the watched connection. |
| Mesh.RedialIsKept | crates/ipn-core/src/engine.rs:3103-3105 | A connection registered while nothing is held, or while what is held is known to be closed, is held afterwards and not chosen for closing, whoever dialed either. |
| Mesh.NeverHoldsTheDead | crates/ipn-core/src/engine.rs:2934-2990 | Over every run an end holds, right after a registration, the connection it registered or one that it did not know to be closed. |
| Mesh.HeldWasRegistered | crates/ipn-core/src/engine.rs:2934-2990 | Over every run what an end holds is one of the connections it has registered. |
| Mesh.WinnerIsNeverClosed | crates/ipn-core/src/engine.rs:2934-3114 | In every interleaving at both ends, the connection that wins at both (the last dialed by the lower NodeId or, failing that, the last) is never closed nor chosen for closing, and is held from its registration on. |
| Mesh.RunsAreBounded | crates/ipn-core/src/engine.rs:2934-3084 | Every run has at most a number of steps linear in the registrations and connections. |
| Mesh.SettledOnTheWinner | crates/ipn-core/src/engine.rs:3087-3094 | Once nothing is left to do both ends hold that winner, and every other registered connection is closed at both. |
| Mesh.ConvergesExactlyWhenAgreed | crates/ipn-core/src/engine.rs:3087-3114 | Every run that comes to its end leaves both ends holding the same connection iff the same connection wins at both. |
| Mesh.OppositeOrdersLoseBoth | crates/ipn-core/src/engine.rs:3087-3114 | Two connections of the lower end registered in opposite orders are both lost. |
| Backoff.DialBackoffFilter | crates/ipn-core/src/engine.rs:2518-2527 | Exactly the peers that have no entry or whose wait is over pass. |
| Backoff.Dialer.Tick | crates/ipn-core/src/engine.rs:2183-2211 | A tick starts a dial exactly to the due peers with none in flight, each once. |
| Backoff.Dialer.Outcome | crates/ipn-core/src/engine.rs:2450-2513 | An outcome frees the slot and either clears the entry or records the failure. |
| Backoff.Dialer.RecordDialFailure | crates/ipn-core/src/engine.rs:2529-2542 | One more failure and the wait that goes with it, for this peer only. |
| Backoff.Dialer.ResetDialBackoff | crates/ipn-core/src/engine.rs:2544-2549 | Exactly this peer's entry is gone. |
| Backoff.Dialer.ExpireDialBackoff | crates/ipn-core/src/engine.rs:2551-2561 | Every wait is over and every failure count is kept. |
| Backoff.DelayValues | crates/ipn-core/src/engine.rs:2529-2542 | The waits are 40, 80, 160 seconds and then five minutes for ever, whatever the failure count. |
| Backoff.AlwaysOnSchedule | crates/ipn-core/src/engine.rs:2450-2561 | Over every run of an unreachable peer, starts, failures and table entry stay on schedule. |
| Backoff.DialsAreSpacedOut | crates/ipn-core/src/engine.rs:2450-2561 | The n-th dial to an unreachable peer (n >= 4) starts no earlier than 280 s + (n - 4) * 300 s after the first failure, and two are never in flight. |
| Backoff.NetworkChangeKeepsCount | crates/ipn-core/src/engine.rs:2551-2561 | A network change makes the peer due at once, and the next failure yields the entry it would have yielded without it. |
| Backoff.NetworkChangeKeepsSpacing | crates/ipn-core/src/engine.rs:2551-2561 | Over any run after a network change, a dial that follows a failure starts no sooner than the wait for one failure more than were kept; from three kept on, five minutes. |
| Backoff.FilterKeepsOrder | crates/ipn-core/src/engine.rs:2518-2527 | The filter works peer by peer and keeps the order of the list. |
| DialSchedule.StartsExactlyOnSchedule | crates/ipn-core/src/engine.rs:2183-2561 | After any run of events a tick starts a dial to a peer iff it lists the peer, no dial to it is in flight, and the peer has answered since its last failure or never failed, or the network has changed since, or 40, 80, 160 or 300 s have passed since, by the number of failures in a row. |
| DialSchedule.CleanExactlyWhenAnswered | crates/ipn-core/src/engine.rs:2450-2513 | A peer has no failures against it iff each of its failures was followed by a success or a sign of life. |
| DialSchedule.FailingSinceThen | crates/ipn-core/src/engine.rs:2529-2561 | The last failure no answer followed counts one more than before it, dates the wait, and knows whether the network has changed since. |
| DialSchedule.TableFitsLedger | crates/ipn-core/src/engine.rs:2529-2561 | Over every run the table entry is the one for those failures, the u32 count and the u64 time saturating. |
| DialSchedule.BusyIsDialing | crates/ipn-core/src/engine.rs:2183-2211 | Over every run a slot is taken iff a dial was started that has not ended. |
| PathSelect.Select | crates/ipn-core/src/relays.rs:445-487 | Answers the first path of least key when the current one is unusable or clearly worse, and nothing otherwise. |
| PathSelect.NeverSelectsALoop | crates/ipn-core/src/relays.rs:383-389 | A chosen path never runs through the node's own tunnel. |
| PathSelect.SelectionSettles | crates/ipn-core/src/relays.rs:422-487 | With measurements held fixed a second selection has nothing to say. |
| PathSelect.SwitchesAtMostOnce | crates/ipn-core/src/relays.rs:422-487 | Over any number of selections the path changes at most once and never cycles. |
| PathSelect.InUseIsNearBest | crates/ipn-core/src/relays.rs:391-487 | When some path is usable, the one in use is usable, in the lowest tier, and less than 5 ms behind the best of that tier. |
| PathSelect.DirectPathsFirst | crates/ipn-core/src/relays.rs:391-428 | While a direct path is usable the path in use is direct and less than 8 ms slower than it. |
| PathSelect.OwnRelaysFirst | crates/ipn-core/src/relays.rs:394-410 | While one of the user's relays is usable, no foreign relay is in use. |
| PathSelect.BestExists | crates/ipn-core/src/relays.rs:445-487 | If any path is usable, one is best. |
| PathSelect.LoopedExactlyInOurNetwork | crates/ipn-core/src/relays.rs:364-385 | A path runs through the own tunnel iff its IPv4 address, or the one mapped into its IPv6 address, shares the first three octets with the active network. |
| PathSelect.NothingElseIsLooped | crates/ipn-core/src/relays.rs:364-385 | Relays, custom transports, true IPv6 addresses, and anything while no network is active never do. |
| PathSelect.BestDirectPath | crates/ipn-core/src/relays.rs:412-418 | A best IPv4 path is at least 3 ms faster than any usable IPv6 path, a best IPv6 path at most 3 ms slower than any usable IPv4 path, and neither slower than one of its own family. |
| PathSelect.SwitchesExactlyForAGain | crates/ipn-core/src/relays.rs:422-487 | The current path is given up iff the best one is of a better kind, or of the same kind and at least 5 ms faster with the 3 ms for IPv6 counted in. |
| PathSelect.LeavesAnUnusablePath | crates/ipn-core/src/relays.rs:453-486 | A current path that can no longer be used is given up at once. |
| PathSelect.FirstOfEquals | crates/ipn-core/src/relays.rs:470-472 | Of equally good paths the first listed is taken. |
| RelayMap.RelayConfigs | crates/ipn-core/src/relays.rs:131-163 | Ok with the configs iff every server is well formed; otherwise the error of the first fault. |
| RelayMap.ConfigsDistinct | crates/ipn-core/src/relays.rs:131-163 | Configs of well-formed servers have distinct URLs. |
| RelayMap.AcceptedExactly | crates/ipn-core/src/relays.rs:136-163 | Settings are accepted iff all URLs parse, no two are the same, and every token is non-empty with all characters from 0x21 to 0x7e. |
| RelayMap.FaultMeans | crates/ipn-core/src/relays.rs:139-159 | A server is reported for its URL before its token, and for a duplicate iff an earlier server has the URL. |
| RelayMap.DesiredRelayConfigs | crates/ipn-core/src/relays.rs:170-197 | Ok with the desired relays iff every server is well formed. |
| RelayMap.DesiredFacts | crates/ipn-core/src/relays.rs:170-197 | Desired relays are never empty and have distinct URLs, every custom entry is among them and wins a collision, and the URL set is the one the policy asks for. |
| RelayMap.NeverEmptyMidPass | crates/ipn-core/src/engine.rs:3574-3595 | At no point of an insert-then-remove pass is the live map empty. |
| RelayMap.PassReachesDesired | crates/ipn-core/src/engine.rs:1469-1529 | A full pass turns the map of the old settings into exactly the map of the new ones, tokens included, and repeating it changes nothing. |
| RelayMap.RebindExactlyWhenUnsafe | crates/ipn-core/src/relays.rs:201-228 | The token test asks for a rebind iff some connection that may be running would be left with an outdated token. |
| RelayMap.BootHasCustom | crates/ipn-core/src/relays.rs:170-197 | The map of the settings holds every custom relay with its own token. |
| RelayMap.BootIsNotEmpty | crates/ipn-core/src/node.rs:108-126 | The map bound at startup is not empty, whatever settings are on disk. |
| RelayMap.Endpoint.constructor | crates/ipn-core/src/node.rs:108-126 | Startup establishes that the live map and the preferred set are those of the saved settings, with no outdated connection. |
| RelayMap.Endpoint.StartRelayConnection | crates/ipn-core/src/relays.rs:201-215 | A connection that is not running yet starts with the token the live map has for its relay, or with none; no connection is left with an outdated token. |
| RelayMap.Endpoint.EndRelayConnection | crates/ipn-core/src/relays.rs:201-215 | Nor does the end of a connection. |
| RelayMap.Endpoint.ChangeMap | crates/ipn-core/src/engine.rs:1512-1525 | Either way of bringing a change about ends with the desired map and no outdated connection; connections are dropped only by a rebind. |
| RelayMap.Endpoint.SetRelaySettings | crates/ipn-core/src/engine.rs:1469-1529 | Valid settings end saved with exactly the desired map live and no running connection on an outdated token; invalid ones change nothing. |
| RelayMap.Endpoint.ApplyRelayMap | crates/ipn-core/src/engine.rs:3550-3605 | A pass leaves the old map with the desired entries written over it and the stale URLs gone; it returns the maps it went through, one call apart, none of them empty. |
| RelayMap.Endpoint.RemoveStale | crates/ipn-core/src/engine.rs:3587-3595 | The removals take out the stale URLs and no others, with no empty map on the way. |
| RelayMap.BuildMap | crates/ipn-core/src/node.rs:115-120 | The map of a config list, later entries winning. |
| Sas.TranscriptIdentifiesThePairs | crates/ipn-core/src/admission.rs:106-118 | Transcripts are equal iff the unordered id pairs and the unordered nonce pairs are. |
| Sas.LexTotal | crates/ipn-core/src/admission.rs:109-110 | The byte order the transcript sorts by is total and antisymmetric. |
| Sas.LexIsFirstDifference | crates/ipn-core/src/admission.rs:109-110 | That order is decided by the first byte that differs, a prefix coming first. |
| Sas.TranscriptLayout | crates/ipn-core/src/admission.rs:106-118 | The transcript is the domain, the two ids in order, then the two nonces in order. |
| Sas.DomainIsText | crates/ipn-core/src/admission.rs:28 | The domain bytes spell the protocol's name. |
| Sas.SasIndices | crates/ipn-core/src/admission.rs:126-149 | The k-th of seven indices is bits 6k to 6k+5 of the MAC, below 64; six bytes of MAC are enough. |
| Sas.Extract | crates/ipn-core/src/admission.rs:137-146 | The six bits wanted are still in the u32 accumulator, whatever its shift dropped. |
| Sas.BigEndianIsBits | crates/ipn-core/src/admission.rs:139-143 | Shifting bytes in reads the bit string big-endian. |
| Sas.SasComparesFirstBits | crates/ipn-core/src/admission.rs:126-149 | Two index sequences agree iff the first 42 bits of the MACs agree. |
| Presence.PresenceTracker.constructor | crates/ipn-core/src/presence.rs:241-246 | A new tracker knows no peer. |
| Presence.PresenceTracker.RecordHeartbeat | crates/ipn-core/src/presence.rs:252-288 | Updates only this peer, ignores older times, and returns false iff nothing but the time of a known peer moved, by at most ten minutes. |
| Presence.PresenceTracker.SetLastSeen | crates/ipn-core/src/presence.rs:290-297 | Raises this peer's time to at least the seed, never lowers it, and changes nothing else. |
| Presence.PresenceTracker.RecordConnection | crates/ipn-core/src/presence.rs:299-330 | Updates only this peer, and returns true iff something other than the observed address changed. |
| Presence.NewestWins | crates/ipn-core/src/presence.rs:252-288 | After any run of heartbeats and observations a peer's profile is that of a newest accepted heartbeat, or untouched if all were stale. |
| Presence.OrderMattersOnlyForTies | crates/ipn-core/src/presence.rs:252-288 | Every delivery order ends with the same time, hostname and flags iff the newest heartbeats agree on them. |
| Presence.DistinctTimesCommute | crates/ipn-core/src/presence.rs:252-288 | With no two different heartbeats at one time, every delivery order ends the same. |
| Presence.OnlineIsLastObserved | crates/ipn-core/src/presence.rs:299-330 | Over every run whether a peer is online, and directly, is what its last observation said. |
| Presence.LocalAddressIsLastObserved | crates/ipn-core/src/presence.rs:321-324 | The local address is the last one observed; an observation without one keeps it. |
| Presence.SeenAtIsLastObserved | crates/ipn-core/src/presence.rs:318-320 | So is the address the peer was seen at. |
| Presence.NothingElseChanges | crates/ipn-core/src/presence.rs:252-330 | Location, virtual address and all other peers stay as they were. |
| Presence.UnknownIsBlank | crates/ipn-core/src/presence.rs:269 | A peer nothing is known of has no name, no address, no time and is not online. |
| PresenceAddress.EndsOnPossible | crates/ipn-core/src/presence.rs:252-330 | Every run leaves a peer with one of its possible public addresses: an observed one, that of a heartbeat that can speak last, or, if none must replace it, the one it had. |
| PresenceAddress.PossibleExactlyWhenReached | crates/ipn-core/src/presence.rs:252-330 | An address is possible iff some delivery order of the events ends with it. |
| PresenceAddress.AddressOrderMattersOnlyForChoices | crates/ipn-core/src/presence.rs:252-330 | Every delivery order ends with the same public address iff only one is possible. |
| PresenceAddress.PublicAddressDependsOnOrder | crates/ipn-core/src/presence.rs:282-286 | A concrete choice: two orders of two heartbeats that end with different addresses. |
| Actions.Tokenize | crates/ipn-gui/src/actions.rs:270-298 | The character loop yields the words of the command line as a recursive grammar defines them. |
| Actions.WordsLoseNothing | crates/ipn-gui/src/actions.rs:266-298 | Joined up, the words are the input minus quotes and unquoted whitespace. |
| Actions.QuotingRoundTrips | crates/ipn-gui/src/actions.rs:266-298 | Wrapping arguments in quotes and splitting gives them back iff none contains a double quote, empty ones included. |
| Actions.NoWordsInBlanks | crates/ipn-gui/src/actions.rs:327-330 | There is no command to run iff the line is blank. |
| Actions.SplitsAtBlanks | crates/ipn-gui/src/actions.rs:282-287 | A blank outside quotes separates: the words are those of the text before it and those of the text after it. |
| Actions.NoBlankIsOneWord | crates/ipn-gui/src/actions.rs:276-297 | A non-empty text without blanks is one word, its quotes taken away. |
| Actions.BlanksAre | crates/ipn-gui/src/actions.rs:282 | Blanks are the 25 code points of the White_Space property. |
| Actions.LaunchIs | crates/ipn-gui/src/actions.rs:326-338 | A launch comes to nothing iff the command is blank; otherwise it is a refusal naming the member, or one argument per word with the details filled in. |
| Actions.ExpandAll | crates/ipn-gui/src/actions.rs:337-338 | Substitution happens word by word, so it never adds or removes an argument. |
| Placeholders.FillingIsSimultaneous | crates/ipn-gui/src/actions.rs:308-315 | For any token and values: if at no stage anything but the token's own placeholders begins the next mark, filling in one after the other equals filling in all at once. |
| Placeholders.SimultaneousExactlyWhenNothingJoins | crates/ipn-gui/src/actions.rs:308-315 | For any token, and values without opening braces: the two are equal iff nothing joins at any stage. |
| Placeholders.NoStrayBraceIsEnough | crates/ipn-gui/src/actions.rs:308-315 | In particular when every opening brace of the token begins a placeholder. |
| Placeholders.ReplaceKeepsOthers | crates/ipn-gui/src/actions.rs:310-314 | Replacing one placeholder never costs an occurrence of another. |
| Placeholders.StrayBracesJoin | crates/ipn-gui/src/actions.rs:308-315 | A concrete token and name where filling in all at once writes a placeholder that the replacements then fill in. |
| Placeholders.WhatPlaceholdersBecome | crates/ipn-gui/src/actions.rs:300-315 | A lone placeholder becomes the address or nothing; the given name, else the host name, else eight characters of the id; the host name or nothing; the id. |
| Actions.WordsContain | crates/ipn-gui/src/actions.rs:266-298 | Some word contains a given blank-free, quote-free text iff the line without its quotes does. |
| Actions.RefusedExactlyWhenNeeded | crates/ipn-gui/src/actions.rs:331-335 | A launch is refused for lack of an address exactly when some word asks for one, iff there is an address or a placeholder in the line without quotes is also in the line. |
| Actions.QuoteFreeIsEnough | crates/ipn-gui/src/actions.rs:331-335 | So for every command without quotes. |
| Actions.RefusalsAreNeeded | crates/ipn-gui/src/actions.rs:331-335 | Quotes or not, a refusal means that some word asks for an address. |
| Actions.QuotesHideAPlaceholder | crates/ipn-gui/src/actions.rs:331-335 | A quoted placeholder passes the check and is launched with the address missing. |
| Actions.ScriptFor | crates/ipn-gui/src/actions.rs:463-473 | The script is the interpreter line followed by the quoted arguments on one line. |
| Actions.ScriptRunsTheArguments | crates/ipn-gui/src/actions.rs:447-473 | Read back by the POSIX rules for single quotes and backslashes, the script line is exactly the argument list, whatever characters it holds. |

## Left out

- Signature verification, the content hash and the clock are parameters of the roster (`Outside`). Hash collisions among the authentic entries of a bag are excluded by hypothesis (`CollisionFree`); ids and nonces are natural numbers.
- `membership::load_entries`: the cap of 50,000 entries and blobs not yet synced. All entries are taken to be at hand; above the cap the set of entries depends on who loads them.
- Rosters of more than 253 members: the probe gives up and addresses may collide. `Addressing.Probe` covers giving up; the theorems about distinct addresses are for at most 253 members.
- RosterAddresses.AdmissionOutcome: speaks of an admission that sorts last and of a device that is not yet a member; concurrent admissions meet only in the fold.
- RosterRules.CheckInvitePredictsTheFold: likewise for a last admission of a new device; a re-admission can also be turned down because the approver was admitted after it.
- Timestamps are unbounded naturals in `Roster`, `Conntrack` and `Presence`, which only compare and subtract them; in `Backoff` additions saturate as u64 does.
- Packets.RecomputeTcpChecksum: promises a valid checksum up to 65535 bytes, the most IPv4 can carry; beyond that the u32 accumulator can wrap, and the contract says only which bytes change.
- Locks and threads of `Conntrack` and the data plane: each call is one step.
- Connections lost for outside reasons, presence updates and the inbound pump in `register_mesh`. In the two-end model each connection object is registered once at an end.
- Backoff.DialsAreSpacedOut: taking the filter and starting the dials is one step, and a dial's outcome and the release of its slot are one step; the 20 s timeout appears only as the base of the wait.
- Overlapping relay edits, call timeouts and retries, and `settle_home_relay`: a settings change runs to its end before the next. A rebind is one step that binds the desired map.
- The networking library behind the relays: a running relay connection keeps the token it was started with, as `relays.rs:201-215` describes; connections start and end between settings changes.
- URL parsing and the list of public relays are parameters of `RelayMap`; the list is taken to be non-empty without repeats.
- In `PathSelect`, ports and local addresses of a path are one opaque number, and RTTs are whole nanoseconds.
- HMAC, the emoji tables and the network exchange of the admission handshake; the MAC is an input of `Sas.SasIndices`.
- Presence.OrderMattersOnlyForTies: the public address is treated apart, in `PresenceAddress`; last-seen seeds are part of the initial state.
- `set_virtual_ip`, `set_location` and the signing of heartbeats in `presence.rs`.
- Placeholders.SimultaneousExactlyWhenNothingJoins: values with an opening brace can agree by accident even when something joins; for them only the sufficient half, `Placeholders.FillingIsSimultaneous`, is claimed.
- Spawning a process, terminal emulators and the script file.
- Ticket, recovery and roster codecs, the iroh endpoint, gossip, DNS, TUN devices, persistence, services and user interfaces: libraries, I/O or platform plumbing.
- The small flag machines for resume, notification debounce and pace switching, and IPC framing.

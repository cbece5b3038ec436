# UnityLAN, modelled and proved

UnityLAN is a mesh VPN whose trust follows Discord membership. A coordinator allocates mesh addresses and names, signs
attestations per guild, publishes ACME challenges and tells clients who their peers are; an engine on each device
verifies what it is told, resolves names and chooses routes. Its correctness rests on a dozen small state machines
and algorithms whose promises range over whole runs. This project models each of them as its own module and proves
those promises for every input and every run.

| file | models |
|---|---|
| `Flight.dfy`, `MemberCache.dfy` | the single-flight gate as an interleaving transition system, and the cache behind it |
| `Membership.dfy` | presence, scoped version counters and the long-poll tag |
| `Rotation.dfy` | trust-anchor walk, two-step rotation with a crash point, client pin |
| `Addressing.dfy`, `Names.dfy` | address arithmetic, device names, sanitised labels, user labels |
| `DeviceStore.dfy`, `DeviceRaces.dfy` | the device tables over runs of whole operations; enrolments and renames over interleaved statements |
| `Enrollment.dfy` | one-time keys over interleaved statements |
| `BeaconCodec.dfy`, `Beacon.dfy`, `BeaconRuns.dfy` | LAN datagrams, LAN adoption under arbitrary datagrams, and what whole runs of it do |
| `Challenges.dfy`, `Limiter.dfy` | sliding issuance budgets and the windowed request counter |
| `ServiceNames.dfy`, `MeshZone.dfy` | which service claim wins a name, and the resolver's zone |
| `SignCache.dfy`, `DeltaSync.dfy` | cached attestations against fresh signing; delta sync against a full snapshot |
| `Prelude.dfy` | options, results, the saturating clock difference, the pigeonhole principle |

Conventions. A transition function or step relation says what one operation does; code that updates state in place is
a class whose methods are proved against that function; runs are sequences of steps, or sequences of states.
Signatures, MACs and hashes are ideal: a signature verifies under the one key that made it, and a digest is its
content. Clock readings, random draws, other tasks' commits, crashes and received datagrams are parameters, so every
theorem holds for all of them. A `HashMap` iteration order is an arbitrary choice, an SQL table a map keyed by its
primary key.

## Where the code and what is said of it differ

- A rotation interrupted between its two steps leaves a cert that the comment at `crates/coordinator/src/rotate.rs:25-26`
  calls harmless. It is, until the next completed rotation by the same key: the walk takes the first cert that key
  signed, so clients pinned to it are refused from then on (`RepinExactly`, `DanglingCertStrandsClients`).
- The snapshot reads its members before the tag it is served with (`crates/coordinator/src/api/snapshot.rs:168-219`). A
  change that is recorded and bumped between the two reads is not in the snapshot although the tag already counts it,
  so the client stays parked on stale members (`TagReadLastExactly`); reading the tag first would be safe
  (`TagReadFirstIsSound`).
- The clean-up check of the single-flight gate reads the reference count before the caller's own clone is dropped, and
  a cancelled caller never makes it, so a drained gate can stay in the map (`OnlyLiveGatesExactly`,
  `DrainedGateCanStay`), until somebody asks for its key again (`DrainedGateStaysExactly`). It never does while callers of
  the key come one at a time and are not cancelled (`SerialCallersLeaveNoGate`). Nothing else depends on its removal.
- Revoking forgets the cached membership so that the next register asks Discord again
  (`crates/coordinator/src/commands.rs:132-142`). A fetch already in flight is not stopped: it stores its earlier answer
  afterwards, and even callers that come later are told it. Everybody after the forgetting is sent to a fetch begun after
  it exactly if no fetch of that key was in flight (`ForgetExactly`, `ForgottenAnswerComesBack`).
- The request counter never compares a source's first request in a window with its per-source cap, so a cap of zero
  admits one (`DocumentedSourceBoundExactly`).
- A sanitised label can end in a dash: the cap is applied after trimming (`SanitizedIsLabel`, `CutLeavesDash`).
- The last-resort user label `user-<id>` need not be free; it is what a user of that name is given first
  (`FallbackIsAnOrdinaryLabel`). Thirty-three users can register, each under the label its own name is given first, so
  that nothing is left for another (`RivalsTakeAll`); then its allocation fails rather than duplicates
  (`LabelsRunOut`, `UserLabel`).
- Re-posting a live challenge value does not move it to the back, so new values in the same order may evict it; when
  exactly is `RecordLiveExactly`, for any order, and `PairLiveExactly` for the two values of a device's own name. Five
  orders of one device, its whole week's budget, get there from the empty store (`RepostedValueLost`). A third value at
  one name is possible, since renaming a device never consults service labels, and can evict what the first two leave
  (`ThirdValueLost`). A value new to its name stays as long as no more than seven others for that name follow it
  (`NewValuesStay`).
- For the same reason a registered label need not stay distinct from its owner's device names: `set_device_services`
  refuses the one order of events, nothing the other. An operation breaks it exactly if the first name free for its
  device is a label registered already (`LabelsClearExactly`, `LabelTakenByRename`).
- Enrolling and renaming read the device table before they write it, and the schema keeps only keys and indices unique
  (`crates/coordinator/src/store.rs:187-195`). Addresses therefore stay distinct in every interleaving
  (`IndicesStaySound`), but two overlapping enrolments of one user can end with one name or pass the cap of 32. A name is
  duplicated exactly if another request gave it to a device of the user since the names were read
  (`NamesOvertakenExactly`, `NamesSurviveExactly`, `TwoEnrolmentsOneName`), and never while requests for one user or one
  key do not overlap (`NamesStayApart`). The cap is passed exactly if the devices counted and those that arrived since,
  less those that left, reach it (`CapSurvivesExactly`); with at most `m` enrolments of a user in flight the most devices
  are 31 + m, no more and no fewer (`FleetBound`, `FleetBoundIsMet`).
- A LAN candidate that lapses for one iteration ends a revert cooldown early, once the peer is heard from and answers a
  new probe (`CooldownLastsExactly`, `LapsedCandidateForgetsCooldown`); the old ack has aged out by then
  (`LapsedHasNoFreshAck`).
- A probe's answer is recognised by its nonce, whichever address it comes from, so a routed address need not be one that
  was probed. It is, as long as acks come from where their probes went (`DirectAcksRouteProbed`,
  `UnprobedAckRoutesExactly`, `UnprobedAddressRouted`).
- A key seeded again between the two statements of an enrollment enrolls the device for the owner read before, who is
  then the wrong one exactly if the last seeding names somebody else (`ToldOwnerExactly`, `ReseedCanMoveTheOwner`). Within
  one process this cannot happen: `/unitylan enroll` mints a random key each time
  (`crates/coordinator/src/commands.rs:258-268`) and configured keys are seeded before the server starts
  (`crates/coordinator/src/main.rs:160-163`); it takes a second process on the same database.
- A service exposed on tcp and on udp under one label is two claims of one device on one name, and the second of them is
  reported as shadowed although nobody else claims the name (`OneNameOnTwoProtocols`). The shadowed set is exactly the
  losing claims if and only if no winning name is claimed more than once by its device (`ShadowedAreLosersExactly`).
- A peer-direct pull brings a newer name without its revision. If the name then reverts, a delta leaves the abandoned
  name in place until the next full refresh (`DeltaAgreesExactly`, `RevertedNameExample`).

## Model

| member | source | states |
|---|---|---|
| Flight.CountIsTwoWhenAlone | crates/coordinator/src/discord.rs:150-160 | a caller that finds the gate's reference count at two is the only caller left holding it, and conversely |
| Flight.NextKeepsInv | crates/coordinator/src/discord.rs:129-162 | every step, including cancellation at either await and loss of a cache entry, keeps: callers still using a gate own the one the map holds for their key; a locked gate has exactly one caller inside; only cache misses fetch |
| Flight.AtMostOneFetch | crates/coordinator/src/discord.rs:105-116 | in every interleaving from an empty state at most one fetch per key is in flight |
| Flight.RemovalOnlyWhenAlone | crates/coordinator/src/discord.rs:150-161 | in every reachable state a mapped gate leaves the map exactly by the clean-up of its one and only owner, and otherwise its key keeps that very gate |
| Flight.WaitersCanBeServed | crates/coordinator/src/discord.rs:135-149 | no reachable state blocks a waiting caller: the gate is free, or its holder has a step of its own |
| Flight.CancelledKeepsNothing | crates/coordinator/src/discord.rs:135-149 | in every reachable state a caller waiting for its gate or its fetch can be dropped and then keeps nothing: whoever else waits can enter a gate exactly if nobody is inside |
| Flight.FetchesBalance | crates/coordinator/src/discord.rs:129-149 | along any run, with entries expired or forgotten at any time, successful fetches of a key and losses of its entry balance to whether it is cached |
| Flight.SuccessesBound | crates/coordinator/src/discord.rs:105-116 | from a cold start a key is fetched successfully at most once more than its entry was lost |
| Flight.QueuedCallersShareTheFetch | crates/coordinator/src/discord.rs:136-149 | while the key's entry is not lost, once a key is cached no fetch for it is in flight or succeeds, and every answer not from a failed fetch is the cached one |
| Flight.WaitersGetTheCachedAnswer | crates/coordinator/src/discord.rs:129-149 | every caller that has not entered its fetch when the key is cached, waiting for the gate or yet to come, is answered with the cached value as a hit, never with a failure, unless cancelled |
| Flight.ForgetExactly | crates/coordinator/src/discord.rs:342-347 | in any reachable state, forgetting a key sends every caller not answered yet to a fetch begun afterwards, over every run that follows, exactly if no fetch of that key is in flight; otherwise even a caller that comes later can be told the older answer |
| Flight.ForgottenAnswerComesBack | crates/coordinator/src/commands.rs:132-142 | a run from the empty state in which a caller that comes after the forgetting is told, as a hit, what a fetch begun before it brought |
| Flight.OnlyLiveGatesExactly | crates/coordinator/src/discord.rs:150-161 | a step keeps "every mapped gate has an owner" exactly unless it is the last owner dropping or being cancelled while the gate is mapped |
| Flight.DrainedGateStaysExactly | crates/coordinator/src/discord.rs:150-161 | over any run a key ends with a gate nobody owns exactly if some step took the last caller away from it while it was mapped and nobody asked for it again |
| Flight.SerialCallersLeaveNoGate | crates/coordinator/src/discord.rs:150-161 | a key whose callers come one at a time and are not cancelled has no gate once they are done |
| Flight.DrainedGateCanStay | crates/coordinator/src/discord.rs:150-161 | a run after which all callers are done and their gate is still in the map |
| MemberCache.RecordFollows | crates/coordinator/src/discord.rs:241-255 | storing or forgetting keeps the map equal to the last record of each key, less those expired when it was last swept |
| MemberCache.SweepFollows | crates/coordinator/src/discord.rs:248-254 | sweeping drops exactly the entries expired by then |
| MemberCache.Cache.Cached | crates/coordinator/src/discord.rs:231-238 | a lookup answers the last thing recorded for the key if still fresh for its kind, and misses otherwise, however often the map was swept |
| MemberCache.Cache.Store | crates/coordinator/src/discord.rs:241-255 | the history gains this record, the map still follows it with the sweeps due, and every entry left is under half an hour old |
| MemberCache.Cache.Forget | crates/coordinator/src/discord.rs:342-347 | the next lookup misses until something is stored again |
| MemberCache.AnswersExactly | crates/coordinator/src/discord.rs:33-63 | a lookup is answered exactly if the last thing recorded about that user is under 30 seconds old for a member, or under the long-poll hold of 900 for an absence |
| MemberCache.MapHoldsRecent | crates/coordinator/src/discord.rs:241-255 | right after a store the map holds no record older than half an hour, and every one that still answers |
| Membership.ReportsExactly | crates/coordinator/src/presence.rs:40-58 | every mutator reports a scope exactly when it changes what the scope shows, so an identical re-record wakes nobody |
| Membership.EvictionShows | crates/coordinator/src/presence.rs:196-201 | comparing table sizes tells exactly whether the user had a device in the network |
| Membership.ListsFollowView | crates/coordinator/src/presence.rs:132-140 | what a snapshot lists for a scope depends only on what the scope shows |
| Membership.ListedExactly | crates/coordinator/src/presence.rs:132-217 | after any run a network lists exactly the devices present in that very network but the caller's, a user exactly that user's other devices |
| Membership.RecordedLastsExactly | crates/coordinator/src/presence.rs:78-170 | a device recorded, whatever was there before, stays through a run exactly if nothing evicts it and no reap comes later than its age counted from this record allows |
| Membership.RecordedSelfLastsExactly | crates/coordinator/src/presence.rs:110-170 | the same for the owner's own devices |
| Membership.StillCounter | crates/coordinator/src/versions.rs:62-71 | counters never go back, and while one stands still and owes nothing its scope shows what it showed all along |
| Membership.CountersCountBatches | crates/coordinator/src/versions.rs:62-71 | over any run a scope's counter moves by the batches that bumped it, the deployment's by the batches that were not empty |
| Membership.SameTagSameMembers | crates/coordinator/src/versions.rs:85-95 | tag soundness over any run: equal tags with no bump owed mean equal scope sets and identical members and own devices |
| Membership.TagMovesOnlyOnItsBumps | crates/coordinator/src/versions.rs:62-95 | a tag changes over a run exactly when one of its own scopes is bumped |
| Membership.TagReadFirstIsSound | crates/coordinator/src/api/snapshot.rs:168-219 | reading the tag before the members would make every served pair safe, whatever happens in between |
| Membership.TagReadLastExactly | crates/coordinator/src/api/snapshot.rs:168-219 | with the tag read last, a current tag vouches for the members served exactly when they had not changed before it was read |
| Membership.TagReadLastCanServeStaleMembers | crates/coordinator/src/api/snapshot.rs:168-219 | a run in which a bumped join between the two reads is missed |
| Membership.Presence.Record | crates/coordinator/src/presence.rs:78-93 | replaces the device's entry and returns true exactly if the guild shows something else |
| Membership.Presence.RecordSelf | crates/coordinator/src/presence.rs:110-118 | the same for the owner's own devices |
| Membership.Presence.Evict | crates/coordinator/src/presence.rs:186-192 | drops one entry and returns true exactly if the guild shows something else |
| Membership.Presence.EvictSelf | crates/coordinator/src/presence.rs:122-128 | the same for the owner's own devices |
| Membership.Presence.EvictUser | crates/coordinator/src/presence.rs:196-201 | drops all the user's devices in the network and returns true exactly if the guild shows something else |
| Membership.Presence.Reap | crates/coordinator/src/presence.rs:148-170 | drops exactly the stale entries of both tables and returns exactly the scopes that lost someone |
| Membership.Versions.BumpAll | crates/coordinator/src/versions.rs:62-71 | each given scope's counter moves by one, the global one once per non-empty batch |
| Membership.Revoke | crates/coordinator/src/commands.rs:132-165 | the cached membership is forgotten first, so its next lookup misses; the user's devices leave exactly the registered networks of the guild whose role is no longer held; and the guild is bumped once exactly if its view changed |
| Membership.ReaperTick | crates/coordinator/src/main.rs:360-372 | a tick moves the counters of exactly the scopes that lost someone |
| Rotation.Advance | crates/common/src/rotation.rs:70-79 | the next anchor is the one named by the first cert the current key signed for itself |
| Rotation.WalkChain | crates/common/src/rotation.rs:46-65 | returns true exactly when the chain is within the cap and the target is reachable in any number of hops |
| Rotation.ShortWay | crates/common/src/rotation.rs:46-65 | pigeonhole: a reachable target is reached within as many hops as there are certs, whatever the cycles and junk |
| Rotation.ReachMeansSignedPath | crates/common/src/rotation.rs:40-65 | whatever is reached lies at the end of a path of certs each signed by its predecessor |
| Rotation.OnlyKeysLeadOn | crates/common/src/rotation.rs:46-65 | an anchor that is no key vouches for nobody: the walk ends there, whatever the certs say |
| Rotation.DecodedExactly | crates/engine/src/keys.rs:90-95 | of the certs served, exactly the decodable ones make up the chain, in order |
| Rotation.EncodedDecodes | crates/engine/src/keys.rs:90-95 | a chain as the coordinator serves it decodes to itself |
| Rotation.JunkChangesNothing | crates/engine/src/keys.rs:90-95 | an undecodable cert served anywhere among the others changes nothing |
| Rotation.PinFile.PinAnchor | crates/engine/src/keys.rs:70-106 | on first sight any anchor is pinned; a corrupt pin file refuses everything; a pinned client takes an anchor exactly if it is the pinned one or the decodable certs served form a chain within the cap that leads to it; otherwise the pin stands |
| Rotation.PinStaysTrusted | crates/engine/src/keys.rs:62-106 | no series of responses, junk certs included, moves a pin out of a set of keys that sign only for each other |
| Rotation.GuildKeyStore.RotateKey | crates/coordinator/src/rotate.rs:14-32 | appends a cert by the old key, then swaps the seed; a crash between leaves the old key with a dangling cert |
| Rotation.WalkFollowsHistory | crates/coordinator/src/rotate.rs:14-32 | the first key reaches the current one over the issued certs exactly if no completed rotation follows a crashed one |
| Rotation.RepinExactly | crates/engine/src/keys.rs:70-106 | a client pinned at any anchor that was ever current takes the current one, over the certs as served with any junk among them, exactly when that anchor is still current, or the chain is within the cap and no rotation followed a crash since |
| Rotation.CrashFreeRepins | crates/coordinator/src/rotate.rs:5-32 | over every crash-free history of at most 64 rotations every once-current pin takes the current anchor, whatever junk is served among the certs |
| Rotation.DanglingCertStrandsClients | crates/coordinator/src/rotate.rs:25-30 | after a crash and one more rotation the old pin is refused although its key signed for the new anchor |
| Addressing.ContainsMeansSamePrefix | crates/common/src/netid.rs:56-58 | the run from network to broadcast address is the set of addresses sharing the prefix bits |
| Addressing.OverlapMeansShared | crates/common/src/netid.rs:56-58 | the two-sided test holds exactly when some address lies in both networks, and then the finer one lies wholly inside the coarser |
| Addressing.AddressesAreDistinct | crates/common/src/netid.rs:78-87 | valid indices give distinct addresses inside the network, never its network or broadcast address |
| Addressing.AddressableExactly | crates/common/src/netid.rs:78-87 | an address is some index's exactly if it lies in the network and is neither its first nor its last |
| Addressing.DeviceHint | crates/common/src/netid.rs:63-70 | the hint is a valid index whenever there is one |
| Addressing.PickFreeIndex | crates/common/src/netid.rs:91-104 | None exactly when every allocatable index is taken; otherwise the first free one in wrap order from the clamped hint |
| Addressing.FirstFreeExactly | crates/common/src/netid.rs:91-104 | the first free index is the lowest free one from the hint up, or the lowest of all if there is none; a hint past the last index counts as the last |
| Addressing.AcceptedRangesArePrivate | crates/coordinator/src/main.rs:56-77 | a mesh range is accepted exactly when its prefix is 8 to 30 and every address in it lies in section 3 of RFC 1918 or section 7 of RFC 6598 space |
| Names.SuffixedInjective | crates/coordinator/src/store.rs:38-45 | trimming the stem never makes two numbered candidates equal, even of different names |
| Names.SuffixedExactly | crates/coordinator/src/store.rs:38-45 | a numbered candidate is the longest prefix of the name that fits 63 characters with the dash and the digits, and the digits read back as the number, without leading zeros |
| Names.FreeSuffixExists | crates/coordinator/src/store.rs:696-711 | among the suffixes 2 to taken + 2 one is free |
| Names.UniqueDeviceName | crates/coordinator/src/store.rs:675-711 | returns the name itself if free and else the lowest free suffix from 2, never reaching its unreachable arm, and at most 63 characters if the seed is and the number of names in the way plus two has at most 62 digits |
| Names.FirstFreeIsEarly | crates/coordinator/src/store.rs:692-711 | the first free candidate is among the first taken + 2 |
| Names.SanitizedIsLabel | crates/common/src/netid.rs:107-128 | 1 to 63 characters, letters, digits and single inner dashes; it ends in a dash exactly when the cut falls behind one |
| Names.SanitizedTwice | crates/common/src/netid.rs:107-128 | sanitising is idempotent exactly on labels that do not end in a dash |
| Names.CutLeavesDash | crates/common/src/netid.rs:120-127 | an input whose sanitised form ends in a dash |
| Names.SanitizedIsItsWords | crates/common/src/netid.rs:107-128 | a sanitised label is the words of the text, its longest runs of letters and digits, in lower case and joined by single dashes, or `device` if it has none; cut after 63 characters |
| Names.SanitizeLabel | crates/common/src/netid.rs:107-128 | the character loop, trim and cut compute the sanitised form |
| Names.CommittedIsSound | crates/coordinator/src/store.rs:219-222 | any interleaving of inserts keeps labels unique and every allocated label unchanged |
| Names.UserLabels.UserLabel | crates/coordinator/src/store.rs:730-770 | with other tasks committing before every insert and between a failed insert and the lookup after it: labels stay unique and stable and the one returned is the user's; without interference it is the sanitised name if free, else the lowest free suffix from 2 to 32, else `user-<id>`, and an error exactly when all 33 are taken |
| Names.FallbackIsAnOrdinaryLabel | crates/coordinator/src/store.rs:760-769 | the fallback is the first candidate of any user whose name is `user-<id>` |
| Names.CandidatesAreOrdinary | crates/coordinator/src/store.rs:734-769 | every one of a user's 33 candidates is the label some name is given first, for seeds that leave room for a suffix and do not end in a dash |
| Names.RivalsTakeAll | crates/coordinator/src/store.rs:730-770 | from no labels at all, 33 registrations of other users, each of the label its own name is given first, leave a user none of its candidates |
| Names.LabelsRunOut | crates/coordinator/src/store.rs:760-770 | after them that user's allocation, run with nobody interfering, fails |
| DeviceStore.AcceptedExactly | crates/coordinator/src/store.rs:937-1011 | only valid, unclaimed labels are registered, at most eight; a claimable one is refused only once eight are; every label is registered or refused |
| DeviceStore.RefusedExactly | crates/coordinator/src/store.rs:955-990 | every refusal is of a label asked for, with the first cause that applies at its turn: unusable, a device of the owner has the name, another device of the owner serves it, eight accepted before |
| DeviceStore.ClaimableExactly | crates/coordinator/src/store.rs:943-975 | only this owner's devices and registrations stand in a label's way |
| DeviceStore.ValidLabelExactly | crates/common/src/service.rs:29-43 | a text without a double dash is a usable label exactly if it is its own sanitised form, at most 24 characters and not a number |
| DeviceStore.DoubleDashExactly | crates/common/src/service.rs:29-43 | a double dash is as good as a single one as long as the label fits |
| DeviceStore.StepKeepsInv | crates/coordinator/src/store.rs:599-1053 | every operation keeps indices valid and distinct, names distinct per owner, fleets within 32, primaries and labels on live devices of their owner |
| DeviceStore.RunKeepsInv | crates/coordinator/src/store.rs:599-1053 | so does every run of operations; and names stay within 63 characters over it as long as their seeds do |
| DeviceStore.AddressIsStable | crates/coordinator/src/store.rs:607-625 | a device keeps its address and owner over any run in which it is not removed |
| DeviceStore.RenamesExactly | crates/coordinator/src/store.rs:847-860 | a renamed device gets the name asked for exactly if no other device of its owner has it, and nothing else changes |
| DeviceStore.AllocatesExactly | crates/coordinator/src/store.rs:599-666 | a new device is refused exactly if its owner has 32 or no address is unused; it gets the name asked for exactly if no device of its owner has it, and the hinted address exactly if no device of anybody has it |
| DeviceStore.NoSharedAddressOrName | crates/coordinator/src/store.rs:599-666 | in no reachable state do two devices share a mesh address, or one owner's a name |
| DeviceStore.PrimaryOutlivesDevices | crates/coordinator/src/store.rs:863-897 | removal clears a primary exactly when the removed device was the owner's last |
| DeviceStore.PrimaryExactly | crates/coordinator/src/store.rs:863-1053 | over any run, once a device was elected and until the next election, its user has a primary exactly while it has always had a device since |
| DeviceStore.ElectedStays | crates/coordinator/src/store.rs:1030-1053 | the one elected stays the primary until it is removed or another is elected; a first device is elected only where there is none |
| DeviceStore.ServicesTakeNothing | crates/coordinator/src/store.rs:937-1011 | whatever labels are requested, every sibling keeps its own and this device ends up with exactly the accepted ones |
| DeviceStore.LabelsClearExactly | crates/coordinator/src/store.rs:937-1011 | an operation keeps registered labels apart from their owner's device names exactly unless it is an enrolment or a rename, and the first free name it will choose, computed from the state before, is one of the user's labels |
| DeviceStore.LabelTakenByRename | crates/coordinator/src/store.rs:847-860 | a run from the empty store that ends with a device named as the label it serves |
| DeviceStore.StepKeepsNamesShort | crates/coordinator/src/store.rs:675-711 | with fleets of at most 32 no operation seeded with at most 63 characters stores a longer name |
| DeviceStore.Store.AllocateDevice | crates/coordinator/src/store.rs:599-666 | a known key gets its stored address back; a new one the first free index in probing order from its hint and the first free name; each error exactly when stale, over the cap, or full |
| DeviceStore.Store.RenameDevice | crates/coordinator/src/store.rs:847-860 | the device takes the first name free among its owner's other devices |
| DeviceStore.Store.RemoveDevice | crates/coordinator/src/store.rs:863-897 | the device and its labels go; a primary passes to a remaining device or is cleared |
| DeviceStore.Store.EnsurePrimary | crates/coordinator/src/store.rs:1030-1040 | sets a primary only where there is none |
| DeviceStore.Store.SetPrimary | crates/coordinator/src/store.rs:1043-1053 | moves the owner's primary and nothing else |
| DeviceStore.Store.TouchDevice | crates/coordinator/src/store.rs:500-508 | stamps an existing device and nothing else |
| DeviceStore.Store.JudgeLabels | crates/coordinator/src/store.rs:943-990 | sorts the labels, in order, into registered ones and refused ones with their reasons |
| DeviceStore.Store.SetDeviceServices | crates/coordinator/src/store.rs:937-1011 | replaces this device's labels by the accepted ones, taking none from a sibling |
| DeviceStore.ReclaimIdlePersonalDevices | crates/coordinator/src/store.rs:523-540 | frees exactly the personal devices last seen before the cutoff, drops exactly their labels, leaves every primary that stays, replaces the others by a remaining device of the owner if there is one, and keeps the whole table invariant |
| DeviceStore.IdleExactly | crates/coordinator/src/store.rs:523-540 | over any run a device is reclaimed exactly if its last touch since its enrolment was a personal one before the cutoff; one never touched stays |
| DeviceRaces.EnrolmentAloneExactly | crates/coordinator/src/store.rs:599-666 | an enrolment whose statements nothing comes between refines the store's whole operation: over the runs of its statements it can leave the tables exactly as that can |
| DeviceRaces.RenameAloneExactly | crates/coordinator/src/store.rs:847-860 | the same of a rename |
| DeviceRaces.IndicesStaySound | crates/coordinator/src/store.rs:187-195 | over every interleaving of the statements of enrolments and renames, indices stay valid and distinct |
| DeviceRaces.NamesSurviveExactly | crates/coordinator/src/store.rs:655-664 | a statement keeps each owner's names apart exactly unless it writes a name another device of the owner has by then |
| DeviceRaces.NamesOvertakenExactly | crates/coordinator/src/store.rs:675-711 | a write duplicates a name exactly if, between its request's reading of the names and itself, another request gave that name to another device of the user, which still has it |
| DeviceRaces.NamesStayApart | crates/coordinator/src/store.rs:847-860 | names stay apart over every run in which no two requests for one user or one key are about to write at once |
| DeviceRaces.TwoEnrolmentsOneName | crates/coordinator/src/store.rs:599-666 | a run from the empty store in which two overlapping enrolments of one user end with one name |
| DeviceRaces.FleetBalances | crates/coordinator/src/store.rs:630-666 | along any run a user's devices at the end and those departed are those at the start and those arrived |
| DeviceRaces.CapSurvivesExactly | crates/coordinator/src/store.rs:630-664 | an insert keeps the cap exactly if the devices its request counted, and those that arrived since, less those that left, are below it |
| DeviceRaces.FleetBound | crates/coordinator/src/store.rs:630-639 | with never more than m enrolments of a user between count and insert, the user never has more than 31 + m devices: the documented 32 when they come one at a time |
| DeviceRaces.FleetBoundIsMet | crates/coordinator/src/store.rs:630-666 | for every m the network has room for, a run from the empty store keeps within m and reaches 31 + m |
| Enrollment.NextKeepsInv | crates/coordinator/src/store.rs:1070-1134 | every single statement keeps: whoever was told Ok is the recorded user of the key, and a recorded use never changes |
| Enrollment.OneDevicePerKey | crates/coordinator/src/store.rs:1088-1134 | in every interleaving of reads, claims and re-seeds at most one public key is ever told Ok for a key |
| Enrollment.ConsumeAlone | crates/coordinator/src/store.rs:1090-1134 | undisturbed, a key enrolls exactly while known, unused and unexpired, or again for the same device, and each of the three refusals names its cause |
| Enrollment.EnrollsExactly | crates/coordinator/src/store.rs:1070-1134 | after any run an undisturbed registration enrolls for whom the key was last seeded, exactly if its device is the one enrolled with it or none was and the expiry last given is not reached; each refusal names its cause |
| Enrollment.ToldOwnerExactly | crates/coordinator/src/store.rs:1090-1134 | whatever runs between the read and the claim, an attempt told Ok is told the owner it read, who is the key's owner by then exactly if it was not seeded again, or last for that same user |
| Enrollment.ReseedCanMoveTheOwner | crates/coordinator/src/store.rs:1070-1134 | a re-seed between the two statements enrolls the device for the earlier owner |
| BeaconCodec.DecodesExactlyWireForms | crates/engine/src/beacon.rs:150-215 | a datagram decodes to a message exactly if it is that message's wire form |
| BeaconCodec.Encode | crates/engine/src/beacon.rs:150-157 | the announcement buffer is the wire form |
| BeaconCodec.EncodeKinded | crates/engine/src/beacon.rs:160-173 | the probe or ack buffer is the wire form |
| Beacon.RunIsRecorded | crates/engine/src/beacon.rs:288-299 | over any run, an outstanding probe was sent, a recorded ack was genuine and answered such a probe in time, and a routed state was entered on one |
| Beacon.RoutesAreEarned | crates/engine/src/beacon.rs:375-534 | whatever datagrams arrive, an address is routed only if a genuine ack from it answered our probe and was fresh when the peer entered Trying |
| Beacon.ConsecutiveRoutesAgree | crates/engine/src/beacon.rs:482-534 | two consecutive selects that both route a peer use the same address, whatever was received in between |
| Beacon.ProbedExactly | crates/engine/src/beacon.rs:452-497 | a select asks for a probe exactly to a peer it meets whose address is not proven by a fresh ack, and that is unadopted with no backoff running or has been probed for under six seconds; the probe goes to the address under way, or else the candidate's |
| Beacon.TriedExactly | crates/engine/src/beacon.rs:452-491 | a select starts a trial exactly of a peer it meets whose address is proven and that is unadopted or being probed, and routes it there at once |
| Beacon.BacksOffExactly | crates/engine/src/beacon.rs:488-497 | a select backs off for sixty seconds exactly from a peer it has probed for six seconds or more without a fresh ack |
| Beacon.AnsweredProbeIsRouted | crates/engine/src/beacon.rs:288-299 | a probe a select asked for, sent, and genuinely answered from there in under ten seconds, routes the peer there at any select within ten seconds of the answer |
| BeaconRuns.RouteLastsExactly | crates/engine/src/beacon.rs:514-524 | an adopted route lasts through a run exactly while every select meets its peer, in the mesh with a live candidate, and finds it healthy or healthy less than sixty seconds ago |
| Beacon.ActiveSurvives | crates/engine/src/beacon.rs:83-91 | so it survives every select of a run before that grace ends |
| Beacon.FailedHolds | crates/engine/src/beacon.rs:525-533 | a reverted peer stays unrouted at every select of a run before its cooldown ends |
| Beacon.RevertedStaysUnrouted | crates/engine/src/beacon.rs:88-91 | a route reverted for want of health is taken by no select of any run in the next thirty seconds |
| BeaconRuns.RoutedExactly | crates/engine/src/beacon.rs:514-524 | each select of a run routes an adopted peer, at its address, exactly if it sustains the route: dropped at the first that does not |
| BeaconRuns.TrialVerdict | crates/engine/src/beacon.rs:498-513 | the select of a run that decides a trial adopts it exactly when settled and healthy, reverts it for thirty seconds exactly when unhealthy past the grace |
| BeaconRuns.TrialLastsExactly | crates/engine/src/beacon.rs:498-513 | a trial goes on through a run exactly while every select meets the peer and comes before it has settled, or finds it unhealthy within the grace |
| BeaconRuns.CooldownLastsExactly | crates/engine/src/beacon.rs:400-412 | a cooldown is kept through a run exactly while every select meets the peer and comes before its end |
| BeaconRuns.LapsedHasNoFreshAck | crates/engine/src/beacon.rs:266-299 | over any run with a monotone clock a peer whose candidate lapsed has no fresh ack left |
| BeaconRuns.LapsedCandidateForgetsCooldown | crates/engine/src/beacon.rs:402-412 | a run from the initial state, every probe of it asked for, whose candidate lapses at 92 and is routed again at 95, though the cooldown lasts until 120 |
| BeaconRuns.DirectAcksRouteProbed | crates/engine/src/beacon.rs:288-299 | over any run whose acks come from the addresses probed, only probed addresses are acked or routed |
| BeaconRuns.UnprobedAckRoutesExactly | crates/engine/src/beacon.rs:288-299 | once an ack is accepted, some later selects alone route an address never probed exactly if the ack came from one |
| BeaconRuns.UnprobedAddressRouted | crates/engine/src/beacon.rs:452-471 | a run from the initial state, every probe of it asked for, that routes a peer where it was acked from but never probed |
| BeaconRuns.AnnouncedPeerIsAdopted | crates/engine/src/beacon.rs:375-534 | a run from the initial state, every probe of it asked for by an earlier select, that ends with an announced peer adopted |
| Beacon.AbandonedProbeStaysQuiet | crates/engine/src/beacon.rs:76-78 | after a probe is given up, no select of any following run queues one to that peer for sixty seconds, while it stays in the mesh |
| Beacon.NoProbeWhileHeldBack | crates/engine/src/beacon.rs:452-471 | while a hold runs it survives every event, and no select of any run probes the peer, however its candidates change |
| Beacon.HeardExactly | crates/engine/src/beacon.rs:258-270 | over any run a datagram makes its sender's address the candidate exactly if the sender was in the mesh at the last select, and from anybody else changes nothing |
| Beacon.ProbeOutstandingExactly | crates/engine/src/beacon.rs:393-395 | until the next one is sent a probe stays outstanding through a run exactly while the peer stays in the mesh and no select comes ninety seconds after it |
| Beacon.AckRememberedExactly | crates/engine/src/beacon.rs:389-392 | until the peer answers again an ack is remembered through a run exactly while no select comes ten seconds after it |
| Beacon.CandidateRememberedExactly | crates/engine/src/beacon.rs:382-388 | until the peer is heard again its candidate is remembered through a run exactly while no select comes ninety seconds after it |
| Beacon.BeaconState.Receive | crates/engine/src/beacon.rs:255-303 | a member's datagram refreshes its candidate; a probe is answered exactly if genuine; an ack counts only genuine, in time and matching the outstanding nonce |
| Beacon.BeaconState.BeginPeer | crates/engine/src/beacon.rs:452-471 | starts a candidate as Trying on a fresh ack, held back while its backoff runs, and otherwise Probing with a probe asked for to its address |
| Beacon.BeaconState.StepPeer | crates/engine/src/beacon.rs:482-534 | advances one peer's state and touches nobody else's backoff |
| Beacon.BeaconState.Select | crates/engine/src/beacon.rs:375-430 | the loop over peers has the effect of every peer taking its own turn on the swept state, and returns exactly those routes |
| Beacon.AllSettled | crates/engine/src/beacon.rs:395-430 | once every peer has had its turn, in whatever order, the accumulated state, routes and probes are exactly those of the turns |
| Challenges.PublishedIsSound | crates/coordinator/src/zone.rs:193-253 | publishing keeps: the log is the union of the non-empty per-device lists, budgets respected, at most 4096 names of at most 8 distinct values |
| Challenges.PrunedIsSound | crates/coordinator/src/zone.rs:273-283 | so does pruning |
| Challenges.AddedIsSound | crates/coordinator/src/zone.rs:294-302 | adding records keeps values capped and distinct, grows the table by at most the new names and drops none |
| Challenges.WeeklyBound | crates/coordinator/src/zone.rs:57-68 | over any run every half-open span of one week charges at most the deployment budget, and at most min(5, budget) to one device |
| Challenges.LookupTellsMentions | crates/coordinator/src/zone.rs:193-302 | after any run a lookup finds a name exactly if an accepted order, free or charged, mentioned it under five minutes before, and answers with the values of its mentions, each added to those that stood then |
| Challenges.VerdictExactly | crates/coordinator/src/zone.rs:193-237 | after any run an order with nothing new is accepted free; any other is refused exactly if the device had its min(5, budget) news orders accepted within the week, or all devices the budget, or the names would exceed 4096, in that order of causes |
| Challenges.AddedAt | crates/coordinator/src/zone.rs:238-250 | what an order leaves at a name depends only on the values it gives that name, in their order |
| Challenges.RecordLiveExactly | crates/coordinator/src/zone.rs:287-302 | for any order and any value of it or live before it: it is live afterwards exactly if the values new at their turn that follow its last mention do not use up the room left and the values in front of it |
| Challenges.NewValuesStay | crates/coordinator/src/zone.rs:287-302 | a value new when pushed, with at most seven values for its name behind it, is live afterwards |
| Challenges.PairLiveExactly | crates/coordinator/src/zone.rs:287-302 | of two values an order gives one name, whatever else it posts, the second is live afterwards, the first exactly unless it was the oldest of eight and the second is new |
| Challenges.RepostedValueLost | crates/coordinator/src/zone.rs:193-253 | from the empty store, four orders of two values and a fifth that re-posts the oldest with a new one are all accepted and charged within the device's week, and the re-posted value is live before the fifth and gone after it |
| Challenges.ThirdValueLost | crates/coordinator/src/api/acme.rs:96-126 | after the same four orders, a fifth of three values for one name loses a value that its first two alone would leave live |
| Challenges.ChallengeStore.Lookup | crates/coordinator/src/zone.rs:256-261 | answers exactly the unexpired values of the name |
| Challenges.ChallengeStore.Publish | crates/coordinator/src/zone.rs:193-253 | a live order is refreshed free, a novel one charged once, and a refusal changes nothing beyond pruning |
| Limiter.DecideKeepsSound | crates/coordinator/src/limiter.rs:43-64 | each request keeps the total equal to the sum of the per-source counts, within every cap |
| Limiter.VerdictsFollowLog | crates/coordinator/src/limiter.rs:43-64 | over any run the counter grants exactly what a log of the requests granted in the window allows |
| Limiter.LoneSourceGetsItsAllowance | crates/coordinator/src/limiter.rs:43-64 | a source alone is granted its requests up to its allowance, and no more, until the window ends |
| Limiter.SpanBound | crates/coordinator/src/limiter.rs:1-12 | over any run every span up to a window's length admits at most twice the cap, overall and per source |
| Limiter.DocumentedSourceBoundExactly | crates/coordinator/src/limiter.rs:14-25 | twice the per-source cap bounds every run exactly when that cap is at least one, or nothing is ever admitted, or the window is empty |
| Limiter.WindowCounter.Allow | crates/coordinator/src/limiter.rs:43-64 | the in-place counter takes exactly that decision and stays sound |
| ServiceNames.BestWins | crates/engine/src/mesh_services.rs:119-144 | each name no device holds goes to a lowest-key claimant, and every contested name goes to someone |
| ServiceNames.AnnouncementsAreCoherent | crates/engine/src/mesh_services.rs:146-175 | claims composed from valid labels of distinct devices have one address a device, and its labels and hostnames correspond |
| ServiceNames.ClaimsExactly | crates/engine/src/mesh_services.rs:146-175 | the claims are exactly the services announced, each at its device's address and under its owner's verified label |
| ServiceNames.ContendersExactly | crates/engine/src/mesh_services.rs:146-156 | nobody leaves its owner's namespace: two usable claims contend for a name exactly if they are of one label and their devices' owners of one label |
| ServiceNames.ClaimShadowedExactly | crates/engine/src/mesh_services.rs:119-144 | of coherent claims one is shadowed exactly if it loses or its device claims that name more than once |
| ServiceNames.ShadowedAreLosersExactly | crates/engine/src/mesh_services.rs:119-144 | the shadowed set is exactly the losing claims if and only if no winning name is claimed more than once by its device |
| ServiceNames.OneNameOnTwoProtocols | crates/engine/src/fw/mod.rs:325-332 | one service on tcp and udp, claimed by nobody else, is shadowed though it did not lose |
| ServiceNames.OrderDoesNotMatter | crates/engine/src/mesh_services.rs:106-144 | every permutation of coherent claims gives the same addresses and the same shadowed set |
| ServiceNames.NamesSettledExactly | crates/engine/src/mesh_services.rs:119-144 | for any claims whatever, the resolved addresses are order-independent exactly when tied winners share an address |
| ServiceNames.ResolveClaims | crates/engine/src/mesh_services.rs:119-144 | the loop computes that decision |
| MeshZone.LookupMirrors | crates/engine/src/dns.rs:44-50 | for a lower-case certificate domain outside `internal`, a name and its alias resolve alike, through exact and one-label wildcard entries |
| MeshZone.LookupAt | crates/engine/src/dns.rs:44-130 | under either suffix a name resolves to its last entry, or else to the last device entry one label up |
| MeshZone.DeviceResolves | crates/engine/src/dns.rs:44-130 | a device whose name no other gives resolves to its address under both suffixes, and so does every name one dot-free label below it that is no entry itself |
| MeshZone.UserNameResolves | crates/engine/src/dns.rs:80-130 | the bare name of a user resolves to the primary that alone gives it |
| MeshZone.ServiceResolves | crates/engine/src/dns.rs:94-98 | a service resolves to the address that won its name unless a device gives the name |
| MeshZone.ResolvesExactly | crates/engine/src/dns.rs:44-130 | nothing else resolves: a name does exactly if, under one of the two suffixes, it is an entry or one dot-free label below a device's name |
| MeshZone.NormExactly | crates/engine/src/dns.rs:132-134 | two queries are one name exactly if they have the same letters but for case and the dots at the end |
| MeshZone.AnsweredExactly | crates/engine/src/dns.rs:169-204 | every spelling of a name is answered alike: with its address exactly if it resolves, with a denial exactly if it is an internal name that does not, with nothing otherwise |
| MeshZone.IssuableExactly | crates/coordinator/src/config.rs:605-612 | a lower-case domain passes exactly if its last label is not `internal` |
| MeshZone.DeviceNamesWin | crates/engine/src/dns.rs:80-130 | services change neither the address of a name the devices give nor which names allow labels below them |
| MeshZone.NothingBelowUserAlias | crates/engine/src/dns.rs:80-130 | a two-label name resolves only if it is an entry itself |
| MeshZone.BuiltIsShaped | crates/engine/src/dns.rs:80-130 | every zone built has mirrored entries and wildcards only on device names |
| MeshZone.SuffixesClash | crates/coordinator/src/config.rs:605-612 | a domain outside `internal` shares no name with the internal suffix |
| MeshZone.Resolver.Update | crates/engine/src/dns.rs:80-130 | rebuilds the zone, services before devices, and reports exactly whether it changed |
| SignCache.ServeIsSound | crates/coordinator/src/signer.rs:198-239 | every entry keeps claiming what its key and recorded fields say; a served blob matches the request but for the uncompared owner id |
| SignCache.ServeRefinesSigning | crates/coordinator/src/signer.rs:198-258 | with unique labels a served blob, hit or miss, claims exactly the requested guild, layout and identity, succeeds when signing would, and outlives now |
| SignCache.ServedExactly | crates/coordinator/src/signer.rs:185-258 | after any run a request is answered with the last signing for its guild, device and layout exactly if that is of the same second, or under 300 seconds old with over half its life left, and claims the same of the device; else it is signed anew |
| SignCache.HoldsExactly | crates/coordinator/src/signer.rs:198-239 | after any run the cache holds exactly the last signings still young at its last sweep |
| SignCache.NeverExpiredExactly | crates/coordinator/src/signer.rs:130-194 | no served blob is ever expired exactly when attestations live at least a second |
| SignCache.SharedLabelServesOtherOwner | crates/coordinator/src/signer.rs:244-258 | were a label shared, a hit would name the other owner |
| SignCache.AttestationCache.Attestation | crates/coordinator/src/signer.rs:198-239 | lookup, signing, pruning and insertion do exactly that, over any growth of the label table |
| DeltaSync.VerifyAgainstPinned | crates/engine/src/coord.rs:354-369 | returns the attestation exactly if the guild it names and the key that signed it are a pin, the layout is the declared one and known, and it is unexpired |
| DeltaSync.FirstVerifiedExactly | crates/engine/src/coord.rs:376-387 | returns the first blob to clear the gate, and none exactly if none does |
| DeltaSync.AdmittedExactly | crates/engine/src/coord.rs:554-616 | the peers are exactly those of the seeds that verify: a bad seed costs only its own peer |
| DeltaSync.AdmittedIsVouched | crates/engine/src/coord.rs:547-589 | nobody is peered with unless a pinned key vouches, unexpired, for exactly that key, identity and in-range address |
| DeltaSync.AdmittedFromPinned | crates/engine/src/coord.rs:547-616 | peered with are exactly those some seed brings in by its first blob signed by a key pinned for its guild, in a known layout, unexpired |
| DeltaSync.VerifiedSeeds | crates/engine/src/coord.rs:554-616 | the loop computes those peers |
| DeltaSync.MergeSeeds | crates/engine/src/coord.rs:622-641 | a full response replaces the set; a delta drops the removed, upserts the verified and keeps the rest, one peer per key |
| DeltaSync.HeldExactly | crates/engine/src/coord.rs:647-663 | a full refresh is asked for exactly when nothing is held or some attestation is within the margin of lapsing |
| DeltaSync.ChangedLookup | crates/coordinator/src/api/snapshot.rs:744-761 | a delta carries exactly the seeds whose revision is not the one the client holds |
| DeltaSync.KeysAgreeExactly | crates/coordinator/src/api/snapshot.rs:744-761 | a delta leaves the peers a full snapshot would exactly when every held peer still present verifies |
| DeltaSync.DeltaAgreesExactly | crates/coordinator/src/api/snapshot.rs:744-761 | and the same peers up to freshness exactly when, besides, equal revisions mean equal content |
| DeltaSync.NobodyHeldHasLapsed | crates/engine/src/coord.rs:643-663 | no peer a delta keeps was within the margin of expiry; every other peer held is fresh |
| DeltaSync.PullsOnlyFreshen | crates/engine/src/coord.rs:408-435 | a pull never changes key, transport or revision, strictly raises the expiry, and shows only what a pinned key vouches for |
| DeltaSync.PulledFromPinned | crates/engine/src/coord.rs:408-435 | a pull succeeds exactly if some answer is such a blob for that very key that expires later, and the first one is what the peer then shows |
| DeltaSync.RoundExactly | crates/engine/src/daemon.rs:842-863 | after a round of pulls a peer shows its first renewal exactly if it is within the margin of expiry and answers with one; its transport and revision, and every other peer, stay as they were |
| DeltaSync.HeldPeersAreBacked | crates/engine/src/coord.rs:354-435 | whoever answers, over any run of refreshes, pulls and lapses, every peer held shows what some blob received said, unexpired and signed by a key pinned at the time |
| DeltaSync.UnpinnedKeysAdmitNobody | crates/engine/src/coord.rs:354-435 | over any run whose blobs are all signed by unpinned keys nobody is ever held |
| DeltaSync.EveryRefreshAgrees | crates/engine/src/coord.rs:622-663 | over every run of refreshes from an honest coordinator, renewing pulls and lapses, each refresh leaves what a full snapshot would give, all of it live |
| DeltaSync.PulledNameCanOutstayItsPeer | crates/engine/src/coord.rs:424-435 | a pulled name whose peer then reverts it survives the next delta |
| DeltaSync.RevertedNameExample | crates/engine/src/coord.rs:424-435 | a concrete such run with an honest snapshot |
| DeltaSync.PeerSet.MergeResponse | crates/engine/src/daemon.rs:1183-1185 | the held set becomes the merge of itself and the response |
| DeltaSync.PeerSet.PullRound | crates/engine/src/daemon.rs:842-863 | of all peers held exactly those near expiry whose answer clears the gate are renewed; each keeps its key and none loses lifetime |
| DeltaSync.PeerSet.DropLapsed | crates/engine/src/daemon.rs:868 | keeps exactly the unexpired peers |

## Left out

- I/O and foreign code: sockets, HTTP, the Discord gateway, ICE, STUN and TURN, SQL text, the async runtime, file
  permissions. Their results enter as parameters.
- Cryptography: Ed25519, X25519, HMAC, base64 and postcard are ideal predicates; a blob read in the wrong layout fails
  to verify, as the repository's tests expect.
- Integer widths: version counters (wrapping 64-bit), budgets and window counts are unbounded naturals, since no run
  comes near the wrap; addresses, ports and bytes are bounded as in the source.
- Flight.QueuedCallersShareTheFetch: values do not expire by themselves; expiry is the explicit invalidation step.
- Flight.WaitersCanBeServed: says that nobody is blocked, not in which order waiters are served or that they ever are.
- Membership.SameTagSameMembers: the tag is the table of counters itself; the source hashes it to 64 bits.
- DeviceStore.RunKeepsInv: operations run one at a time, for a fixed mesh network; overlapping enrolments and renames are
  `DeviceRaces`. The callers' check that the device is the user's is a hypothesis of the step.
- DeviceRaces.IndicesStaySound: removals, primaries and service registrations run whole between the statements of
  enrolments and renames.
- DeviceRaces.NamesOvertakenExactly: a rename whose key was removed and enrolled again by another user in between is covered
  by `NamesSurviveExactly` alone.
- Membership.ReaperTick: the NAT side tables the tick prunes of absent devices are not modelled.
- Beacon.BeaconState.Receive: a datagram carrying our own key is dropped by the source before the member check; the member set never
  holds that key.
- Beacon.BeaconState.Select: a select is one event on one state; in the source it takes its locks one after another, and the
  receive task can insert candidates and acks between the sweep and the peers' turns
  (`crates/engine/src/beacon.rs:375-430`).
- DeviceStore.Store.RemoveDevice: the OAuth binding removed with the device is not modelled.
- SignCache.ServeRefinesSigning: the lock that keeps a herd from signing one blob twice is not modelled, only what is
  returned.
- DeltaSync.DeltaAgreesExactly: a seed's endpoint, networks, relay and ICE parts are one opaque transport value, and a
  revision is the content it digests.
- DeltaSync.EveryRefreshAgrees: the client's pins may differ from one refresh to the next, but every seed of a snapshot is assumed to
  verify under them.
- `bind_oauth`, user handles, tokens, community slugs and the network tables: single statements with no invariant
  across operations.
- `stats`, `membership` and `networks_of` of the presence tables: read-only summaries.
- The role-name and guild-name caches: the member cache's argument with one time to live.
- DNS message assembly, backoff formulas, configuration parsing beyond the mesh range, version negotiation, GUI and
  packaging: branch tables with nothing to prove across them.

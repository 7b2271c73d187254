# hraftd verification

A Dafny model of the parts of hraftd whose correctness is not visible from one function body,
with proofs over every input, every run or every reachable state.

* **The sticky distributor** (`Peers`, `Quotas`, `Allocations`, `AllocationLaws`,
  `AllocationRuns`, `Distributor`). Quotas and loads are multisets of node IDs, so "some peer
  still has room" is a pigeonhole on cardinalities, excess over quota is a multiset
  difference, and remaining quotas below zero need no special case. `Distributor.dfy` holds
  the class with its map and loops; its methods are proved equal to the function
  `Allocations.Allocate`, about which everything else is proved.
* **The replicated key-value store** (`Commands`, `Store`, `Replication`). The committed log
  is given. Each replica applies entries at its own clock; the decision that a set is too old
  is kept as a history, and a replica's table is the replay of the log under that history. The
  step system interleaves appending, applying, snapshots, crashes with or without the disk,
  and installing another replica's snapshot.
* **Membership** (`Membership`, `LeaderViews`). The Go type `RaftStore` is split along these two
  concerns into `Stores.KeyValueStore` and `Membership.MemberStore`. `Join` and `Remove` over library calls that
  may each fail; runs of calls; the two views of the leader.
* **Printing and addresses** (`Decimals`, `LogHeader`, `Addresses`, `Admission`). `itoa` with
  its 20-byte buffer, the order of log time stamps, address derivation, node IDs, and the
  identity of servers admitted through join requests.

`dafny verify dfyconfig.toml` checks the project. The lemmas carry `{:induction false}`: no proof
relies on automatic induction.

## What turned out not to hold, and exactly when it does

* Peers do not always end with their quota: they do if and only if no peer's surviving sticky
  items exceed it (`AllocationLaws.QuotaMetIff`). When a peer arrives it may get nothing
  however many items there are (`AllocationRuns.ArrivalGetsNothing`); while peers only leave
  and items only arrive, every call is exact (`AllocationRuns.BalancedOverRuns`).
* Replicas at one log index need not agree, because a set is refused when its time stamp is
  more than 100 seconds before the replica's clock: `Replication.LateReplicaMissesKey`. A
  restart from a snapshot can even leave an overwritten value in place for good:
  `Replication.RestartShowsOldValue`. Two tables at one index, of two replicas or of one
  replica before and after a restart, are equal exactly when for every key the last writes
  accepted on the way to them leave the same (`Replication.ReachableTablesEqualIff`); the exact
  conditions for holding the fold of the log and for contradicting it nowhere are
  `Commands.AgreesIff` and `Commands.SubmapIff`.
* A table never holds a key that the log prefix behind it deleted
  (`Replication.ReachableIsJustified`), but a crash shortens that prefix to the snapshot, and a
  deleted key is served again until the delete is applied once more:
  `Replication.CrashShowsDeletedKey`. The keys a crash shows again are exactly those of the
  snapshot whose last accepted write is a delete applied since (`Replication.CrashShowsAgain`).
* The 100-second window is not measured from the moment a set is issued: the time stamp is
  local wall time without its zone (util.go:90-96) and is read back as UTC (util.go:99-101), so
  the zone of the proposing node shifts the window by its offset (`Stores.ZoneShiftsWindow`).
  More than 100 seconds west of UTC every set is refused at once
  (`Stores.RefusedAtOnceIffWest`); at eight hours east a set stays timely for eight hours and
  100 seconds.
* Log time stamps sort as their times exactly when the years have equally many digits or the
  shorter one, with zeros appended, does not exceed the longer: `LogHeaders.HeaderOrderIff`.
  Up to the year 9999 that is always so; `LogHeaders.Year10000SortsFirst` is a pair that fails.
* The HTTP-only and the Raft-only start derive the same addresses exactly for HTTP ports 1024
  to 34565: `Addresses.DerivationsAgreeIff`. The HTTP-only start has no lower bound on the
  port, although the Raft-only start refuses ports that need privileges.
* A bootstrapped node need not be known under the Raft address in its own ID: it is exactly
  when that address is at its host IP (`Addresses.OwnIDConsistentIff`), which after `fixAddr`
  means that the Raft host counts as local (`Addresses.StartConsistentIff`). The cluster it
  founds is consistent exactly then, or once the founder has left
  (`Admission.ClusterConsistentIff`).

## Assumptions

* hashicorp/raft is not part of this model. `RemoveServer`, `AddVoter` and `GetConfiguration`
  either fail and change nothing or do their one edit; the class `Membership.Raft` states this
  with nondeterministic success and records refusals. Committed entries form an append-only log that every replica
  applies in order.
* The transport's local address, under which a node bootstraps itself, is its Raft address.
* Snapshot and command coding is taken as lossless, or as failing (`Restore` of `None`).
* The interceptor is one fixed function of entry index and command, the same at all replicas.
* Go panics appear as a precondition (`Distribute` with items and no peers) or as a failing
  result (`fixAddr`, `NodeID.Fix`).
* `net.SplitHostPort` is modelled for addresses without brackets; every address with a bracket
  counts as an error.
* Item, node and key strings are compared as sequences of characters.

## Model

| member | source | states |
|---|---|---|
| Peers.ActivesLaw | model.go:25-58 | the active peers are exactly the servers in state Leader or Follower, as an order-preserving sublist of the servers |
| Peers.ActivesCount | model.go:48-58 | each active server is listed as often as it occurs |
| Peers.ActivePeers | model.go:48-58 | the loop returns exactly the active servers, in configuration order |
| Peers.LosingPeersGivesSublist | model.go:25-58 | when between two readings servers are only removed or lost, the later active peer IDs are an order-preserving sublist of the earlier ones |
| Quotas.QuotaClosedForm | distribute.go:125-134 | with distinct peers, round robin gives the peer at index i exactly D/n, plus one when i is below D mod n |
| Quotas.QuotaMonotone | distribute.go:125-134 | losing peers while gaining items never lowers the quota of a peer that stays |
| Quotas.QuotasDifferByAtMostOne | distribute.go:125-134 | the quotas of two peers of one call differ by at most one |
| Allocations.KeptInOrder | distribute.go:52-64 | the kept items and the new items are each an order-preserving sublist of the data |
| Allocations.AlwaysRoom | distribute.go:68-71 | while fewer items are placed than the quotas sum to, the inner loop finds a peer, even when other remaining quotas are negative |
| Allocations.ChoicesPlaceAll | distribute.go:67-84 | the second loop places every new item once, in order; none is dropped |
| Allocations.ChoicesOnPeers | distribute.go:67-84 | every choice of the second loop is a current peer |
| Allocations.ChoicesKeepExcess | distribute.go:67-84 | the second loop adds nothing to the excess over the quotas |
| Allocations.ChoicesInBlocks | distribute.go:67-84 | a full peer stays full, so chosen peer positions never go down |
| Allocations.RecordRemembers | distribute.go:73-73 | with distinct item IDs, every choice of the second loop is what the sticky map holds afterwards |
| AllocationLaws.Complete | distribute.go:43-86 | for any data, any sticky map and any non-empty peer list the output is a permutation of the items, the kept ones before the new ones |
| AllocationLaws.PlacedInOrder | distribute.go:41-86 | the output is a first part of exactly the items with a sticky entry on a current peer, each on that peer, and a second part of exactly the others, both in the order of the data |
| AllocationLaws.OnPeers | distribute.go:41-84 | every placement is on a current peer, and every surviving sticky item stays on its node |
| AllocationLaws.ExcessIsSticky | distribute.go:43-84 | the items above quota after the call are, peer by peer, the sticky ones that were above quota before it |
| AllocationLaws.LoadOfPeer | distribute.go:52-84 | an overfull peer ends with exactly its sticky items; every other peer ends between its sticky count and its quota |
| AllocationLaws.QuotaMetIff | distribute.go:43-84 | every peer ends with exactly its quota if and only if no surviving sticky count exceeds the quota |
| AllocationLaws.Optimal | distribute.go:43-84 | no allocation of the same items that leaves surviving sticky items alone has less excess over quota |
| AllocationLaws.KeepsOwnSticky | distribute.go:43-84 | the call's own allocation is one of those the optimality result compares |
| AllocationLaws.ExcessIsSum | distribute.go:43-84 | the excess is the sum over peers of max(0, sticky count - quota) |
| AllocationLaws.ShortfallIsExcess | distribute.go:43-84 | the under-filled peers together miss exactly as many items as the overfull ones have too many |
| AllocationLaws.NewItemsInBlocks | distribute.go:66-84 | the kept placements come first unchanged, and the new items fill the peers in contiguous blocks in peer order |
| AllocationLaws.StickyAfter | distribute.go:41-84 | after a call the sticky keys are the surviving ones and the items of the call, all on current peers, and surviving entries are unchanged |
| AllocationRuns.StickyOverRuns | distribute.go:41-84 | once placed on a node, an item is placed there by every later call that includes it while the node stays in the peer lists, also across calls without the item |
| AllocationRuns.FixedPoint | distribute.go:37-87 | a call on any reordering, sublist or repetition of the same items gives the same nodes in the given order and leaves the sticky map unchanged |
| AllocationRuns.LoadCounts | distribute.go:52-84 | with distinct item IDs a node's load is the number of the call's items the sticky map puts on it |
| AllocationRuns.SettledFits | distribute.go:41-62 | after an exact call, fewer peers and more items leave every sticky count within its new quota |
| AllocationRuns.BalancedOverRuns | distribute.go:37-87 | from an empty map, while peers only leave and items only arrive, after every call every peer holds exactly its quota and loads differ by at most one |
| AllocationRuns.ArrivalGetsNothing | distribute.go:52-64 | all items of a first call on one peer stay there when the next call has a second peer |
| Distribution.MakePeersMap | distribute.go:125-134 | the counting loop yields the quota of every node, zero for a missing key |
| Distribution.Distributor.constructor | distribute.go:22-28 | a new distributor remembers nothing |
| Distribution.Distributor.Put | distribute.go:90-92 | records the node for the item and changes no other entry |
| Distribution.Distributor.CleanSticky | distribute.go:137-139 | forgets everything |
| Distribution.Distributor.CleanKeysNotIn | distribute.go:141-153 | removes exactly the entries whose node is not a peer, in whatever order the map is visited |
| Distribution.Distributor.KeepSticky | distribute.go:51-64 | the first loop keeps the sticky items and collects the others, both in data order, and charges the kept ones to the quotas, which may go below zero |
| Distribution.Distributor.PlaceNew | distribute.go:66-84 | the nested second loop makes the greedy choices and records them in the sticky map |
| Distribution.Distributor.Distribute | distribute.go:37-87 | output and new sticky map are those of the allocation function; the items are permuted onto current peers, sticky ones first where they were, then the others, both parts in data order |
| Commands.ApplyByCases | store.go:620-645 | consumed commands, other operations, the cluster key and sets not found timely change nothing; any other set stores its value, a delete that is let through removes its key |
| Commands.ReplayIsLastAccepted | store.go:613-646 | under any age decisions the table holds for each key exactly what the last accepted entry on it leaves: a set's value, nothing after a delete or without entry |
| Commands.TablesEqualIff | store.go:613-646 | the tables of two decision histories at one index are equal if and only if for every key the log names the last accepted writes leave the same |
| Commands.TableWithinIff | store.go:613-646 | the exact condition for one history's table to contradict another's nowhere |
| Commands.KeyAfterReplay | store.go:613-646 | per key, a replica agrees with the on-time fold unless the key's last write was refused, and then it shows what the last accepted write before it left |
| Commands.FoldIsLastWrite | store.go:624-640 | the on-time table holds a key exactly when its last write is a set, with that set's value |
| Commands.AgreesIff | store.go:613-646 | a replica equals the fold if and only if every refused set that is the last word on its key sets what the last accepted write before it had left |
| Commands.SubmapIff | store.go:613-646 | a replica shows no wrong value if and only if before every such set the last accepted write had left nothing or that value |
| Commands.CatchUpIsSubmap | store.go:613-646 | replay from the empty map with monotone freshness gives a submap of the on-time table |
| Commands.FastReplayIsMonotone | store.go:626-630 | freshness is monotone when the replay clock runs at most as far between entries as their time stamps do |
| Commands.SlowReplayShowsOldValue | store.go:626-630 | without that a replica can keep a stale value |
| Commands.NeverRevives | store.go:613-646 | at any clock, every key shown was set with that value by an entry of the applied prefix, and no later entry of that prefix deleted it |
| Stores.CloneMap | util.go:43-51 | a fresh map with the same entries |
| Stores.KeyValueStore.constructor | store.go:49-60 | a new store has its own empty map |
| Stores.KeyValueStore.Get | store.go:314-318 | the value and presence of the key; the empty string when absent |
| Stores.KeyValueStore.Apply | store.go:614-646 | the table in place: unchanged when intercepted, for other operations, for the cluster key, and for sets without a parsed time or stamped more than 100 seconds before now; any other set stores its value; a delete removes its key |
| Stores.KeyValueStore.Snapshot | store.go:664-667 | a fresh copy of the table |
| Stores.KeyValueStore.Restore | store.go:670-680 | replaces the map by the decoded table, or keeps it when decoding fails |
| Stores.PersistWhileApplying | store.go:664-699 | entries applied while a snapshot is persisted do not show in it, and a store restoring it gets the table at the snapshot |
| Stores.SetCommandSets | store.go:320-330 | the command Set proposes, let through and found timely, stores the value under the key |
| Stores.ZoneShiftsWindow | util.go:90-101 | the zone of the proposing node moves the window of a set by exactly its offset |
| Stores.SetIsTimelyIff | store.go:326-630 | a proposed set takes effect exactly up to 100 seconds plus the zone offset after it was issued, less what the time stamp lost below the millisecond |
| Stores.RefusedAtOnceIffWest | store.go:326-630 | every set is refused at once and for ever exactly when the zone is more than 100 seconds west, and every set takes effect at once exactly when it is less than that west |
| Replication.StepLeaves | store.go:613-680 | what every step leaves of every replica: only the named one changes, and it holds the applied entry, the saved table, the snapshot, the empty table, or the installed snapshot |
| Replication.StepKeepsReplays | store.go:613-680 | every append, apply, snapshot, crash and install step keeps all tables and snapshots replays of log prefixes |
| Replication.ReachableIsJustified | store.go:613-680 | in every reachable state, at any clocks, each table and snapshot is a replay of a log prefix, shows only values that prefix justifies and no key that prefix deleted |
| Replication.ReplicasAgree | store.go:613-680 | if every set is applied within its window, each table and snapshot is the fold of its prefix, so replicas at one index agree |
| Replication.ReachableAgreesIff | store.go:613-680 | in every reachable state, a replica holds the fold of its prefix if and only if its lost writes repeat what the last accepted writes had left |
| Replication.ReachableTablesEqualIff | store.go:613-680 | over all runs, two tables at one index, of two replicas or of one before and after a restart, are equal if and only if for every key the last accepted writes leave the same |
| Replication.CrashShowsAgain | store.go:639-680 | in every reachable state, the keys a crash shows again are exactly those of the snapshot whose last accepted write is a delete applied since |
| Replication.CrashShowsDeletedKey | store.go:639-680 | a run in which a crash serves a deleted key again |
| Replication.CatchUpNeverContradicts | store.go:613-646 | in every reachable state, a replica with monotone freshness only misses keys compared with one that refused no set |
| Replication.LateReplicaMissesKey | store.go:626-630 | a run in which two replicas at one index disagree |
| Replication.RestartShowsOldValue | store.go:626-680 | a run in which restoring a snapshot and replaying late brings an overwritten value back |
| Membership.MemberStore.Visit | store.go:372-391 | one server of the walk: met, removed, or passed by, and stopped exactly when the library refuses the removal |
| Membership.MemberStore.WalkServers | store.go:709-715 | the walk over a copy while the live configuration changes |
| Membership.MemberStore.WalkRaftServers | store.go:703-718 | all conflicts gone, or the pair met and nothing touched, or stopped after a prefix of the conflicts, and stopped exactly when the library refuses a call |
| Membership.MemberStore.Join | store.go:361-408 | on distinct IDs and addresses: a member is left alone, success leaves the servers sharing neither ID nor address plus the new voter, failure a prefix of the removals; for a leader it fails exactly when the library refuses a call, and otherwise reports membership exactly for members |
| Membership.ServerAfter | store.go:345-408 | server by server: a successful Join keeps every server sharing neither ID nor address as it was and adds the new one as a voter; a successful Remove drops exactly the server with the ID; a failed call adds nothing |
| Membership.MemberStore.Remove | store.go:345-357 | only a leader removes, exactly the server with the ID, and succeeds exactly when the library does not refuse |
| Membership.PurgeBeforeMember | store.go:377-382 | the early exit never follows a removal |
| Membership.PurgeConflict | store.go:384-388 | removing a conflicting server's ID takes just that server out of the live configuration |
| Membership.JoinRefinesUpdate | store.go:361-408 | a successful Join is one update of the ID-to-address relation |
| Membership.RunKeepsInjective | store.go:345-408 | over any sequence of calls with any failures IDs and addresses stay pairwise distinct |
| Membership.BystanderSurvives | store.go:345-408 | a server in no conflict with the calls survives them |
| Membership.MemberHasOrigin | store.go:345-408 | every member was there at the start or joined, with no later successful conflicting call |
| Membership.MembershipDecided | store.go:345-408 | when no conflicting call fails, the calls alone decide who is a member |
| LeaderViews.LeadServer | store.go:106-135 | the first server at the leader address, or an error |
| LeaderViews.Visit | store.go:144-170 | what one server adds to the cluster view |
| LeaderViews.Cluster | store.go:138-173 | the configuration in order, with the last server at the leader address as leader and the last with the local ID as current |
| LeaderViews.FirstAtIsFirst | store.go:114-126 | the server LeadServer takes is the match no other precedes |
| LeaderViews.LastWithIsLast | store.go:144-155 | the server Cluster keeps is the match no other follows |
| LeaderViews.ViewLists | store.go:144-167 | every server is listed with its address, ID and suffrage: the local one in its own state, a remote one at the leader address as leader, any other in the state it reports, or as lost |
| LeaderViews.ViewCurrent | store.go:152-155 | the current peer is the local node with its own state |
| LeaderViews.ViewLeader | store.go:147-150 | the leader is the server at the leader address |
| LeaderViews.ViewsAgree | store.go:106-173 | first and last match are the same server, so the two views succeed together |
| LeaderViews.BothViews | store.go:106-173 | LeadServer succeeds exactly when Cluster sets its leader, with the same ID, address and state; every server is listed in order in the state of its case, and leader and current peer are the servers at the leader address and with the local ID, or empty |
| Decimals.PaddedValue | logger.go:198-215 | the printed digits denote the number |
| Decimals.PaddedLength | logger.go:198-215 | the length is the width, or the number of digits when larger |
| Decimals.DecimalLength | logger.go:198-215 | k digits suffice exactly below ten to the k |
| Decimals.ValueInjective | logger.go:198-215 | value and length determine the text |
| Decimals.FitsBufferIff | logger.go:200-214 | the 20 bytes suffice for every non-negative 64-bit number exactly when the width is at most 20 |
| LogHeaders.Itoa | logger.go:198-215 | never leaves the buffer, terminates, and appends the padded text to what was there |
| LogHeaders.FormatHeader | logger.go:222-241 | appends the seven fields with their separators |
| LogHeaders.RenderOrder | logger.go:222-241 | texts of fields of pairwise equal lengths are ordered byte-wise as their number tuples |
| LogHeaders.EqualLengthOrder | logger.go:222-241 | headers of equal length are ordered as their times and equal exactly when all fields are |
| LogHeaders.ShorterYearOrder | logger.go:222-241 | against a year of more digits a header sorts first exactly when its year with zeros appended does not exceed the other |
| LogHeaders.HeaderOrderIff | logger.go:222-241 | for every two valid times, byte order agrees with time order if and only if the years have equally many digits or the shorter with zeros appended does not exceed the longer |
| LogHeaders.HeaderOrder | logger.go:222-241 | up to the year 9999 headers are ordered as their times and equal exactly when all fields are |
| LogHeaders.HeaderLengthIff | logger.go:222-241 | the header has length 24 exactly for years up to 9999 |
| LogHeaders.HeaderReadsBack | logger.go:222-241 | every part of a valid time down to the millisecond is read back from its place in the header, between the separators of the format |
| LogHeaders.Year10000SortsFirst | logger.go:222-241 | a header of the year 10000 sorts before one of the year 9999 |
| Addresses.Arg.FixAddr | arg.go:178-231 | both addresses become those of the derivation function, or the call panics exactly where that fails; addresses with brackets, which Go accepts, are outside the model and count as failing |
| Addresses.BothGiven | arg.go:216-219 | each of two given addresses keeps its port and its host unless that is local, and the call panics exactly when one of them does not split |
| Addresses.HTTPGiven | arg.go:183-197 | from the HTTP address alone both results are at its host unless that is local, 1000 ports apart, and the call panics exactly when it does not split or its port is above 34565 |
| Addresses.RaftGiven | arg.go:198-215 | from the Raft address alone the same, and the call panics exactly when it does not split or its port is below 2024 |
| Addresses.FixAddrsIdempotent | arg.go:178-231 | applying fixAddr to any result of its own changes nothing |
| Addresses.DerivationsAgreeIff | arg.go:183-215 | HTTP-only and Raft-only derivation give the same pair exactly for HTTP ports 1024 to 34565 |
| Addresses.DefaultIsDerived | arg.go:180-197 | with no address given the result is ports 11000 and 12000 of the host IP, as the HTTP address alone would give |
| Addresses.FixIDLaw | arg.go:294-305 | the fixed ID splits into its parts, keeps both ports, and is a fixed point |
| Addresses.Arg.ParseFlagRaftNodeID | arg.go:307-310 | the node ID is the fixed pair of the two addresses and never panics |
| Addresses.JoinRequest.Fix | model.go:67-74 | rewrites both fields to the remote host, local loopback becoming the empty host |
| Addresses.FixRequestLaw | model.go:67-74 | the address and both parts of the ID are moved to the remote host, loopback becoming the empty host, and keep their ports |
| Addresses.FixedRequestConsistentIff | model.go:67-74 | a fixed request's address is the Raft address in its ID exactly when the Raft ports of its two fields agreed |
| Addresses.OwnRequestConsistent | arg.go:404-409 | the request a node sends with its own address and derived ID is consistent after fixing, wherever it comes from |
| Addresses.OwnIDConsistentIff | arg.go:307-310 | the ID a node derives holds its own Raft address exactly when that address is at the host IP |
| Addresses.StartConsistentIff | arg.go:178-310 | after fixAddr that is so exactly when the Raft host counts as local |
| Admission.OnlyFoundersInconsistent | service_raft.go:46-50 | over any membership run fed by join requests with agreeing Raft ports, a server whose address is not the Raft address in its ID was there at the start |
| Admission.AdmittedServersConsistent | service_raft.go:46-50 | if every server of the first configuration has the Raft address in its ID as its address, and only such requests are admitted, every server of every later configuration has |
| Admission.ClusterConsistentIff | store.go:228-231 | from the bootstrapped single server, a configuration is consistent if and only if the founder's Raft address is at its host IP or the founder is no longer a member |

## Left out

- Raft elections, replication, commit and log compaction: they are in the library.
- HTTP handlers, forwarding, proxying, tickers, timeouts and goroutines: plumbing around the calls modelled here.
- Reflection in Distribute: receivers are pairs of node and item; the two type-check panics (distribute.go:94-123) are not modelled.
- JSON coding, peers.json and snapshot file I/O, and `processSetRaftCluster`, which leaves the table unchanged.
- Dealers (job.go): represented only by the interceptor's decision.
- The parsing of time text: a command carries its parsed time, or none. A zone is a fixed offset; daylight saving changes are not modelled.
- The caller information of formatHeader (logger.go:243-259), negative numbers in `itoa`, and years before 0.
- DNS lookup in `isLocalHost`: a fixed predicate of the host text.
- `parseBootstrap` and `parseFlagRaftDir` (arg.go:312-356): they would add only easy members.
- `RaftStats`, `recoverJoin` and the search for a leader among peers (store.go:63-87, store.go:242-280, store.go:529-574).
- Distribution.Distributor.Distribute: its two loops are the methods KeepSticky and PlaceNew; 64-bit overflow of the counters is not modelled, as no slice is that long.
- Membership.MemberStore.Join: says nothing for configurations with repeated IDs or addresses, which the library does not admit.
- Replication.ReplicasAgree: replicas take single steps on values; the locking of the real store and concurrent readers are not modelled.

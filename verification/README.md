# rsqlite-rsync: a verified model

rsqlite-rsync copies a SQLite database page by page from an *origin* to a *replica*, runs a
lease-fenced writer election around the result, and serves SQL through a gateway with a
failover client. This project models those three cores, and the smaller loops they rest on,
in Dafny 4.11 and proves what they promise. `dafny verify dfyconfig.toml` checks everything.

## What is proved

**Two-pass page sync.** Both ends are state machines over two FIFO channels
(`SyncSession.dfy`); a run is any schedule of their steps. The databases are sequences of
pages, the digest is any function that does not collide on the inputs one session compares,
`u32` arithmetic wraps as in a release build, and the transport refuses messages that fail
its size test.

- *Exact conditions.* Some run ends with both sides Ok, and then every run that stops does,
  iff the page sizes agree (or the replica reports 0 and there is nothing to send), the
  replica is no longer than the origin and within 2^32 - 64 pages, and every planned message
  passes the size test (`SyncExact.FinishesExactlyWhen`). The replica then holds the origin
  iff the origin is within 2^32 - 64 pages too (`SyncExact.SyncsExactlyWhen`).
- *What two Ok results are worth.* They always mean a file with the origin's pages up to
  2^32 - 64. The promise of a consistent snapshot (src/protocol/replica.rs:38-39) therefore
  fails for a longer origin: the end of its last group wraps to zero, an empty batch is sent
  and acknowledged, and both sides return Ok without the last pages.
  `SyncExact.OkMeansSyncedExactlyWhen` is the exact law, `SyncExact.LastPagesLost` the
  failing family and `SyncExact.TruncatedInput` a concrete pair. It takes a custom transport
  without a size limit (src/lib.rs:169-170); no framed one can carry such a session.
- *The 256 MiB frame limit.* Over the framed transports only two messages can be too large:
  the replica's group hashes, from 2^23 groups on, and the origin's list of differing groups
  (`WireSize.DeliverableExactlyWhen`). This gives the exact condition in terms of the pages
  alone, and rules the truncation above out there: two Ok results over a framed transport
  always mean a synced replica (`WireSize.FramedOkMeansSynced`). It also means that a
  database of 2^23 to 2^25 groups can be copied into an empty replica once, after which no
  session on the pair ever succeeds again (`WireSize.OnceButNotAgain`).
- *Shape of every run.* At most two messages in flight, 5 + 3n messages for n listed groups,
  10 + 6n + d effective moves for d differing pages, no deadlock.
- *Minimal transfer and crash safety.* Exactly the differing pages are sent, once each, in
  order. At every point of every run over every transport the file is the first n origin
  pages followed by the old tail. After an abort anywhere a fresh session has exactly the
  rest to send, and syncs iff the transport carries its messages
  (`SyncExact.ResumeSyncsExactlyWhen`). Over a framed transport that means: iff the file left
  behind has fewer than 2^23 groups (`WireSize.FramedResumeExactlyWhen`). An abort past that
  size cannot be resumed; below it every abort can (`WireSize.SmallOriginResumes`).
- *Refusals.* Differing nonzero page sizes make both sides fail with nothing written; a
  longer replica makes the origin panic on a page it does not have; a replica beyond
  2^32 - 64 pages panics while hashing its last group.

**Lease-fenced HA.** The runtime, the plan executor with arbitrary failures, the shared state
the gateway reads, and a cluster of nodes around one lease register whose rules are guards of
its `Grant` event. A read fails or returns any record granted so far.

- *Single writer* holds in all runs of all clusters, stale reads included, iff no clock can
  lag by more than the margin the register keeps between holders.
- *Fencing.* One generation admits writes on one node only, whatever clocks, reads and
  failures a run has. Generations of admitted writes never go down iff clocks are within the
  margin, the register never lowers a generation, and no node is shown an older record than
  before (`HaCluster.FencedExactlyWhen`).
- *Shared state follows the runtime* after an error-free iteration only if, on a tick that
  merely keeps the writer, the shared generation was right before. A promotion whose executor
  call fails once leaves a writer that the gateway refuses, and later error-free ticks that
  keep it do not repair it; the next completed promotion does. `HaNode.ErrorFreeIteration` is
  the exact law for one tick, `HaNode.AdmissionExactlyWhen` over whole runs,
  `HaNode.LostPromotionSticks` the concrete run, and `HaNode.SharedRefinesRuntime` the promise
  since the last completed promotion.

**Client failover.** Whatever connections fail and replies get lost, a write without the
idempotent flag runs at most once, exactly once on success and never on exhausted retries. It
gets there: turned away by dead nodes and replicas, it runs at the first writer it reaches
within the permitted attempts, and retries are exhausted only if there is none
(`Client.WriterIsReached`, `Client.ExhaustedExactlyWhen`). A gateway that refuses it names the
holder of the lease it last read, and the next attempt goes there
(`Client.RefusalPointsAtHolder`).

**Supporting loops.** Frame reassembly, the batch scheduler and its backoff, chunked query
streaming, the SQL splitter, and the lease text format.

## Model

| member | source | states |
|---|---|---|
| `SyncExact.FinishesExactlyWhen` | src/protocol/origin.rs:171-493 | with no digest collision, some run ends with both sides Ok iff page sizes agree, the replica is within the page limit and no longer than the origin, and every planned message passes the size test; then a run has stopped iff both are Ok; and two Ok results always mean the origin's pages up to the limit |
| `SyncExact.SyncsExactlyWhen` | src/protocol/replica.rs:45-291 | some run makes the replica equal the origin iff, besides, the origin is within 2^32-64 pages; then a run has stopped iff it has synced |
| `SyncExact.OkMeansSyncedExactlyWhen` | src/protocol/replica.rs:33-42 | two Ok results imply a synced replica in all runs iff it is not the case that page sizes are equal, the replica is within the limit, the origin beyond it, and every planned message passes; in that case every stopped run has both sides Ok and the file is the origin cut at the limit |
| `SyncExact.UnlimitedOkMeansSyncedExactlyWhen` | src/protocol/replica.rs:33-42 | the same law over a transport without a size limit, in terms of page sizes and page counts alone |
| `SyncExact.ResumeSyncsExactlyWhen` | src/protocol/replica.rs:216-281 | after an abort at any point of a session that could sync, a fresh session on the file syncs iff the transport carries its messages, and then a run has stopped iff it has synced |
| `SyncExact.NoIndexOverflow` | src/protocol/origin.rs:289-294 | where syncing is possible no group's page indices leave u32, for every listed or reported group on either side |
| `SyncExact.LastPagesLost` | src/protocol/origin.rs:387-456 | with a replica that lacks just the pages beyond the limit, some run ends Ok and every stopped run is Ok with nothing copied |
| `SyncExact.TruncatedInput` | src/protocol/origin.rs:289-306 | a concrete valid, collision-free pair with one page too many for which the session truncates |
| `SyncExact.NeverSyncs` | src/protocol/replica.rs:45-291 | unless page sizes agree, the replica is no longer than the origin and the origin within the limit, no schedule syncs, collisions or not |
| `SyncExact.OverLimitNeverSyncs` | src/protocol/origin.rs:289-306 | an origin beyond the page limit is never copied in full, collisions or not |
| `SyncExact.CanComplete` | src/protocol/replica.rs:190-290 | when the transport carries the plan, page sizes agree and the replica is no longer than the origin, from any point of any run some continuation ends with both sides Ok |
| `SyncRefused.MismatchRefused` | src/protocol/origin.rs:176-236 | with differing nonzero page sizes every run stops exactly with both ends failed on the mismatch and nothing is ever written |
| `SyncRefused.GroupHashingPanics` | src/protocol/replica.rs:149-159 | a replica beyond the page limit panics on the reversed slice of its last group |
| `SyncRefused.OverLimitReplicaStops` | src/protocol/replica.rs:134-181 | such a replica never returns Ok and never writes |
| `SyncRefused.Negotiation` | src/protocol/origin.rs:198-236 | the origin answers with version 1 and SHA-256 or version 2 and BLAKE3, whichever the replica knows, refuses version 0 and a differing nonzero page size, and the replica hashes with the algorithm of the version it is told |
| `SyncRefused.OnlyFullAcknowledgement` | src/protocol/origin.rs:466-487 | the origin goes on iff the acknowledged pages are a permutation of those sent, and otherwise sends an error |
| `SyncRefused.OriginOffScript` | src/protocol/origin.rs:178-487 | an error message ends the origin without an answer; every other message it does not wait for, and a nonzero first group, is answered with an error |
| `SyncRefused.ReplicaOffScript` | src/protocol/replica.rs:64-290 | the same for the replica; Done in place of pages is accepted only on the last group, and where only Done may come everything else is an error |
| `WireSize.DeliverableExactlyWhen` | src/protocol/messages.rs:25-103 | over a framed transport every planned message fits iff the replica has fewer than 2^23 groups and the list of differing groups fits |
| `WireSize.FramedSyncsExactlyWhen` | src/transport/mod.rs:27-32 | over a framed transport the exact condition for syncing, in terms of the pages of the two databases alone |
| `WireSize.FramedOkMeansSynced` | src/protocol/replica.rs:33-42 | over a framed transport two Ok results always mean a synced replica |
| `WireSize.OnceButNotAgain` | src/protocol/messages.rs:147-151 | with 2^23 to 2^25 groups a session into an empty replica syncs, and no session on the resulting pair ever ends Ok |
| `WireSize.FramedResumeExactlyWhen` | src/protocol/messages.rs:147-151 | over a framed transport, after an abort at any point of a session that could sync, a fresh session syncs iff the file left behind has fewer than 2^23 groups |
| `WireSize.SmallOriginResumes` | src/protocol/replica.rs:216-281 | over a framed transport every abort of a session from an origin below that size can be resumed |
| `WireSize.FrameDelivers` | src/transport/mod.rs:18-41 | the session's size test is what taking the message's frame off the buffer amounts to |
| `WireSize.NeededIsDiffering` | src/protocol/origin.rs:267-357 | the list of groups to inspect is, for a collision-free digest, the list of groups whose pages differ |
| `SyncTheorems.Converges` | src/protocol/origin.rs:171-493 | when the transport carries the plan and the replica is no longer than the origin, for every interleaving: stopped iff both sides Ok with the origin's pages up to the limit, 5 + 3n messages, exactly the differing pages written, at most two messages in flight |
| `SyncTheorems.OkMeansTarget` | src/protocol/replica.rs:283-290 | for all databases and transports, two Ok results mean every planned message was carried, the page sizes agree, the replica was no longer, and the file holds the origin's pages up to the limit |
| `SyncTheorems.Terminates` | src/protocol/replica.rs:190-290 | every run makes at most 10 + 6n + d effective moves, and has finished iff it made that many |
| `SyncTheorems.CrashPrefix` | src/protocol/replica.rs:216-281 | for all databases and transports, at every point of every run the file is the origin's pages before some page followed by the old tail, and the pages written are exactly the differing ones before it |
| `SyncTheorems.ResumeAfterAbort` | src/db.rs:231-249 | after an abort anywhere a fresh session meets all conditions again but the size test, and has to send exactly what was not yet written |
| `SyncTheorems.MinimalTransfer` | src/protocol/origin.rs:401-487 | over a run with two Ok results the pages sent are the differing ones, each once, in order, with the snapshot's bytes, and exactly these are acknowledged |
| `SyncTheorems.LongerReplicaPanics` | src/protocol/origin.rs:128-148 | with a longer replica and a transport that carries the plan, every run stops exactly with the origin panicked and the replica cut off |
| `SyncPlan.PlanFits` | src/protocol/origin.rs:365-488 | where the transport carries the plan and the file takes its pages, every honest message is accepted at its turn and answered as planned |
| `SyncPlan.Transfer` | src/protocol/origin.rs:445-456 | the batches of all listed groups concatenate to the difference of the two databases, and none runs past the snapshot iff the replica is no longer |
| `SyncShadow.Shadow` | src/transport/local.rs:56-71 | an oversized message or a refused write only ends one side early: every run agrees, wherever its ends have not failed, with a run without such failures |
| `SyncShadow.OkFollowsPlan` | src/protocol/replica.rs:283-290 | two Ok results mean the whole plan was carried and written |
| `SyncInvariant.RunInv` | src/protocol/replica.rs:45-291 | in every reachable state both logs are prefixes of the planned conversation, both ends stand where the logs say, and the file is what the writes produce |
| `SyncInvariant.NoDeadlock` | src/protocol/origin.rs:365-492 | neither end can move iff both have returned |
| `SyncInvariant.AtMostTwoInFlight` | src/protocol/origin.rs:176-492 | at most two messages are sent and unread in every reachable state |
| `SyncInvariant.StoppedOutcome` | src/protocol/replica.rs:283-290 | a stopped run ended with both sides Ok and all batches written, or with the origin panicked and the replica cut off, depending on the snapshot bounds alone |
| `SyncInvariant.WritesArePrefix` | src/protocol/replica.rs:240-254 | the pages written so far are a prefix of the planned transfer |
| `SyncInvariant.WorkGrows` | src/protocol/replica.rs:190-290 | every effective move is one unit of work |
| `SyncHandlers.HandleGroups` | src/protocol/origin.rs:238-357 | the chunked handler makes the state machine's step for every chunk size |
| `SyncHandlers.HandlePageHashes` | src/protocol/origin.rs:365-465 | validation and page collection make the state machine's step |
| `SyncHandlers.HandleAck` | src/protocol/origin.rs:466-487 | the acknowledgement loop makes the state machine's step |
| `SyncHandlers.HandleHelloAck` | src/protocol/replica.rs:60-181 | version check and chunked hashing make the state machine's step for every chunk size |
| `SyncHandlers.HandleSendPages` | src/protocol/replica.rs:240-254 | writing a batch into the file is the machine's write steps: the same file, and either the full acknowledgement or a failed replica |
| `SyncHandlers.SendHashes` | src/protocol/replica.rs:216-237 | the listing loop produces the state machine's message |
| `PageDiff.CoarsePassExact` | src/protocol/origin.rs:267-357 | the listed groups are strictly increasing, and a group is listed iff the two sides' slices differ (group 0 of an empty origin excepted) |
| `PageDiff.FinePassExact` | src/protocol/origin.rs:401-456 | honest page hashes of a listed group pass validation and are answered with exactly the group's difference up to the page limit, or a panic iff the replica has a page there that the origin lacks |
| `PageDiff.GroupHashDecides` | src/hash.rs:71-88 | group hashes are equal iff the page slices are |
| `PageDiff.ReplicaGroupsHashed` | src/protocol/replica.rs:134-181 | below the page limit group hashing never panics and entry g is the digest of group g |
| `PageDiff.OriginGroupHashed` | src/protocol/origin.rs:113-126 | the origin's group hash is the digest of the same group's page hashes |
| `PageDiff.DiffExact` | src/protocol/origin.rs:128-148 | the difference lists each differing page of a range once, increasing, with the origin's bytes, and no other |
| `PageDiff.DiffPrefix` | src/protocol/replica.rs:240-254 | every prefix of the transfer is the transfer of an initial page range |
| `PageDiff.ApplyDiff` | src/db.rs:231-249 | writing the differing pages below a bound turns the replica into the origin up to there, without a refused write |
| `OriginSide.ComputeNeedFine` | src/protocol/origin.rs:272-357 | the chunked comparison lists the same groups for every chunk size, zero included |
| `OriginSide.FilterInChunks` | src/protocol/mod.rs:32-43 | filtering chunk by chunk is filtering the whole range, for any closure and chunk size |
| `OriginSide.ValidatePageHashes` | src/protocol/origin.rs:37-91 | accepts iff lengths agree and the pages are a contiguous prefix of the group |
| `OriginSide.ComputeFinePages` | src/protocol/origin.rs:401-456 | collects the changed pages listed and then the group's pages after them, or panics iff a listed page is not in the snapshot |
| `OriginSide.CollectChanged` | src/protocol/origin.rs:128-148 | the pages whose hash differs, in order; fails iff one lies beyond the snapshot |
| `OriginSide.ValidatePagesAck` | src/protocol/origin.rs:93-111 | accepts iff the acknowledgement has no duplicates and the same set of pages |
| `OriginSide.AckIsPermutation` | src/protocol/origin.rs:93-111 | for the pages of a batch, the accepted acknowledgements are exactly the permutations |
| `ReplicaSide.ComputeGroupHashes` | src/protocol/replica.rs:134-181 | the chunked hashing yields the same list for every chunk size |
| `ReplicaSide.MapInChunks` | src/protocol/mod.rs:32-43 | mapping chunk by chunk is mapping the whole range, panics included |
| `ReplicaSide.ListGroup` | src/protocol/replica.rs:216-237 | lists the replica's own pages of a group with their hashes |
| `ReplicaSide.ReplicaFile.Write` | src/db.rs:231-249 | page 0 and wrong sizes are refused and change nothing; otherwise the page is overwritten, or the file extended with zeroes in between |
| `Protocol.WriteChangesOnePage` | src/db.rs:231-249 | a write is refused iff the page is 0 or the size wrong; otherwise it changes that page only, and leaves pages of zeroes between the old end and a page past it |
| `ReplicaSide.ReplicaFile.WriteAll` | src/protocol/replica.rs:240-254 | writes a batch in order; on success acknowledges its page numbers, on a refusal the file holds exactly the pages before the refused one |
| `Hashing.HashGroupFor` | src/hash.rs:71-88 | feeding page hashes one at a time digests their concatenation |
| `Hashing.ConcatInjective` | src/hash.rs:71-88 | concatenated 32-byte hashes determine the list of hashes |
| `HaPolicy.LeaseFromObservation` | src/main.rs:622-634 | returns exactly the lease that was observed, for every previous lease |
| `HaPolicy.HaRuntime.UpdateFreshness` | src/ha.rs:823-830 | replaces or clears the freshness record and nothing else |
| `HaPolicy.HaRuntime.ReconcileWithOutcome` | src/ha.rs:862-946 | the in-place reconcile is the reconcile function of the invariants below, state and outcome |
| `HaPolicy.HaRuntime.PlanActions` | src/ha.rs:964-1000 | reconciles and derives the actions of the outcome |
| `HaPolicy.PlanFollowsRole` | src/ha.rs:964-1000 | the plan carries out the change of role: enable at the lease's generation, continue, disable and then ensure replica with the reason, or ensure replica and record the denial |
| `HaPolicy.FenceExactlyWhen` | src/ha.rs:1059-1080 | a lease is expired iff the clock is past renewal plus time to live, never once that exceeds the clock; the fence reports expiry, then a foreign holder, then a generation mismatch |
| `HaPolicy.DenialNamesFailure` | src/ha.rs:1090-1141 | a denied promotion names a condition that fails, with the values compared |
| `HaPolicy.ObservedChange` | src/ha.rs:832-859 | every pair of leases is observed as exactly the change it is: missing, acquired, unchanged, transferred, renewed or replaced |
| `HaPolicy.RuntimeInvariants` | src/ha.rs:862-946 | in every run: a writer holds a lease at its generation that is not past renewal plus time to live; promotion happens iff the lease is held and unexpired and the freshness window and lineage bound are met; a writer stays iff the fence holds; a generation changes only on promotion out of replica |
| `HaPolicy.GenerationNeverDecreases` | src/ha.rs:862-946 | if observed lease generations never go down, neither does the local one, over any run |
| `HaPolicy.RepeatedTick` | src/ha.rs:862-946 | repeating a tick never demotes and is stable from the second time on |
| `HaNode.Node.constructor` | src/ha.rs:1029-1039 | a new node is a replica at generation 0 without a lease |
| `HaNode.Node.RunPlan` | src/ha.rs:641-671 | runs the actions in order under any failures, stopping at the first if told to; the failures reported are actions whose call failed, all of them unless told to stop, and none iff every call completed |
| `HaNode.Node.RunIteration` | src/main.rs:1073-1112 | one loop pass is one iteration of the node model, successful iff every call completed |
| `HaNode.LeaderIsHolder` | src/main.rs:1084-1112 | in every run and whatever fails, after each iteration the gateway's lease is the one read and its leader the holder of that lease, or none |
| `HaNode.AdmitsExactlyWhen` | src/gateway/server.rs:82-92 | a write is admitted, with the node's generation, iff the node is writer and holds the lease at that generation, not past renewal plus time to live |
| `HaNode.EffectsInOrder` | src/main.rs:678-742 | a failing promotion or demotion leaves exactly what precedes the fault: role file, then audit log, then readiness, then the gateway's state |
| `HaNode.RoleFollowsRuntime` | src/main.rs:678-742 | whatever fails, the shared lease equals the runtime's, and the shared role does iff some executor call completed or it did before |
| `HaNode.ErrorFreeIteration` | src/main.rs:1081-1112 | after an error-free iteration role, lease and readiness agree and the gateway admits no more than the runtime allows; it admits exactly that, and the role file agrees, iff a kept writer's generation and file were right before |
| `HaNode.SharedRefinesRuntime` | src/main.rs:678-742 | in every run that lost no promotion since its start or since some completed promotion, each error-free iteration ends with role, generation, lease, admission, readiness and role file equal to the runtime's |
| `HaNode.SharedGeneration` | src/main.rs:678-742 | in every run the gateway's generation is that of the last promotion that completed |
| `HaNode.AdmissionExactlyWhen` | src/main.rs:1081-1112 | over any run, after an error-free iteration the gateway admits exactly when the runtime is writer iff the last completed promotion is the one the runtime writes under |
| `HaNode.LostPromotionSticks` | src/ha.rs:466-500 | one failed role-file write during promotion leaves a writer the gateway refuses after an error-free iteration |
| `HaCluster.TickIsIteration` | src/main.rs:1073-1112 | the separate events of a node's tick amount to one control-loop iteration |
| `HaCluster.SingleWriter` | src/ha.rs:1041-1080 | in every reachable state, stale reads included, at most one node passes the write check, if clocks lag no more than the register's margin |
| `HaCluster.SingleWriterExactlyWhen` | src/ha.rs:1041-1050 | single-writer safety of all clusters and runs holds iff the lag is within the margin |
| `HaCluster.LaggingClockTwoWriters` | src/ha.rs:1041-1050 | a larger lag admits two writers in a concrete run |
| `HaCluster.OneNodePerGeneration` | src/gateway/server.rs:82-92 | over any run, whatever clocks, reads and failures it has, two writes admitted under the same generation come from the same node |
| `HaCluster.NodesFenced` | src/gateway/server.rs:82-92 | with clocks within the margin and an ordered register, over any run, stale reads included, a write admitted later by another node carries a higher generation |
| `HaCluster.AdmissionsFenced` | src/gateway/server.rs:82-92 | with clocks within the margin, an ordered register and monotone reads the generations of admitted writes never go down over a run |
| `HaCluster.FencedExactlyWhen` | src/ha.rs:1059-1080 | generations never go down in all clusters and runs iff clocks are within the margin, the register is ordered and reads are monotone |
| `HaCluster.LaggingClockReorders` | src/ha.rs:1041-1050 | a concrete run in which a lagging clock lets the older lease's node write last |
| `HaCluster.LoweredGenerationReorders` | src/ha.rs:862-946 | a concrete run in which a register that lowers a generation makes admitted generations go down |
| `HaCluster.StaleReadReorders` | src/ha.rs:862-946 | a concrete run in which a restarted node, shown its own older lease, admits a write under a lower generation |
| `HaCluster.RunKeeps` | src/main.rs:1073-1112 | every run, whatever its clocks, keeps the invariant: stored and pending leases and admissions rest on register entries |
| `HaCluster.WriterIsNewest` | src/ha.rs:1041-1080 | with clocks within the margin, a node that passes the check holds a newer entry than any other node's lease or admission rests on |
| `Client.GatewayClient.GetOrConnect` | crates/rsqlite-rsync-client/src/client.rs:81-109 | keeps a live connection; otherwise connects or reports the failure, and remembers the endpoint |
| `Client.GatewayClient.ResetConnection` | crates/rsqlite-rsync-client/src/client.rs:113-116 | forgets connection and endpoint |
| `Client.GatewayClient.ProcessLeaderHeader` | crates/rsqlite-rsync-client/src/client.rs:374-388 | a nonempty hint, normalized, becomes the next endpoint; otherwise discovery starts over |
| `Client.GatewayClient.TryOnce` | crates/rsqlite-rsync-client/src/client.rs:318-365 | one pass through the loop body gives the attempt's verdict, calls the endpoint at hand or the one discovered, and on a further try is disconnected and points at the leader a refusing gateway named, or at discovery |
| `Client.GatewayClient.RetryLoop` | crates/rsqlite-rsync-client/src/client.rs:311-367 | the loop returns the journey's result, executions and attempts, every attempt goes where the one before it was pointed, and the waits between attempts double under the cap |
| `Client.AtMostOnce` | crates/rsqlite-rsync-client/src/client.rs:311-367 | a non-idempotent write runs at most once, once on success, never on exhausted retries or a bad endpoint, within the retry bound |
| `Client.WriterIsReached` | crates/rsqlite-rsync-client/src/client.rs:311-367 | a write that is first turned away, by failed connections and gateways that are not writer, runs exactly once and succeeds with the writer's generation at the first writer it reaches within the permitted attempts |
| `Client.ExhaustedExactlyWhen` | crates/rsqlite-rsync-client/src/client.rs:323-358 | retries are exhausted iff every permitted attempt, at least one, fails to connect or is refused by a gateway that is not writer (or, with the flag, loses its reply) |
| `Client.FirstSettledDecides` | crates/rsqlite-rsync-client/src/client.rs:311-367 | the first attempt that is not turned away is the last one made and decides the result: success, bad endpoint or the error met |
| `Client.RefusalPointsAtHolder` | src/gateway/server.rs:51-92 | in every run of a node a refused write did not run and is told NOT_LEADER with the endpoint of the holder of the lease last read, and the client's next attempt goes there |
| `Client.HintKept` | src/main.rs:1097-1107 | the endpoint a gateway names is not changed by the client |
| `Client.NormalizedOnce` | crates/rsqlite-rsync-client/src/discovery.rs:71-78 | normalizing trims and adds a missing scheme, nothing else, and is idempotent |
| `Client.AtLeastOnce` | crates/rsqlite-rsync-client/src/error.rs:110-117 | with either flag a success means the write ran, and it runs at most once per attempt |
| `Client.IdempotentFlagRepeats` | src/gateway/server.rs:128-147 | one lost reply makes a write sent as idempotent run twice, and only once otherwise |
| `Client.ReplyTellsIfRun` | src/gateway/server.rs:82-147 | a write runs iff it reaches a writer whose engine applies it; success means it ran, NOT_LEADER that it did not |
| `Client.WaitsDouble` | crates/rsqlite-rsync-client/src/client.rs:391-393 | in closed form: after the first, each wait is the initial one doubled that many times, under the maximum |
| `Frames.FramedStream.TryTakeFramedMessage` | src/transport/mod.rs:18-41 | takes a frame off the buffer in place, or leaves the buffer alone |
| `Frames.FramedStream.Receive` | src/transport/local.rs:56-71 | the read loop is the receive function, buffer and unread pieces included, with a read error told apart from the end of the stream |
| `Frames.CompleteFrame` | src/protocol/messages.rs:121-162 | a complete frame yields its message and exactly the rest of the buffer if the payload is within the limit, and is refused with the buffer unchanged otherwise |
| `Frames.PartialFrame` | src/transport/mod.rs:18-41 | a proper prefix of a frame is left unchanged and asks for more |
| `Frames.OversizedFrame` | src/transport/mod.rs:27-32 | an oversized frame is refused as soon as its length has arrived, the buffer unchanged |
| `Frames.UndecodableFrame` | src/protocol/messages.rs:133-162 | a complete frame whose payload does not decode is refused, the buffer unchanged |
| `Frames.CutOffFrame` | src/transport/local.rs:56-71 | a stream that stops within a frame is reported closed if it ended and failed if reading failed, with everything that arrived in the buffer |
| `Frames.RecvNext` | src/transport/local.rs:56-71 | the next message arrives whatever the split, the rest intact |
| `Frames.Reassembly` | src/transport/local.rs:56-71 | any split of concatenated frames into non-empty reads yields exactly the messages in order, ending with an empty buffer |
| `Frames.LeRoundTrip` | src/protocol/messages.rs:121-131 | the length prefix reads back and is written low byte first |
| `Batch.RunBatchSync` | src/batch.rs:254-290 | for any completion order every entry starts once, the peak is min(n, max(jobs, 1)), result i stands at position i and succeeded iff one of entry i's attempts did, and the totals are the numbers of entries that succeeded and failed |
| `Batch.CompleteOne` | src/batch.rs:271-276 | whichever entry completes, entries stay started once each and the slots stay full while entries are pending |
| `Batch.RunOne` | src/batch.rs:292-373 | an entry succeeds iff one of its retries + 1 attempts (at most u32::MAX) does, stops at the first success and otherwise uses all, and waits the retry delay after every failed attempt but the last |
| `Batch.WaitsInOrder` | src/batch.rs:304-353 | an entry's waits are those of its failed attempts, in order; without a nonzero base there are none |
| `Batch.WaitInSpread` | src/batch.rs:392-429 | the wait after an attempt lies within the jitter spread of that attempt's documented delay |
| `Batch.WaitsExactlyWhen` | src/batch.rs:304-313 | an entry waits after a failed attempt exactly when a nonzero base is configured; a zero cap is no cap |
| `Batch.DelayRange` | src/batch.rs:392-429 | over all clock readings the waits are exactly the values within the jitter spread of the delay, clamped to 0 and u64, and there are none iff the delay is 0 |
| `Batch.NeverSaturates` | src/batch.rs:392-416 | for every duration and percentage no 128-bit operation saturates and neither the signed casts of delay, spread and drawn offset nor the sum overflow, so delay and spread are the documented ones |
| `Batch.BackoffGrows` | src/batch.rs:399-405 | later attempts never wait less before jitter |
| `Batch.BackoffDoubles` | src/batch.rs:399-401 | without a cap the delay doubles up to attempt 32 |
| `Streaming.Query` | src/gateway/engine.rs:123-177 | returns a prefix of the rows, of min(max_rows, all) rows or all for 0, and their number |
| `Streaming.StreamQueryChunks` | src/gateway/engine.rs:180-252 | the chunks concatenate to the plain query's rows; all but the last are full, only the last is marked and short, only the first has columns, totals are running lengths |
| `SqlSplit.SplitSqlStatements` | src/cli/client.rs:1124-1163 | the scanning loop is the split function |
| `SqlSplit.SplitAtSeparators` | src/cli/client.rs:1124-1163 | for every reading of a text as plain text, quotations and separators (the last quotation possibly open), the split cuts exactly at the separators, trims, and drops what is empty |
| `SqlSplit.SplitExactly` | src/cli/client.rs:1124-1163 | every text has such a reading, and splits so |
| `SqlSplit.QuotedNeverCut` | src/cli/client.rs:1132-1143 | a quotation among plain text stays in one statement, whatever semicolons and other quotes it contains |
| `SqlSplit.SplitJoin` | src/cli/client.rs:1124-1163 | splitting the join of trimmed, non-empty statements without unquoted semicolons and with closed quotes (the last may leave one open) returns them |
| `SqlSplit.SplitIsScript` | src/cli/client.rs:1124-1163 | every split is such a list, and splitting its join returns it |
| `KvText.ParseKvLines` | src/kv_text.rs:20-48 | the line loop collects the fields or fails at the first bad line |
| `KvText.LineVerdict` | src/kv_text.rs:27-45 | blank lines are ignored; a line without `=` or with an unknown key is an error; any other sets its key, split at the first `=` and trimmed, over an earlier value |
| `KvText.RecordText` | src/ha.rs:200-228 | the serialized text with its four keys in order, and fields make a record iff all four keys are present, the holder is not empty and the numbers parse |
| `KvText.ParsesExactlyWhen` | src/kv_text.rs:51-55 | a printed number parses, with or without a plus sign, iff it fits 64 bits; an empty text or one with other characters does not |
| `KvText.AnyOrderParses` | src/ha.rs:208-228 | a lease with a clean holder parses back from its lines in any order |
| `KvText.RoundTripExactlyWhen` | src/ha.rs:200-228 | parsing the serialized lease returns it iff the holder is non-empty, trimmed and free of newlines |
| `KvText.ParsedHolderIsClean` | src/kv_text.rs:51-64 | every lease that parses has such a holder |
| `KvText.ShowParses` | src/kv_text.rs:51-55 | a printed number consists of digits and reads back |

## Left out

- SQLite, its FFI, WAL and snapshot transactions: a connection is a page sequence and the snapshot a fixed one; `write_page` byte offsets become page indices.
- BLAKE3, SHA-256 and bincode: a digest and a codec are parameters; the collision and decode-after-encode assumptions are preconditions of the lemmas that need them. Payload sizes follow bincode's published format.
- The size limits of the gRPC transport: a session's size test is a parameter, and only the framed one is worked out.
- The length of error texts: error messages always pass the size test.
- Builds with overflow checks, where the `u32` products of a database beyond the page limit panic instead of wrapping; within it none overflows.
- Sends to a peer that has already returned always succeed in the session model; receiving from one fails.
- Local syncs keep both transports open until both ends return (src/lib.rs:196-226), so there a peer that fails without an error message leaves the other waiting for the timeout; the model reports a closed connection instead.
- SSH, stdio and gRPC plumbing, TLS, timeouts, tokio and rayon scheduling: channels are FIFO and both closures handed to `compute_with_parallelism` are one function.
- The lease register itself: its rules are guards of the cluster's `Grant` event.
- Write timing after admission: the gateway checks the fence before the write is spawned, so admission is what the cluster theorems speak about.
- The first tick before the control loop, the readiness HTTP server, audit log contents, Kubernetes lease JSON and RFC 3339 times.
- Freshness files and the `none` marker of `read_optional_kv_text`; only the lease text format is modelled.
- Error message texts: errors are enumerations.
- Leader discovery: how connecting goes is an input of each attempt. A node name that is not a legal header value, for which the gateway omits the hint, is not modelled.
- `DatabaseEngine::batch` atomicity, parameter binding, value conversion, read access checks, authentication and path checks.
- Manifest and endpoint parsing, CLI and REPL output, connection pools, the blocking client wrapper.
- Batch.RunOne: what an attempt meets is an input, and a timed-out attempt is a failed one; entry ids and error texts are not modelled.

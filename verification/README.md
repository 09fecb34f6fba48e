# Verified model of the AIDAR coordinator, cache and transfer cores

A Dafny model of the stateful cores of AIDAR, a distributed workload engine, with proofs of what
each core promises. One module stands for one component; objects that the program updates in place
are classes with the same fields, and every method is proved against a specification on values,
about which the main results are then proved.

| file | component |
|---|---|
| `Apportionment.dfy`, `Sizing.dfy` | cluster sizing: largest-remainder allocation, wall-clock model, choice of a group size |
| `SingleFlight.dfy` | coalescing of concurrent operations per key, as atomic steps between await points |
| `CacheIndex.dfy`, `CacheStorage.dfy`, `CacheEviction.dfy`, `CacheVerifier.dfy`, `CacheStore.dfy` | the content-addressed disk cache: row states, batched eviction under a quota, scrubbing, reconciliation |
| `Dependencies.dfy` | depth-first validation of pipeline dependencies |
| `Numerals.dfy`, `ByteRange.dfy`, `Transfer.dfy` | decimal numerals, range requests (section 14.1.2 of RFC 9110), chunked serving, resumed downloads, commit and failover |
| `Registry.dfy`, `AssetLocation.dfy`, `Placement.dfy` | worker inventories with their inverted index, batch asset location, group placement |
| `Jobs.dfy`, `Artifacts.dfy`, `ArtifactGc.dfy` | derived job state and the three-stage collection of artifact records |
| `Attempts.dfy`, `Recovery.dfy` | attempt numbering and restart of the coordinator over a persisted store |
| `ReplayGuard.dfy` | the pruned nonce table |
| `Ordering.dfy`, `Wrappers.dfy` | stable sorting by a two-level key; option and result types |

`dafny verify dfyconfig.toml` checks everything.

## What the model found

Places where the code falls short of what its own text or its neighbours suggest, with the lemmas that
give the exact condition, a concrete input, or both.

- Eviction passes over rows whose state cannot move to EVICTING, and a batch of 100 such rows at the
  head of the order ends it. It meets a target exactly when enough bytes are reachable, not when
  enough bytes are stored (`TargetMetIffReachable`, `CorruptedRowBlocksEviction`).
- `put_stream` caps a stream at the quota whatever its sign, while `enforce_quota` takes a quota of 0 or
  less for unbounded. For new content the stream route and the file route differ exactly when the quota is
  not positive and the content is not empty; for content already there also when it is longer than a
  positive quota (`RoutesAgreeIff`, `NewContentAgreesIff`, `ZeroQuotaDiffers`).
- A leader cancelled while it waits to clean up leaves its finished entry in the table; the table is empty
  again in every other case, and the next caller is not misled (`NothingLeaks`, `CancelledCleanUpLeavesEntry`).
- `verify_all` fails on an intact file whose row is ABSENT, TRANSFERRING or CORRUPTED, because it does
  not pass through VERIFYING (`ScrubRefusals`).
- A download that asks for an offset without holding a partial file of that length accepts any 206
  body without checking its digest (`VerificationGuard`), and a resume at the full length is refused
  with 416 (`NothingLeftIsRefused`).
- Registering a DEAD worker again makes it HEALTHY with its old penalty; no other operation
  makes a HEALTHY record carry a degrading penalty (`RegistrationKeepsHealthHonestIff`, `HonestRunIff`).
- A staging file survives a transfer exactly when one of the sources tried meets a failure and a refused
  removal as `LeavesFile` spells out, and `store_bytes` also leaves a file it could not write completely
  (`TransferWithFailover` and `StoreBytes` with `StoreLeavesFile` for the condition, `FilesAreLeft` for inputs).
- The number of a new attempt is the count of listed attempts plus one, so it replaces an existing
  record once restored numbers have a gap; a single unreadable row makes one (`SafeForeverIff`,
  `UnreadableRowBreaksNumbering`).
- A worker that has become SUSPECT is never restored by successful transfers, only by the decay of its penalty (`SuccessesRecover`).
- A member workload in TIMEOUT, should one occur, counts as not begun, so its job is never over (`SubmittedIff`, `TerminalIff`).
- A workload in CANCELLATION_REQUESTED is submitted again by a restart (`CancellationRequestIsDriven`).
- An artifact once marked for collection is purged on schedule even if the same output is recorded
  again meanwhile (`MarkedIsGoneOnSchedule`).

## Model

| member | source | states |
|---|---|---|
| `Apportionment.Apportion` | src/aidars/distributed/sizing.py:361-369 | the allocation loop returns the largest-remainder allocation: right total, floor or floor plus one, leftovers by larger fraction then lower index |
| `Apportionment.LeftoverBound` | src/aidars/distributed/sizing.py:363-369 | the leftover units are fewer than the workers, so the loop never runs off the order |
| `Apportionment.QuotasAddUp` | src/aidars/distributed/sizing.py:361 | the real quotas sum to exactly the number of units |
| `Apportionment.FloorOrCeiling` | src/aidars/distributed/sizing.py:361-369 | each worker gets the floor or the ceiling of its quota |
| `Apportionment.LargerQuotaNoFewerUnits` | src/aidars/distributed/sizing.py:361-369 | a strictly larger quota never gets fewer units |
| `Apportionment.LargestRemainderUnique` | src/aidars/distributed/sizing.py:361-369 | the allocation is the only one with those properties, so ties are settled deterministically |
| `Apportionment.LeastTotalDeviation` | src/aidars/distributed/sizing.py:361-369 | no integer allocation of the same total has a smaller total absolute deviation from the quotas |
| `Sizing.EvaluateGroup` | src/aidars/distributed/sizing.py:356-426 | a group is evaluated with the largest-remainder shares, each finish time, and a wall clock that is the latest finish plus coordination |
| `Sizing.EvaluateSizes` | src/aidars/distributed/sizing.py:351-426 | every size 1..max is evaluated over the best-ranked prefix, with speedup, marginal gain and deadline flags relative to its neighbours |
| `Sizing.WallAtLeastIdealSplit` | src/aidars/distributed/sizing.py:376-399 | wall time is at least the perfectly divided work plus coordination |
| `Sizing.WallAtLeastTransfer` | src/aidars/distributed/sizing.py:376-399 | wall time is at least the largest transfer plus coordination |
| `Sizing.WallAtMost` | src/aidars/distributed/sizing.py:376-399 | wall time is at most largest transfer, divided work, one unit on the slowest worker and coordination |
| `Sizing.DecideByDeadline` | src/aidars/distributed/sizing.py:433-475 | the smallest size within the safety target, else within the deadline, else the first fastest |
| `Sizing.DecideByEfficiency` | src/aidars/distributed/sizing.py:476-492 | growth stops exactly where the next size is no faster or gains less than the threshold |
| `Sizing.AchievableExactly` | src/aidars/distributed/sizing.py:433-475 | for a non-negative safety margin, achievable means some size meets the deadline |
| `Sizing.WallDecays` | src/aidars/distributed/sizing.py:476-492 | up to the chosen size walls strictly fall, and the k-th is at most (1 - threshold)^(k-1) of the first |
| `Sizing.EfficiencyPaysOff` | src/aidars/distributed/sizing.py:476-503 | for the whole decision without a deadline: every recruited worker shortens the wall clock and the gains compound |
| `Sizing.EfficiencyStopsExactly` | src/aidars/distributed/sizing.py:476-503 | without a deadline the chosen size is the first whose successor does not cut the threshold fraction off the wall clock, and the decision is feasible |
| `Sizing.DeadlineVerdict` | src/aidars/distributed/sizing.py:428-475 | a whole decision with a deadline is achievable exactly when some evaluated size meets it, and then the chosen one does; it is reported infeasible exactly when every size misses it |
| `Sizing.Cap` | src/aidars/distributed/sizing.py:345-349 | the largest size considered is the largest within the number of workers and the maximum that leaves every worker its minimum units, and one if there is none |
| `Sizing.RankingFacts` | src/aidars/distributed/sizing.py:276-286 | the ranking holds exactly the eligible profiles as the timing model describes them (bytes of the inputs not cached, time to move them, speed of at least 0.01), by the time each would need alone and then by id, no id twice for distinct profiles |
| `Sizing.BytesAdd` | src/aidars/distributed/sizing.py:266-268 | missing bytes are the total of the known sizes: nothing for no hash, and each further hash adds its size, or nothing if it is unknown |
| `Sizing.DescribedIff` | src/aidars/distributed/sizing.py:266-277 | the figures computed for a worker are exactly those that describe its profile: bytes of uncached inputs, a transfer time that moves them at the bandwidth, and the larger of 0.01 and its multiplier |
| `Sizing.DecideSolo` | src/aidars/distributed/sizing.py:288-341 | an indivisible workload goes to the first ranked worker with every unit |
| `Sizing.SoloTakesTheBest` | src/aidars/distributed/sizing.py:279-303 | that worker is eligible and no eligible profile, with its missing bytes, transfer time and speed, would be done sooner alone |
| `Sizing.SoloIsGroupOfOne` | src/aidars/distributed/sizing.py:279-303 | the time a worker needs alone, by which workers are ranked, is the wall clock of the group of that worker only |
| `Sizing.DeadlineMeans` | src/aidars/distributed/sizing.py:219-221 | an allowance is the deadline, else a moment is: a time fits if and only if it ends by then |
| `Sizing.SizeCluster` | src/aidars/distributed/sizing.py:192-536 | the three outcomes over the ranking of exactly the eligible workers: unschedulable if and only if there is none, solo, or a partitioned decision, each with its whole report |
| `Sizing.DecisionAllocatesEveryUnit` | src/aidars/distributed/sizing.py:361-399 | the members of the chosen group together get every unit, in the order they are selected |
| `Sizing.SelectedAndSpareCover` | src/aidars/distributed/sizing.py:503-505 | selected then spare workers are exactly the eligible workers, once each, in the order of the ranking |
| `SingleFlight.SingleFlight.RunShared` | src/aidars/distributed/singleflight.py:40-55 | the critical section: follow the unfinished flight of the key or start one |
| `SingleFlight.SingleFlight.Execute` | src/aidars/distributed/singleflight.py:57-74 | the owner publishes a result, an error or its cancellation unless the future is done |
| `SingleFlight.SingleFlight.Finalise` | src/aidars/distributed/singleflight.py:75-78 | clean-up drops the table entry only if it is still the owner's |
| `SingleFlight.InvStep` | src/aidars/distributed/singleflight.py:40-78 | every step of every caller keeps the protocol invariant |
| `SingleFlight.OneOperationPerKey` | src/aidars/distributed/singleflight.py:40-56 | in every interleaving at most one operation per key is unfinished |
| `SingleFlight.ArrivalsCoalesce` | src/aidars/distributed/singleflight.py:40-56 | a caller arriving while an operation for its key runs follows that operation |
| `SingleFlight.LeadersStartFresh` | src/aidars/distributed/singleflight.py:40-56 | a caller starts an operation only if none is unfinished for its key |
| `SingleFlight.NoFollowerIsStranded` | src/aidars/distributed/singleflight.py:40-78 | whoever waits has a result ready or an owner still running |
| `SingleFlight.CleanUpSparesNewerFlights` | src/aidars/distributed/singleflight.py:75-78 | in every run an owner's clean-up leaves the table entry, and the unfinished flight, of everyone still running in place |
| `SingleFlight.DoneFlightsStayDone` | src/aidars/distributed/singleflight.py:57-78 | a decided future is never decided again, over any further run |
| `SingleFlight.FollowerGetsItsFlightsOutcome` | src/aidars/distributed/singleflight.py:40-78 | a follower receives the outcome its owner completed with, and of no other flight |
| `SingleFlight.LeaderGetsItsOwnOutcome` | src/aidars/distributed/singleflight.py:57-78 | over every run, whoever runs the operation is handed exactly the outcome it completed with, unshared, and keeps it |
| `SingleFlight.SharedIff` | src/aidars/distributed/singleflight.py:50-67 | over every run a result is reported as shared exactly when the caller followed a flight of someone else |
| `SingleFlight.CancelledEndsCancelled` | src/aidars/distributed/singleflight.py:40-78 | over every run a cancelled caller ends cancelled |
| `SingleFlight.CallersKeepTheirKey` | src/aidars/distributed/singleflight.py:30-55 | over every run a caller leads, follows and cleans up for the key it called with |
| `SingleFlight.NothingLeaks` | src/aidars/distributed/singleflight.py:75-78 | when everyone is done the table is empty, unless someone was cancelled while waiting to clean up |
| `SingleFlight.CancelledCleanUpLeavesEntry` | src/aidars/distributed/singleflight.py:75-78 | a run in which a cancelled clean-up leaves its entry behind, and the next caller starts afresh all the same |
| `CacheIndex.MetadataIndex.Put` | src/aidars/cache/index.py:107-143 | the upsert: a new row or a replaced one with the hit count carried on, whatever state the old row was in |
| `CacheIndex.MetadataIndex.UpdateStatus` | src/aidars/cache/index.py:212-244 | a state change is refused exactly for the transitions the table forbids, and nothing else in the row changes |
| `CacheIndex.TransitionsByTarget` | src/aidars/cache/index.py:226-237 | the transition table read by target: from which states each state can be reached |
| `CacheIndex.MetadataIndex.GetLruCandidates` | src/aidars/cache/index.py:250-261 | the first rows of the least-recently-used order |
| `CacheIndex.MetadataIndex.GetTotalSize` | src/aidars/cache/index.py:267-274 | the sum of all row sizes |
| `CacheIndex.LruOrderListsRows` | src/aidars/cache/index.py:250-261 | the order lists every row once |
| `CacheIndex.LruOrderSorted` | src/aidars/cache/index.py:250-261 | the order is by access time and then by hash |
| `CacheIndex.LruOrderRemove` | src/aidars/cache/index.py:200-210 | deleting a row closes its gap in the order and moves nothing else |
| `CacheIndex.TotalRemove` | src/aidars/cache/index.py:200-210 | deleting a row lowers the total by its size |
| `CacheIndex.TotalPut` | src/aidars/cache/index.py:107-143 | an upsert raises the total by the new size less the size it replaces |
| `CacheStorage.ObjectStorage.StageStream` | src/aidars/cache/storage.py:154-224 | a stream is read up to its first empty chunk and refused for exceeding the cap, a wrong digest or a wrong size, in that order |
| `CacheStorage.VerdictMeans` | src/aidars/cache/storage.py:154-224 | content passes exactly when it is as expected and within the cap, and each refusal has its own reason |
| `CacheStorage.ContentOfAll` | src/aidars/cache/storage.py:154-224 | non-empty chunks are delivered whole and in order, and an empty one ends the stream |
| `CacheStorage.ObjectStorage.Delete` | src/aidars/cache/storage.py:101-125 | deleting fails only on a file held open, and then changes nothing |
| `CacheEviction.LruEvictor.EvictCandidate` | src/aidars/cache/eviction.py:50-79 | one candidate is dropped with its file, refused by its state and left unchanged, or put back with an access recorded when its file is locked |
| `CacheEviction.LruEvictor.EvictToFree` | src/aidars/cache/eviction.py:31-86 | under any states and lock failures it terminates, drops only evictable rows with their files, leaves other rows but for recorded accesses to held ones, returns exactly the fall of the index total and drops nothing once the target is met; if short of the target, each row of its last batch, which is all that was left or 100 rows, is in a state that forbids eviction or has a file that another process can hold; without locks it removes the planned rows |
| `CacheEviction.VictimsAreShortestPrefix` | src/aidars/cache/eviction.py:31-86 | the planned rows are the shortest prefix of the reachable rows that meets the target, or all of them |
| `CacheEviction.ReachableExactly` | src/aidars/cache/eviction.py:31-86 | a row is reachable exactly when it is VALID or EVICTING and fewer than 100 rows that are neither come before it |
| `CacheEviction.AllValidPlan` | src/aidars/cache/eviction.py:31-86 | when every row is VALID they are the shortest such prefix of the whole order |
| `CacheEviction.PlannedFrees` | src/aidars/cache/eviction.py:31-86 | removing the planned rows lowers the total by the sum of their sizes |
| `CacheEviction.TargetMetIffReachable` | src/aidars/cache/eviction.py:31-86 | the target is met exactly when enough bytes are reachable |
| `CacheEviction.AllValidBytes` | src/aidars/cache/eviction.py:31-86 | when every row is VALID every byte is reachable |
| `CacheEviction.CorruptedRowBlocksEviction` | src/aidars/cache/index.py:226-237 | a CORRUPTED row holds bytes eviction cannot free |
| `CacheEviction.LruEvictor.EnforceQuota` | src/aidars/cache/eviction.py:88-121 | room is granted exactly when total and incoming bytes then fit a positive quota, and without locks exactly when they can fit; nothing is dropped when they fit as they are, nor beyond the room needed |
| `CacheVerifier.IntegrityVerifier.VerifyEntry` | src/aidars/cache/verifier.py:48-118 | one entry is checked through VERIFYING: success means size and digest match and the row is VALID, failure drops the entry or marks it, only EVICTING refuses |
| `CacheVerifier.IntegrityVerifier.VerifyAll` | src/aidars/cache/verifier.py:120-190 | a scrub judges every row, and with eviction leaves only verified ones |
| `CacheVerifier.ScrubRefusals` | src/aidars/cache/verifier.py:120-190 | the states in which an intact or a damaged file makes the scrub fail, with eviction of damaged entries and without |
| `CacheVerifier.SmallerTotal` | src/aidars/cache/index.py:267-274 | an index with fewer rows of unchanged size has no larger total |
| `CacheStore.DiskCacheStore.GetBytes` | src/aidars/cache/store.py:88-94 | a read records the access of a valid entry alone and returns its object, or returns nothing and changes nothing; only a file held open makes it fail |
| `CacheStore.DiskCacheStore.Admit` | src/aidars/cache/store.py:115-143 | what the put routes share: a valid duplicate is only touched; otherwise room is made as far as needed, the entry is valid, holds the data and the cache is within its quota, and no other entry changes; only a lack of room or a stale object held open refuses it, and without locks exactly a lack of room |
| `CacheStore.DiskCacheStore.FittingDataDisturbsNothing` | src/aidars/cache/store.py:115-143 | new data that fits as it is leaves every other row and object as it was |
| `CacheStore.DiskCacheStore.CrowdedDataFollowsPlan` | src/aidars/cache/store.py:115-143 | otherwise, without locks, the other rows left are exactly those of the eviction plan, and exactly the files of dropped rows are gone |
| `CacheStore.DiskCacheStore.OthersStayOrGo` | src/aidars/cache/store.py:115-143 | under any locks every other entry keeps size, state and object or is evicted whole from an evictable state |
| `CacheStore.DiskCacheStore.PutBytes` | src/aidars/cache/store.py:96-143 | refused unchanged exactly for a wrong expected hash, otherwise answered by room, and under locks also by a stale object held open; a put ends valid and within quota and disturbs other entries only to make the room needed |
| `CacheStore.DiskCacheStore.PutFile` | src/aidars/cache/store.py:145-202 | the file route: refused unchanged for a wrong hash or size, otherwise answered by room, and under locks also by a stale object held open; other entries go only to make the room needed; without locks it succeeds if and only if the acceptance rule without a cap says so |
| `CacheStore.DiskCacheStore.PutStream` | src/aidars/cache/store.py:204-251 | the stream route: too large if and only if the content is non-empty and longer than the quota, whatever its sign, and then nothing changes; a stale object held open can refuse it under locks; other entries go only to make the room needed; without locks it succeeds if and only if the acceptance rule capped at the quota says so |
| `CacheStore.DiskCacheStore.RoutesAgreeIff` | src/aidars/cache/store.py:145-251 | the two streamed routes take the same content except exactly when it is longer than the quota, as expected, not known by hash, and the quota is not positive or the content is there already |
| `CacheStore.DiskCacheStore.NewContentAgreesIff` | src/aidars/cache/store.py:145-251 | for new content they differ exactly when the quota is given, not positive, and the content is not empty |
| `CacheStore.DiskCacheStore.ZeroQuotaDiffers` | src/aidars/cache/eviction.py:95-96 | an input on which they differ: one byte under a quota of 0 |
| `CacheStore.DiskCacheStore.Remove` | src/aidars/cache/store.py:266-272 | a removal drops file and row together or, on a locked file, neither |
| `CacheStore.DiskCacheStore.Scrub` | src/aidars/cache/store.py:257-264 | a completed scrub with eviction leaves every row VALID with matching size and digest; without locks it keeps exactly the intact entries, and without eviction marks the others by what is wrong with them |
| `CacheStore.DiskCacheStore.Verify` | src/aidars/cache/store.py:253-255 | verifying one entry succeeds, without locks, exactly for a matching file, refuses exactly an EVICTING row, touches no file and changes no other row |
| `CacheStore.DiskCacheStore.Reconcile` | src/aidars/cache/store.py:322-385 | afterwards indexed and stored hashes agree, with hash checking every row is valid and true to its object, and the report counts what was dropped |
| `CacheStore.DiskCacheStore.ConsistentLosesNothing` | src/aidars/cache/store.py:322-385 | reconciling a consistent cache changes no row and reports nothing |
| `CacheStore.DiskCacheStore.ReconcileAgain` | src/aidars/cache/store.py:322-385 | a second reconciliation removes nothing |
| `CacheStore.DiskCacheStore.RunHistory` | src/aidars/cache/store.py:96-385 | every run of operations that starts within quota, with every object under its own hash, stays so |
| `Dependencies.Visitor.Visit` | src/aidars/distributed/models.py:841-852 | the recursive visit terminates on every graph; a raised error has a real cycle or a real unknown dependency |
| `Dependencies.PathsGoBackwards` | src/aidars/distributed/models.py:841-855 | in the finish order every walk leads strictly backwards |
| `Dependencies.CompleteOrderProves` | src/aidars/distributed/models.py:841-855 | a complete finish order proves the graph closed and acyclic |
| `Dependencies.ValidateDependencyGraph` | src/aidars/distributed/models.py:837-855 | the check returns normally if and only if every dependency is known and the graph has no cycle |
| `Dependencies.ValidatePlan` | src/aidars/distributed/models.py:814-834 | a plan is accepted if and only if it has a workload and 1 to 64 workers, its shape fits and, for a pipeline, its dependencies are closed and acyclic; otherwise the first fault in the order of the checks is reported |
| `Dependencies.ClosedIffKnown` | src/aidars/distributed/models.py:829-834 | for distinct ids the dependencies stay inside the plan exactly when the graph handed to the check has only known ones |
| `Dependencies.BackwardPlansAreSound` | src/aidars/distributed/models.py:814-834 | every pipeline of distinct workloads that depend on earlier ones alone is accepted |
| `Numerals.NumeralRoundTrip` | src/aidars/distributed/transfer.py:106-153 | a number written in decimal reads back as itself |
| `ByteRange.ParseByteRange` | src/aidars/distributed/transfer.py:106-153 | a parsed range lies inside the asset and its length is its extent |
| `ByteRange.OpenRangeUnderstood` | src/aidars/distributed/transfer.py:106-153 | the header a resuming client sends is read as the suffix from its offset, or as unsatisfiable |
| `ByteRange.ClosedRangeUnderstood` | src/aidars/distributed/transfer.py:106-153 | a closed range is clipped to the asset and refused when empty or past the end |
| `ByteRange.MatchRangeIff` | src/aidars/distributed/transfer.py:30-30 | a header is understood exactly when it is the unit, a number, a dash and a number or nothing |
| `ByteRange.WholeOrMalformed` | src/aidars/distributed/transfer.py:121-131 | no header asks for the whole asset, and a header of any other form is malformed |
| `ByteRange.SpacesIgnored` | src/aidars/distributed/transfer.py:121-131 | white space around a header makes no difference, and a header of nothing else is no header |
| `Transfer.GenerateBoundedChunks` | src/aidars/distributed/transfer.py:156-181 | for every pattern of short reads the chunks concatenate to exactly the requested bytes, each chunk is bounded, and the handle is closed |
| `Transfer.ServeAsset` | src/aidars/distributed/server.py:113-222 | the response body is exactly the part of the asset the header asks for, with the right status and length |
| `Transfer.OpenRangeServesSuffix` | src/aidars/distributed/server.py:150-222 | an open range is answered with the asset's suffix |
| `Transfer.WholeAssetServed` | src/aidars/distributed/server.py:150-222 | without a header, or with one that is no byte range, the whole asset is served with 200 |
| `Transfer.ClosedRangeServesSlice` | src/aidars/distributed/server.py:150-222 | a closed range is answered with exactly those bytes, clipped at the end |
| `Transfer.NothingLeftIsRefused` | src/aidars/distributed/server.py:150-222 | asking for the suffix of a complete asset is refused |
| `Transfer.LocalCas.Download` | src/aidars/distributed/transfer.py:230-361 | a download returns the staged file and its digest exactly as the acceptance rule and the faults say; a failed one leaves the staging directory as it was if and only if it had opened no file or the removal was not refused |
| `Transfer.AcceptedIsVerified` | src/aidars/distributed/transfer.py:262-344 | a return after a start at zero, a matching prefix or a 200 has the requested digest, so without collisions it is the asset whatever the peer sent |
| `Transfer.AcceptedFromStartIff` | src/aidars/distributed/transfer.py:262-344 | a download from the start is accepted exactly from an unbroken 200 or 206 of the announced length with the requested digest, and yields its body |
| `Transfer.RefusalHasReason` | src/aidars/distributed/transfer.py:286-344 | a download is refused for its status, its stream or its digest, each exactly in its own case |
| `Transfer.WholeAssetDownloads` | src/aidars/distributed/transfer.py:262-344 | what a server sends without a range header is accepted as the asset |
| `Transfer.VerificationGuard` | src/aidars/distributed/transfer.py:262-344 | success proves the digest for every response if and only if the offset is zero or a matching partial file exists |
| `Transfer.ResumeRebuildsAsset` | src/aidars/distributed/transfer.py:262-344 | prefix and resumed stream rebuild the asset, also when the peer answers 200 to the range request |
| `Transfer.LocalCas.CommitStagedFile` | src/aidars/distributed/cas_adapter.py:221-279 | a commit installs only a file that hashes to its name; outcome and staging directory follow exactly from the objects, the file and the faults, a refused removal being raised |
| `Transfer.CommittedIff` | src/aidars/distributed/cas_adapter.py:221-279 | a commit takes exactly a readable file with the right digest that can be moved into place or, as a copy, removed |
| `Transfer.LocalCas.TransferFromCandidate` | src/aidars/distributed/transfer.py:364-447 | one source succeeds if and only if the asset is present or its complete response has the digest and no local write, read or move fails, and then its body is the object; failure leaves the objects unchanged; nothing is left staged if and only if the leaving condition does not hold |
| `Transfer.LocalCas.TransferWithFailover` | src/aidars/distributed/transfer.py:450-514 | the first source that delivers is used and its body installed; a faultless source with a complete response of the digest suffices; an exhausted run changes no object; nothing is left staged if and only if none of the sources tried leaves a file |
| `Transfer.LocalCas.DeleteAsset` | src/aidars/distributed/cas_adapter.py:342-363 | deletion removes one object or, when the file is held, nothing |
| `Transfer.LocalCas.StoreBytes` | src/aidars/distributed/cas_adapter.py:281-289 | bytes are stored under their own digest exactly when they could be written, read back and moved into place or, as a copy, removed; a failure leaves the objects unchanged; nothing is left staged if and only if the leaving condition does not hold |
| `Transfer.NothingIsLeftWithoutFaults` | src/aidars/distributed/transfer.py:364-447 | without faults no file is left behind, and a source delivers exactly when its response passes every check |
| `Transfer.FilesAreLeft` | src/aidars/distributed/cas_adapter.py:281-289 | inputs on which a file is left: a stream that breaks off and a refused removal; an interrupted write of bytes to store |
| `Transfer.LocalCas.RunHistory` | src/aidars/distributed/cas_adapter.py:221-363 | over every run of downloads, commits, failovers, stores and deletions each object hashes to its name and only its own deletion takes one away; failovers, stores and deletions without faults leave nothing staged |
| `Registry.AddedKeepsInverse` | src/aidars/distributed/registry.py:333-360 | adding a hash to an inventory and its bucket keeps the index the inverse of the inventories |
| `Registry.DroppedKeepsInverse` | src/aidars/distributed/registry.py:373-399 | so does removing one, dropping a bucket that empties |
| `Registry.InverseIsUnique` | src/aidars/distributed/registry.py:83-106 | inventories have one inverse index without empty buckets |
| `Registry.WorkerRegistry.RegisterWorker` | src/aidars/distributed/registry.py:140-193 | a registration replaces the worker and its inventory, stamps a missing heartbeat and revives a dead health record |
| `Registry.RegistrationMeans` | src/aidars/distributed/registry.py:180-190 | a registration starts a clean record, revives a DEAD one with its penalty and corruptions, and leaves any other alone |
| `Registry.WorkerRegistry.AddHashesLocked` | src/aidars/distributed/registry.py:333-360 | well-formed digests are added to worker and index and the new ones counted |
| `Registry.WorkerRegistry.RemoveHashesLocked` | src/aidars/distributed/registry.py:373-399 | digests are removed from worker and index and the removed ones counted |
| `Registry.WorkerRegistry.SyncInventory` | src/aidars/distributed/registry.py:412-436 | the inventory becomes the target set, with exact counts of what came and went |
| `Registry.WorkerRegistry.RecordHeartbeat` | src/aidars/distributed/registry.py:452-526 | a heartbeat stamps the worker, applies its deltas, turns OFFLINE into ACTIVE and changes nothing else |
| `Registry.WorkerRegistry.EvictExpiredWorkers` | src/aidars/distributed/registry.py:528-568 | exactly the workers with an expired heartbeat are dropped and marked DEAD |
| `Registry.WorkerRegistry.RecordFailure` | src/aidars/distributed/registry.py:594-624 | the new health record and worker row in full |
| `Registry.WorkerRegistry.RecordSuccess` | src/aidars/distributed/registry.py:570-592 | the new health record and worker row in full |
| `Registry.PenaltiesAccumulate` | src/aidars/distributed/registry.py:594-624 | over any failures in a row the penalties add up, failures are counted and the status is that of the total |
| `Registry.SuccessesRecover` | src/aidars/distributed/registry.py:570-592 | over any successes in a row half a point goes each time, down to zero; a DEGRADED record recovers once it is low enough, a SUSPECT one never |
| `Registry.RowFollowsRecord` | src/aidars/distributed/registry.py:570-624 | the worker row changes status exactly with its health record and to the same effect |
| `Registry.WorkerRegistry.RecordCorruption` | src/aidars/distributed/registry.py:626-640 | a corruption is counted and penalised and the hash leaves the worker's inventory |
| `Registry.WorkerRegistry.LocateHashes` | src/aidars/distributed/registry.py:320-331 | the batch lookup answers what a scan of all inventories would |
| `Registry.WorkerRegistry.RunHistory` | src/aidars/distributed/registry.py:140-640 | every run of registry operations keeps the index the exact inverse of the inventories, and each changes health records only as its own transition does |
| `Registry.TransfersKeepHealthHonest` | src/aidars/distributed/registry.py:570-624 | recorded transfers keep HEALTHY meaning a penalty below the degrading one |
| `Registry.RegistrationKeepsHealthHonestIff` | src/aidars/distributed/registry.py:184-188 | a registration keeps it if and only if it does not revive a record with a degrading penalty |
| `Registry.RevivedWorkerKeepsPenalty` | src/aidars/distributed/registry.py:184-188 | an input on which it does not |
| `Registry.HonestStepIff` | src/aidars/distributed/registry.py:140-640 | whatever the operation, HEALTHY goes on meaning a penalty below the degrading one if and only if it is not a registration reviving a record with such a penalty |
| `Registry.HonestRunIff` | src/aidars/distributed/registry.py:140-640 | throughout a run HEALTHY means a penalty below the degrading one if and only if no registration in it revives such a record |
| `AssetLocation.RankCandidates` | src/aidars/distributed/prioritizer.py:252-300 | the ranking is the eligible candidates sorted by score and cut at the limit |
| `AssetLocation.EligibleIff` | src/aidars/distributed/prioritizer.py:273-287 | who may serve: not the requester, ACTIVE or DRAINING, and degraded or unhealthy ones only when asked for |
| `Ordering.SortByStable` | src/aidars/distributed/prioritizer.py:294-294 | candidates with equal scores keep the order they came in |
| `AssetLocation.RankedIsTop` | src/aidars/distributed/prioritizer.py:252-300 | the ranking of distinct candidates is the top of the eligible ones: ordered, nobody twice, nobody better left out, and nobody left out below the limit |
| `AssetLocation.RankedBeatsTheRest` | src/aidars/distributed/prioritizer.py:252-300 | also with repeated candidates nobody left out scores higher than anyone returned |
| `AssetLocation.SameCandidatesSameScores` | src/aidars/distributed/prioritizer.py:252-300 | the order candidates arrive in changes at most the order of ties |
| `AssetLocation.BatchAgrees` | src/aidars/distributed/coordinator.py:662-721 | the batch answer for a hash is the best of its eligible registered holders, and position by position has the scores of the one-list ranking over any full scan |
| `AssetLocation.LocateAssets` | src/aidars/distributed/coordinator.py:643-721 | every hash is answered with eligible registered holders, once each, best first, nobody better left out, as a scan of all inventories would; exactly the hashes nobody can serve are unresolved |
| `Placement.PlacementEngine.Evaluate` | src/aidars/distributed/placement.py:99-335 | single placement returns the head of the ranking of eligible workers, or nothing |
| `Placement.PlacementEngine.EvaluateGroup` | src/aidars/distributed/placement.py:367-400 | repeated selection returns the first workers of the one-shot ranking, or None exactly when fewer are eligible, and reports which were chosen |
| `Placement.SelectionPeelsRanking` | src/aidars/distributed/placement.py:379-394 | taking the selected worker off the list leaves the rest of the ranking as it was |
| `Placement.RankingFacts` | src/aidars/distributed/placement.py:317-335 | the ranking holds exactly the eligible workers, once each, by score and then id |
| `Jobs.GetAggregate` | src/aidars/distributed/job_registry.py:209-260 | the counting loop yields the number of members per bucket, the derived state and the outputs |
| `Jobs.TerminalIff` | src/aidars/distributed/job_registry.py:209-292 | under every policy a job is over if and only if it has members and each is known and over |
| `Jobs.SubmittedIff` | src/aidars/distributed/job_registry.py:258-273 | a job that is not over is submitted exactly while work has begun on no member, and running otherwise |
| `Jobs.SummaryCounts` | src/aidars/distributed/job_registry.py:209-260 | what each count counts, that they add up, and that the outputs are those of the completed members |
| `Jobs.OutcomeMeans` | src/aidars/distributed/job_registry.py:262-292 | what each policy's verdict says about the members, also for a missing threshold and for partial completion |
| `Jobs.VerdictIsStable` | src/aidars/distributed/job_registry.py:209-292 | while members that are over keep their states, so does the verdict |
| `Artifacts.ArtifactIdInjective` | src/aidars/distributed/artifact.py:61-62 | artifact ids name one (workload, hash) pair, also when workload ids contain the separator |
| `Artifacts.ArtifactRegistry.FromStore` | src/aidars/distributed/artifact.py:138-143 | restoring every row, in any order, rebuilds memory and index |
| `Artifacts.ArtifactRegistry.RecordArtifacts` | src/aidars/distributed/artifact.py:86-122 | each new pair is recorded once as AVAILABLE, known pairs stay, and memory, index and store agree |
| `Artifacts.ArtifactRegistry.ComputeGcEligible` | src/aidars/distributed/artifact.py:149-174 | exactly the AVAILABLE artifacts of unprotected jobs |
| `Artifacts.ArtifactRegistry.MarkGcEligible` | src/aidars/distributed/artifact.py:176-191 | exactly the available ones among the given ids are marked, counted and written through |
| `Artifacts.ArtifactRegistry.MarkDeleted` | src/aidars/distributed/artifact.py:193-215 | only a marked artifact becomes DELETED |
| `Artifacts.ArtifactRegistry.PurgeDeleted` | src/aidars/distributed/artifact.py:217-242 | only DELETED artifacts leave memory, index and store |
| `Artifacts.IndexAdd` | src/aidars/distributed/artifact.py:118-120 | recording keeps the by-hash index exact |
| `Artifacts.IndexRemove` | src/aidars/distributed/artifact.py:234-241 | purging keeps it exact and drops empty entries |
| `ArtifactGc.Collector.CollectOnce` | src/aidars/distributed/coordinator.py:556-584 | one tick moves every record at most one stage, all at once |
| `ArtifactGc.Collector.CollectProtected` | src/aidars/distributed/coordinator.py:572-580 | the protected jobs are those not over or inside their retention window |
| `ArtifactGc.Collector.RunHistory` | src/aidars/distributed/coordinator.py:546-589 | over every run of ticks, recordings and job progress index and store agree with memory |
| `ArtifactGc.RecordedCovers` | src/aidars/distributed/artifact.py:86-122 | after recording there is a record for exactly each pair |
| `ArtifactGc.RecordedExactly` | src/aidars/distributed/artifact.py:86-122 | what is recorded is what was there and the pairs named; a new record is AVAILABLE, of its job, with its reported size |
| `ArtifactGc.EventStep` | src/aidars/distributed/coordinator.py:556-584 | only a tick moves a record, by one stage, and out of AVAILABLE only when no job references it |
| `ArtifactGc.TickKeepsIff` | src/aidars/distributed/coordinator.py:572-584 | a tick leaves an AVAILABLE artifact alone exactly when it has no job or its job is registered and has no members, an unfinished member or time left in its retention window, and marks it otherwise |
| `ArtifactGc.TickMovesStagesAlone` | src/aidars/distributed/coordinator.py:556-584 | a tick changes nothing of a record but its stage and makes no record |
| `ArtifactGc.NeverReapedEarly` | src/aidars/distributed/coordinator.py:546-589 | over n ticks of any run a record moves forward at most n stages and never back |
| `ArtifactGc.ShieldedStays` | src/aidars/distributed/coordinator.py:572-584 | a record referenced at every tick of a run is unchanged at its end |
| `ArtifactGc.MarkedIsGoneOnSchedule` | src/aidars/distributed/coordinator.py:556-571 | a marked record is gone on schedule whatever happens in between |
| `ArtifactGc.UnreferencedIsGone` | src/aidars/distributed/coordinator.py:556-584 | an AVAILABLE record unreferenced at a tick is gone two ticks later |
| `ArtifactGc.UnknownJobShieldsNothing` | src/aidars/distributed/coordinator.py:572-584 | an artifact whose job the registry does not hold is marked at once |
| `Attempts.AttemptIdInjective` | src/aidars/distributed/attempt.py:71-72 | attempt ids name one (workload, number) pair, also when workload ids contain '#' |
| `Attempts.AttemptRegistry.CreateAttempt` | src/aidars/distributed/attempt.py:197-224 | a new attempt is queued under the next number, listed last and written through |
| `Attempts.CreatedMeans` | src/aidars/distributed/attempt.py:197-224 | the new record field by field, its place in the list, and everything else as it was |
| `Attempts.AttemptRegistry.Update` | src/aidars/distributed/attempt.py:249-317 | a mark changes the one attempt it names, in memory and store, and no other attempt or list |
| `Attempts.AssignedMeans` | src/aidars/distributed/attempt.py:258-263 | the assigned mark sets status, worker and time and nothing else |
| `Attempts.RunningMeans` | src/aidars/distributed/attempt.py:265-271 | the running mark sets status and start and moves the group to running |
| `Attempts.SucceededMeans` | src/aidars/distributed/attempt.py:273-284 | the success mark sets status, finish and result and completes the group |
| `Attempts.FailedMeans` | src/aidars/distributed/attempt.py:286-302 | the failure mark sets status, finish, category and reason, keeps an old result if none is reported, and fails the group |
| `Attempts.LostMeans` | src/aidars/distributed/attempt.py:304-316 | the lost mark sets status, finish, category and reason, and loses the group with the workers that became unavailable |
| `Attempts.AttemptRegistry.ListRunningForWorker` | src/aidars/distributed/attempt.py:319-328 | exactly the attempts in flight on a worker, alone or as a group member |
| `Attempts.AttemptRegistry.FromStore` | src/aidars/distributed/attempt.py:329-340 | restoring every row, in any order, leaves each workload's attempts listed by number |
| `Attempts.RestoredKeepsOrdered` | src/aidars/distributed/attempt.py:329-340 | each restored row keeps every list complete and strictly ordered |
| `Attempts.RestoreOrderIrrelevant` | src/aidars/distributed/attempt.py:329-340 | the same attempts give the same lists in whatever order they are restored |
| `Attempts.NumbersFollow` | src/aidars/distributed/attempt.py:197-224 | from a book without gaps every run numbers attempts 1, 2, 3, … per workload and overwrites none |
| `Attempts.RestoredContiguousIff` | src/aidars/distributed/attempt.py:329-340 | a restored book has no gap if and only if no number exceeds the number of attempts |
| `Attempts.OverwriteIff` | src/aidars/distributed/attempt.py:197-224 | a run overwrites no attempt if and only if no existing number lies among those it will use |
| `Attempts.SafeForeverIff` | src/aidars/distributed/attempt.py:197-224 | every future run is safe if and only if no number exceeds the number of attempts |
| `Attempts.GapLosesAnAttempt` | src/aidars/distributed/attempt.py:197-224 | with attempts 1 and 3 restored the next attempt replaces attempt 3 |
| `Recovery.Coordinator.RestoreWorkers` | src/aidars/distributed/coordinator.py:321-335 | every readable worker is registered OFFLINE with a fresh grace period, in memory and store |
| `Recovery.Coordinator.RestoreWorkloads` | src/aidars/distributed/coordinator.py:351-356 | workloads are restored as they are and the open ones listed once each |
| `Recovery.Coordinator.RestoreAttempts` | src/aidars/distributed/coordinator.py:376-393 | attempts in flight are LOST in store and memory, the others untouched |
| `Recovery.Coordinator.Redrive` | src/aidars/distributed/coordinator.py:417-441 | each open workload is put back to SUBMITTED without placement and enqueued once |
| `Recovery.Coordinator.Start` | src/aidars/distributed/coordinator.py:272-441 | from any store whose attempt rows are named after workload and number, a start ends in the settled store with memory equal to it and the queue holding each open workload once; the log of its writes misses none, each changing one row of one table, and each leading to the same outcome |
| `Recovery.StartOver` | src/aidars/distributed/coordinator.py:272-441 | a process started over a store ends in the settled store, with a log that begins with that store, ends with the settled one and has no two writes in one step |
| `Recovery.SettledMeans` | src/aidars/distributed/coordinator.py:272-441 | the settled store row by row: attempts that were assigned or running are LOST for want of a worker with their finish, reason and group as given, others untouched; workers OFFLINE with a fresh heartbeat and the same details; what is over untouched, what is open back at the start, unreadable rows left alone |
| `Recovery.UntimedMeans` | src/aidars/distributed/coordinator.py:321-393 | stores that agree up to times differ in nothing but worker heartbeats and the finish of lost attempts |
| `Recovery.OpenIff` | src/aidars/distributed/workload_registry.py:48-53 | the workloads driven again are the readable ones not completed, failed, unschedulable or cancelled |
| `Recovery.SettledIsFixed` | src/aidars/distributed/coordinator.py:272-441 | recovering a recovered store changes only times |
| `Recovery.RecoverThroughCrashes` | src/aidars/distributed/coordinator.py:272-441 | starts cut short after any number of their writes, any number of times, end up to times where one undisturbed start does; the log of each start is complete and begins with the store the crash before it left |
| `Recovery.OutcomeKeeps` | src/aidars/distributed/coordinator.py:272-441 | stores with the same outcome have the same open workloads and attempt identities |
| `Recovery.CancellationRequestIsDriven` | src/aidars/distributed/workload_registry.py:48-53 | a requested cancellation is submitted again by a restart |
| `Recovery.UnreadableRowBreaksNumbering` | src/aidars/distributed/state_store.py:180-214 | one skipped attempt row makes the next attempt replace a record |
| `ReplayGuard.Guard.CheckAndRecord` | src/aidars/distributed/auth.py:209-221 | prune, then accept and record exactly a nonce not in the table |
| `ReplayGuard.TableTracksHistory` | src/aidars/distributed/auth.py:209-221 | after any calls the table holds exactly the acceptances no later call has outlived |
| `ReplayGuard.RefusedIff` | src/aidars/distributed/auth.py:209-221 | for arbitrary times a call is refused if and only if such an acceptance of its nonce is still open |
| `ReplayGuard.AcceptedIffNoOpenWindow` | src/aidars/distributed/auth.py:209-221 | for non-decreasing times the guard accepts exactly when no acceptance so far has a window that is still open |
| `ReplayGuard.VerdictsAgree` | src/aidars/distributed/auth.py:209-221 | for non-decreasing times the pruned table gives every call of a run the verdict of an independent guard that keeps every acceptance |
| `ReplayGuard.TableIsBounded` | src/aidars/distributed/auth.py:209-221 | after a call the table holds only unexpired entries and the one just recorded |
| `ReplayGuard.SetBackClockReplays` | src/aidars/distributed/auth.py:209-221 | a clock set back lets a nonce through inside its window |

## Left out

- Floating point: times, speeds, scores and sizes are exact reals; positive speeds come from the
  clamp at 0.01. Rounding in quotas and wall times is not modelled.
- SHA-256 is a function from bytes to hashes; a claim that needs distinct data to have distinct
  hashes says so.
- SQLite, write-ahead logging, file locks, renames and the operating system: tables and directories
  are maps and a rename is one step. Failed deletes, reads and renames of cached objects are nondeterministic
  choices where files can be held open; those of the transfer store are explicit faults of a call. Writing
  a temporary file of the cache does not fail.
- Failing writes to the coordinator's state store: every write of a registry succeeds. The worker
  registry's own write-through outside recovery is not modelled.
- FastAPI routes, HTTP clients, subprocess execution, probes, launchers and the orchestrator:
  enqueueing is appending to a queue.
- Hard eligibility gates and the score formula of placement and of asset location: functions of a
  profile, fixed for the run of one query. M7 and M12 reordering and the reports attached to a
  placement beyond the chosen ids are not modelled.
- Requester address resolution, round-trip measurement, error decay, penalty decay and transfer counters.
- Redaction and validation of stored specifications: a specification is an opaque value.
- Text outside ASCII digits in a Range header; white space is the set Python strips below code point 256.
- `created_at` of artifacts, storage locations, checkpoints and placement provenance of attempts.
- `Sizing.EvaluateGroup`: confidence, explanations and rejection diagnostics are not part of the decision.
- Negative asset sizes, which the request schema admits: an asset size is a natural number.
- The interpreter's recursion limit, which the dependency check meets on very deep chains.
- `Registry.WorkerRegistry.RecordHeartbeat`: the resource profile and metrics a heartbeat carries are not modelled.
- `Placement.PlacementEngine.Evaluate`: the gates and the score are arbitrary functions of a profile, so
  nothing is claimed about which profiles pass them.
- `Attempts.AttemptRegistry.Update`: the checkpoint fields set on success are not modelled; the marks do not check the attempt's current status, as in the
  code; nothing is claimed about the order in which the orchestrator applies them.
- `ArtifactGc.Collector.RunHistory`: a failed deletion of a stored artifact row, which the code retries
  at a later tick, is not modelled.
- `Recovery.Coordinator.Start`: one clock reading serves a whole start; the order in which rows are
  loaded is arbitrary. Nothing is claimed about a store with a readable attempt row whose key is not made
  of its workload and number, which no registry writes.
- `Placement.PlacementEngine.EvaluateGroup`: the head-of-ranking claim is for distinct worker ids, which
  is what the registry supplies.

# Runlimit in Dafny

Runlimit decides whether a request may proceed under a rate limit, a burst
quota or a failure backoff. This project models its three admission cores and
their two storage backends, and proves what each promises over every input,
every clock and every run.

**Quotas.** A policy is a fixed window (a limit per anchored window) or a GCRA
quota (a burst that refills at `quota` per `period`). `GcraEvaluator.dfy` models
the exact 128-bit transition and proves it equal to a rational token bucket;
`GcraHistory.dfy` says what a log of admitted charges implies, whoever keeps it.

**The process-local stores.** `Shards.dfy` is the bounded shard as a class: a
map and an ordered expiry index changed in place, with bounded cleanup.
`FixedWindowStore.dfy` and `GcraStoreModel.dfy` are the two stores as classes
over those shards, with their check, batch, preflight and charging loops
(`BatchPhases.dfy` holds the phases they share). Both are proved to refine
`Counters.dfy`, a store that is just a map of active counters per shard, and
everything about whole runs (`StoreTheorems.dfy`, `StoreRuns.dfy`,
`GcraRuns.dfy`, `WindowRuns.dfy`) is proved there. `Topology.dfy` and
`LockOrder.dfy` cover how a batch finds and locks its shards. `QuotaAnswers.dfy`
spells out what a call answers, from the counters and the logs alone.

**Outcome-aware attempts.** `AttemptLedger.dfy` is the eager specification: from
the whole history of one key's attempts it computes who must wait and for how
long. `MemoryAttempts.dfy` (the process-local limiter, with lazy reconciliation,
receipts and the cleanup cursor) and `PgAttempts.dfy` (the PostgreSQL
transactions, with rollback, row slots and the completion statement) are classes
that refine it; `AttemptSimulation.dfy` runs both past every refusal and shows
that they answer alike. `PgClockRegress.dfy` says how far a server clock may run
back before the PostgreSQL store departs from the history, and runs each case;
`PgSlippingRuns.dfy` follows whole runs within that distance. `AttemptRetries.dfy`
lets a caller come back to either store and finds every reported delay exact. `AttemptCleanup.dfy`
bounds how long a quiet entry can wait to be reclaimed, `QuietEntries.dfy` lifts
every run of the real limiter to that bound, and `CleanupStarvation.dfy` says
when capacity alone gives one.

**PostgreSQL quotas.** `PgGcraEvaluation.dfy` is the evaluation loop of one GCRA
transaction; `PgGcraProtocol.dfy` is the whole protocol as a state machine whose
transactions take shard locks one at a time, sample clocks that may regress,
read, and commit or vanish, with cleanups interleaved. `PgGcraInvariant.dfy` and
`PgGcraTheorems.dfy` prove what every interleaving keeps, `PgGcraDecisions.dfy`
what a transaction reads off the clock, decides and writes. `PgWindows.dfy` and
`PgWindowStore.dfy` do the same job for the fixed-window transaction, whose
two decision passes are proved equal to one sequential scan; `PgWindowRuns.dfy`
follows its table over whole runs. `ExpiryOrder.dfy` is what the cleanup
statements of the PostgreSQL stores share.

**HTTP fields.** `HttpFields.dfy` encodes the `RateLimit` and `RateLimit-Policy`
members and reads them back with the String and Integer algorithms of sections
4.2.5 and 4.2.4 of RFC 9651.

Times are whole milliseconds (in the PostgreSQL fixed-window table, whole
microseconds) and clock readings are inputs, so every
result holds for every clock unless it says otherwise. A counter key determines
its policy. The machine widths that matter to a result are written out: 128-bit
products and 64-bit delays in the GCRA transition, saturating 32-bit failure
counts, 64-bit generations, 63-bit stored expiries. Automatic induction is off in
every lemma, so each induction is written out.

Five results differ from what one might expect of the code:

- Capacity alone bounds how many admissions a quiet attempt entry survives if and
  only if the store holds one entry (`ReclaimedByCapacityAlone`): then three are
  enough, and at every capacity from two on the real store lets one survive any
  number (`Starve`). What brings the sweep no closer to the entry is exactly an
  admission that finds a single key left ahead of the cursor, the entry behind
  it, and inserts a key above all stored ones; a refused admission inserts
  nothing and is not counted. Such admissions aside, `3 + 2 * ((capacity + 13) /
  15)` are enough on every run, and no key postpones twice, so that many and one
  for each distinct key asked for are enough in all (`QuietEntryIsReclaimed`,
  `PostponementsAreDistinct`, `Outlive`).
- In a stretch of one window length the fixed-window store admits less than
  twice the limit, not just at most: at most `2 * limit - 1`, or the limit itself
  for a window of one millisecond, and some run attains that for every policy
  (`WindowRunKeepsLimits`, `BoundIsAttained`).
- The same bound holds of the PostgreSQL fixed-window table if and only if the
  server clock never runs back: no clock is kept with the rows, so after a cleanup
  a sample one microsecond earlier can spend a second whole limit
  (`BoundNeedsForwardClock`). Stored usage stays within the limit under any clock
  (`Replay`).
- When the server clock runs back between transactions, PostgreSQL attempts can
  depart from the history in three ways, each shown by a run. A key whose row was
  already reclaimed is admitted early, inside its backoff or even inside its lease,
  with two attempts then in flight (`EarlyAdmission`): that takes a clock that runs
  back by more than the quiet period is longer than the maximum delay. A live
  receipt is stale when its row was already reclaimed (`StaleLease`): that takes
  one that runs back by more than the quiet period. A caller is told to wait until
  a success that the row records for later (`LateBackoff`): any clock behind the
  latest reading can. `SafeClocks` and `SafeRegress` prove these exact, and
  every run within the first distance answers as the ledger does on what the store
  can still remember (`RunSlipping`). The process-local limiter clamps its clock.
- After the occupancy check the PostgreSQL attempt admission always finds a free
  slot, so its second capacity denial never happens (`LeastFreeSlot`).

## Model

| member | source | states |
|---|---|---|
| Policies.NewFixedWindow | crates/runlimit-core/src/policy.rs:320-345 | builds the policy asked for exactly for limits and whole-millisecond windows in the portable ranges, and else blames the first bad field |
| Policies.NewGcra | crates/runlimit-core/src/policy.rs:524-572 | builds the policy asked for exactly when quota, burst and period are in range and a full refill fits the longest window, and else blames the first bad field |
| Policies.GcraAcceptedExactly | crates/runlimit-core/src/policy.rs:524-572 | in plain numbers, which quotas, bursts and periods are accepted: in range, whole milliseconds, and refilled within the longest window |
| Policies.GcraKeepsRequest | crates/runlimit-core/src/policy.rs:524-572 | an accepted policy is the one asked for, and a refill reported as too long is the least number of milliseconds that covers it |
| Policies.ValidPoliciesAreConstructed | crates/runlimit-core/src/policy.rs:524-572 | the validity the proofs rest on is exactly the image of the constructors |
| Policies.WithCost | crates/runlimit-core/src/check.rs:46-88 | a cost is accepted exactly from one to the policy's capacity |
| Batches.ValidateBatch | crates/runlimit-core/src/batch.rs:19-57 | accepts exactly nonempty bounded batches of one mode with distinct keys, else explains the earliest fault |
| Batches.ExplanationsAreUnique | crates/runlimit-core/src/batch.rs:19-57 | at most one structural fault can be reported, and none for a well-formed batch |
| GcraEvaluator.EvaluateExactly | crates/runlimit-core/src/gcra.rs:46-95 | every reachable evaluation in closed form: overflow, retry delay, availability, arrival time, expiry |
| GcraEvaluator.EvaluateSpelled | crates/runlimit-core/src/gcra.rs:46-95 | in plain arithmetic: which checks are admitted, the least delay that covers what is missing, the whole tokens left, the arrival time and its expiry, and which values need more than 128 bits |
| GcraEvaluator.EvaluateIsTokenBucket | crates/runlimit-memory/src/gcra.rs:709-752 | the evaluator and the rational reference bucket give the same answer and keep the same state |
| GcraEvaluator.NoOverflowBelow64Bits | crates/runlimit-core/src/gcra.rs:46-95 | with clocks below 2^64 ms no valid reachable evaluation overflows |
| GcraEvaluator.ExpiryIsInvisible | crates/runlimit-memory/src/gcra.rs:26-36 | dropping an arrival time at its expiry changes neither the debt nor the next arrival time |
| GcraEvaluator.RetryDelayIsExact | crates/runlimit-core/src/gcra.rs:70-76 | the same cost is refused at every instant before the reported delay and admitted at every later one |
| GcraHistory.QuotaBound | crates/runlimit-core/src/gcra.rs:46-95 | a conforming log charges at most one burst plus replenishment between any two instants |
| GcraHistory.BucketFollowsLog | crates/runlimit-memory/src/gcra.rs:709-752 | the bucket driven by a log is the bucket of the log's arrival time, and every logged charge was granted |
| Shards.Shard.constructor | crates/runlimit-memory/src/shards.rs:70-77 | a new shard is empty and its index agrees with its map |
| Shards.Shard.UpdateValue | crates/runlimit-memory/src/shards.rs:109-117 | changes one stored value and no expiry |
| Shards.Shard.Replace | crates/runlimit-memory/src/shards.rs:119-145 | inserts or replaces one entry and keeps the expiry index equal to the map's pairs |
| Shards.Shard.PruneExpired | crates/runlimit-memory/src/shards.rs:147-170 | removes exactly the smallest expired pairs, as many as the budget or there are |
| Shards.PrunedKeepsActive | crates/runlimit-memory/src/shards.rs:147-170 | bounded cleanup never removes an active entry |
| Shards.PrunedEarliest | crates/runlimit-memory/src/shards.rs:147-170 | what is removed had expired, no later than what is kept, the smaller key first |
| Shards.PrunedSizes | crates/runlimit-memory/src/shards.rs:147-170 | cleanup frees exactly as many slots as it removes expired entries |
| Shards.Shard.CapacityRetryAfter | crates/runlimit-memory/src/shards.rs:172-181 | the delay to the earliest expiry, at least one millisecond, or none when empty |
| StoreConfig.SharesSumToMaxKeys | crates/runlimit-memory/src/config.rs:124-130 | the shards' capacities add up to the configured maximum |
| StoreConfig.SharesAreEven | crates/runlimit-memory/src/config.rs:124-130 | shares differ by at most one and the larger come first |
| StoreConfig.Config.ShardCapacity | crates/runlimit-memory/src/config.rs:124-130 | every shard gets at least one slot and never more than the maximum |
| StoreConfig.Config.WithShardCount | crates/runlimit-memory/src/config.rs:57-74 | accepts exactly one to as many shards as keys, changes nothing else, and else says which end was missed |
| StoreConfig.NewConfig | crates/runlimit-memory/src/config.rs:33-48 | accepts exactly nonzero maxima, with one shard that gets all of it and the documented defaults |
| BoundedShards.NewShards | crates/runlimit-memory/src/shards.rs:292-300 | distinct empty shards with their configured capacities |
| BoundedShards.PruneMakesRoom | crates/runlimit-memory/src/store.rs:397-411 | after cleanup with a budget for every key a shard either holds no expired entry or has room for all of them |
| BoundedShards.FullnessIgnoresExpired | crates/runlimit-memory/src/store.rs:432-446 | a shard so pruned is full for a key exactly when its active entries and earlier keys fill it, and then nothing expired is left |
| BoundedShards.StorageDenial | crates/runlimit-memory/src/shards.rs:183-190 | reports the exact time to the earliest active expiry |
| Topology.PartitionPoint | crates/runlimit-memory/src/shards.rs:245-260 | the first position not below the target in a sorted sequence |
| Topology.NewTopology | crates/runlimit-memory/src/shards.rs:235-274 | ascending distinct shards, positions and true multiplicities, or the first shard that can never hold its part |
| LockOrder.StepKeepsCoherent | crates/runlimit-memory/src/shards.rs:338-347 | taking a free lock or finishing keeps every lock with one holder |
| LockOrder.StepMakesProgress | crates/runlimit-memory/src/shards.rs:338-347 | every step brings the set of batches nearer to completion |
| LockOrder.SomeThreadCanStep | crates/runlimit-memory/src/shards.rs:338-347 | while a batch is unfinished some batch can step: no deadlock |
| LockOrder.SchedulesComplete | crates/runlimit-memory/src/shards.rs:338-347 | under every schedule of batches that lock in ascending order, some batch can step until all have finished, after a number of steps fixed from the start |
| BatchPhases.PlanBatch | crates/runlimit-memory/src/store.rs:371-390 | plans exactly the batches every shard could hold |
| BatchPhases.RoundClock | crates/runlimit-memory/src/store.rs:391-396 | one reading clamped by every touched shard's watermark |
| BatchPhases.PrepareRound | crates/runlimit-memory/src/store.rs:397-411 | brings every locked shard to that clock without forgetting an active counter |
| BatchPhases.ReserveSlot | crates/runlimit-memory/src/store.rs:432-446 | the running reservation refuses a slot exactly when active counters and earlier keys fill the shard |
| BatchPhases.ChargeStep | crates/runlimit-memory/src/store.rs:449-453 | charging one admitted check advances the simple store by that check alone |
| FixedWindowStore.Consume | crates/runlimit-memory/src/store.rs:39-72 | opens a window or adds to the active one, as the quota verdict says |
| FixedWindowStore.CheckShard | crates/runlimit-memory/src/store.rs:296-341 | one check on a pruned shard decides and charges as on the simple store; the cleanup removes at most its budget and leaves expired counters only beyond it |
| FixedWindowStore.Preflight | crates/runlimit-memory/src/store.rs:413-447 | names the first failing check in caller order, or none |
| FixedWindowStore.MemoryStore.constructor | crates/runlimit-memory/src/store.rs:207-215 | a new store holds no counters |
| FixedWindowStore.MemoryStore.Check | crates/runlimit-memory/src/store.rs:296-341 | refines the single check of the simple store |
| FixedWindowStore.MemoryStore.CheckAll | crates/runlimit-memory/src/store.rs:371-462 | refines the atomic batch of the simple store, every error included; an error leaves every shard untouched |
| GcraStoreModel.CheckShard | crates/runlimit-memory/src/gcra.rs:233-285 | one GCRA check on a pruned shard, with the same bounds on its cleanup, or an overflow that changes nothing |
| GcraStoreModel.EvaluateAll | crates/runlimit-memory/src/gcra.rs:335-351 | evaluates the whole batch before any cleanup; any overflow stops it |
| GcraStoreModel.GcraStore.Check | crates/runlimit-memory/src/gcra.rs:233-285 | refines the single check of the simple store |
| GcraStoreModel.GcraStore.CheckAll | crates/runlimit-memory/src/gcra.rs:315-418 | refines the atomic batch of the simple store; an overflow leaves it as it was |
| StoreTheorems.StorageDenialIsExact | crates/runlimit-memory/src/store.rs:413-447 | a batch passing its quotas is storage-denied exactly when on some shard active counters and batch keys exceed capacity |
| StoreTheorems.AllowedBatchIsSingles | crates/runlimit-memory/src/store.rs:371-462 | an allowed batch leaves the counters and allowances of its checks run singly in order |
| StoreTheorems.DeniedBatchChargesNothing | crates/runlimit-memory/src/store.rs:371-462 | a denied batch changes no active counter and names the first check that fails when run singly |
| StoreTheorems.BatchOfOneIsSingle | crates/runlimit-memory/src/store.rs:350-371 | a batch of one answers as the single check does |
| QuotaAnswers.ShardAnswer | crates/runlimit-memory/src/store.rs:304-324 | one check on one shard: an enforced quota refusal is a denial and a shadow one only says so, storage is denied in both modes exactly when active counters fill the shard, until the first of them expires |
| QuotaAnswers.SingleAnswer | crates/runlimit-memory/src/store.rs:296-324 | only the shard of the key's hash answers and changes, at the clock clamped by its watermark |
| QuotaAnswers.BatchAnswer | crates/runlimit-memory/src/store.rs:411-450 | an enforced member's quota refusal denies the batch, a shadow member's only says so, and what is allowed is what every verdict grants |
| QuotaAnswers.BatchRejection | crates/runlimit-memory/src/store.rs:371-380 | a batch is rejected exactly when malformed, too large for a shard (the first one is named with its counts) or out of range, and then changes nothing |
| QuotaAnswers.StepRespectsModes | crates/runlimit-memory/src/store.rs:313-317 | in every step an enforced check is never only shadow-denied and a shadow check never denied for its quota |
| QuotaAnswers.DenialKeepsActive | crates/runlimit-memory/src/store.rs:411-445 | a denied batch keeps every counter that is active at its clock value and adds none |
| QuotaAnswers.WindowRunAnswers | crates/runlimit-memory/src/store.rs:28-72 | after every run the next fixed-window check is admitted exactly while the key's open window and the cost stay within the limit, with what is left and the exact time to its end |
| StoreRuns.LaneFollowsStep | crates/runlimit-memory/src/store.rs:296-462 | seen from one key every call drops an expired counter, charges an admitted check, or leaves it |
| GcraRuns.GcraLaneHolds | crates/runlimit-memory/src/gcra.rs:26-49 | in every run a stored counter is its log's arrival time with the matching expiry, and a missing one owes nothing |
| GcraRuns.GcraRunKeepsQuota | crates/runlimit-memory/src/gcra.rs:233-418 | in every run under any clock a key is charged at most a burst plus replenishment |
| GcraRuns.GcraRunIsTokenBucket | crates/runlimit-memory/src/gcra.rs:782-820 | after every run the next check answers as the reference bucket driven by the key's log |
| GcraRuns.GcraBatchIsTokenBucket | crates/runlimit-memory/src/gcra.rs:315-418 | after every run a batch is allowed what the reference buckets of its keys grant, and stops at the first that is short |
| GcraRuns.GcraBatchOverflowsExactly | crates/runlimit-memory/src/gcra.rs:335-345 | a batch fails for arithmetic exactly when one of its checks needs more than 128 bits |
| GcraRuns.GcraRunNeverOverflows | crates/runlimit-memory/src/gcra.rs:233-285 | with clocks below 2^64 ms no check in any run fails |
| WindowRuns.WindowRunKeepsLimits | crates/runlimit-memory/src/store.rs:28-72 | usage and every anchored window stay within the limit, and any window length of time carries at most two limits less one, or one limit if it is one millisecond |
| WindowStraddle.BoundIsAttained | crates/runlimit-memory/src/store.rs:28-72 | for every policy a run that reaches that bound exactly |
| WindowStraddle.StraddleAttainsBound | crates/runlimit-memory/src/store.rs:28-72 | a run that admits two limits less one within one window length |
| AttemptPolicies.NewAttemptPolicy | crates/runlimit-core/src/attempts.rs:40-72 | keeps the four durations exactly when initial <= maximum <= quiet, and else blames the first pair out of order |
| AttemptPolicies.DelayIsCappedDoubling | crates/runlimit-core/src/attempts.rs:102-113 | shift and saturation never show: the delay is the doubled initial one up to the maximum |
| AttemptPolicies.DelayGrows | crates/runlimit-core/src/attempts.rs:102-113 | delays are monotone, nonzero after a failure and at most the maximum |
| AttemptPolicies.SaturatedCountKeepsDelay | crates/runlimit-memory/src/attempts.rs:208-212 | counting failures in 32 saturating bits changes no delay |
| AttemptLedger.DelaysAreExact | crates/runlimit-memory/src/attempts.rs:230-239 | a reported backoff is what remains of it: no admission before, and admission from then on; a key reported busy is live exactly until then |
| AttemptLedger.AdmissionOpensLease | crates/runlimit-memory/src/attempts.rs:138-155 | an admission opens a lease of the policy's length, during which the key is busy |
| AttemptLedger.CompletionIsExact | crates/runlimit-memory/src/attempts.rs:161-206 | which receipts apply, how the attempt ends, the failures reported, and that the delay reported is the one the next admission waits for |
| AttemptLedger.StreakIsLargest | crates/runlimit-memory/src/attempts.rs:213-229 | the streak is the longest run of failures ending the history with no quiet gap |
| AttemptLedger.RunsAreLegal | crates/runlimit-core/src/attempts.rs:102-113 | in every run no attempt is admitted before the delay of the failures before it, and none overlaps another |
| AttemptLedger.DeadReceiptsStayDead | crates/runlimit-memory/src/attempts.rs:161-202 | a completed or superseded receipt is stale for ever and changes nothing |
| AttemptLedger.AppliedAtMostOnce | crates/runlimit-memory/src/attempts.rs:161-202 | in every run a receipt is applied at most once |
| MemoryAttempts.Reconcile | crates/runlimit-memory/src/attempts.rs:213-229 | a lazily reconciled entry still stands for the whole history and shows its backoff |
| MemoryAttempts.NextBatch | crates/runlimit-memory/src/attempts.rs:240-250 | the next at most sixteen keys past the cursor, in order |
| MemoryAttempts.BatchSpelled | crates/runlimit-memory/src/attempts.rs:240-250 | at most sixteen stored keys past the cursor, smallest first, and all of them if fewer |
| MemoryAttempts.QuietByHistory | crates/runlimit-memory/src/attempts.rs:251-260 | an entry is quiet exactly one quiet period after its key's last attempt ended or its lease ran out |
| MemoryAttempts.MemoryAttemptLimiter.constructor | crates/runlimit-memory/src/attempts.rs:80-89 | a new limiter stands for empty histories |
| MemoryAttempts.MemoryAttemptLimiter.Cleanup | crates/runlimit-memory/src/attempts.rs:240-260 | drops exactly the entries of the batch whose keys' histories have been quiet for the whole period, and no other; every key still stands for its history |
| MemoryAttempts.MemoryAttemptLimiter.Admit | crates/runlimit-memory/src/attempts.rs:103-155 | answers what the whole history demands; only missing room or an exhausted sequence can add to it; a reported wait is exact as long as nobody touches the key; under any clock the history stays one in which no attempt began before its delay was over |
| MemoryAttempts.MemoryAttemptLimiter.Complete | crates/runlimit-memory/src/attempts.rs:161-206 | applies to the live reservation alone and reports the eager count and delay; any other receipt changes no entry |
| MemoryAttempts.OnlyLastIsLive | crates/runlimit-memory/src/attempts.rs:161-202 | at most one receipt per key is live, and it is the last one issued |
| MemoryAttempts.AbsentAdmits | crates/runlimit-memory/src/attempts.rs:103-137 | a removed or never stored key is owed no wait |
| MemoryAttempts.ReconciledAnswers | crates/runlimit-memory/src/attempts.rs:230-239 | the reconciled entry denies exactly as the history does |
| AttemptCleanup.AdmissionIsStep | crates/runlimit-memory/src/attempts.rs:240-260 | a real admission is a step of the cleanup cursor |
| AttemptCleanup.QuietEntryIsReclaimed | crates/runlimit-memory/src/attempts.rs:240-260 | admissions a quiet entry survives are bounded by capacity plus those that insert a new largest key behind the last one ahead of the cursor, and so by capacity plus the number of distinct keys asked for |
| AttemptCleanup.PostponementsAreDistinct | crates/runlimit-memory/src/attempts.rs:240-260 | no key postpones the sweep twice: a postponing key stays behind the cursor or alone ahead of it until the sweep wraps around |
| AttemptCleanup.StepGetsCloser | crates/runlimit-memory/src/attempts.rs:240-260 | an admission brings a waiting entry closer to reclaim exactly unless it postpones it |
| QuietEntries.Outlive | crates/runlimit-memory/src/attempts.rs:103-202 | on the real limiter, whatever other keys and receipts callers present, a quiet entry still stored has survived no more admissions than a linear function of capacity plus the number of distinct keys asked for, and no more than three at capacity one |
| CleanupStarvation.ReclaimedByCapacityAlone | crates/runlimit-memory/src/attempts.rs:240-260 | capacity alone bounds the admissions survived if and only if it is one, and then by three |
| CleanupStarvation.Starve | crates/runlimit-memory/src/attempts.rs:240-260 | at every capacity from two on and for every number of admissions, a run of the real store that admits that many keys, one every three milliseconds, while an entry stored since before them is quiet and stays stored |
| ExpiryOrder.TakeSoonest | crates/runlimit-postgres/src/cleanup_expired.sql:4-18 | as many of the expired rows as the limit allows, none of which expired later than one left behind |
| PgAttempts.DeleteExpired | crates/runlimit-postgres/src/attempt_cleanup.sql:1-18 | deletes the sixteen earliest expired rows that are not locked |
| PgAttempts.LeastFreeSlot | crates/runlimit-postgres/src/attempts.rs:299-306 | the least free slot, which always exists below the occupancy limit |
| PgAttempts.Examine | crates/runlimit-postgres/src/attempts.rs:246-286 | under any clock the row reconciled in local variables denies as the history does, or yields the count to store, except that a clock from before a success still backs off until that success |
| PgAttempts.StatementDelayIsPolicyDelay | crates/runlimit-postgres/src/attempt_complete.sql:11-12 | the delay computed in SQL is the policy's |
| PgAttempts.AttemptShard.Admit | crates/runlimit-postgres/src/attempts.rs:217-342 | under any clocks, exactly when the admission answers what the history demands, and that a clock no further behind the latest reading than the quiet period outlasts the maximum delay does so; it rolls back its cleanup on a wait and keeps exactly that cleanup otherwise |
| PgAttempts.AttemptShard.Insert | crates/runlimit-postgres/src/attempts.rs:286-307 | inserts into the least free slot exactly while the shard holds fewer rows than the maximum |
| PgAttempts.AttemptShard.Cleanup | crates/runlimit-postgres/src/attempt_cleanup.sql:1-18 | under any clock, deletes the sixteen earliest expired rows and no others |
| PgAttempts.AttemptShard.Complete | crates/runlimit-postgres/src/attempt_complete.sql:1-23 | under any clock the completion statement applies to the live stored reservation alone, with the eager count and delay; with no row it is stale, and live by the history only if the clock ran back by more than the quiet period |
| PgAttempts.RecentClockIsFaithful | crates/runlimit-postgres/src/attempts.rs:246-286 | a clock not behind the latest reading makes no row depart from its history, and one less far behind than the quiet period outlasts the maximum delay no missing row |
| PgAttempts.OutcomeLasts | crates/runlimit-postgres/src/attempts.rs:246-286 | under any clock a reported wait is exact as long as nobody touches the key, waits for a recorded success included |
| PgAttempts.AttemptShard.QuietTimes | crates/runlimit-postgres/src/attempt_cleanup.sql:12-15 | a row is due exactly one quiet period after its key's last attempt ended or its lease ran out |
| PgAttempts.GoneByQuiet | crates/runlimit-postgres/src/attempt_cleanup.sql:1-18 | a cleanup deletes at most sixteen rows, each due and unlocked, leaves none due if it deletes fewer, and takes those due first |
| PgAttempts.OnlyLastRowIsLive | crates/runlimit-postgres/src/attempt_complete.sql:10-16 | only the last issued token of a key can match a live lease |
| PgClockRegress.Reclaim | crates/runlimit-postgres/src/attempt_cleanup.sql:1-18 | a run from a new shard in which another key's admission reclaims the row of a key that still backs off by an earlier clock |
| PgClockRegress.EarlyAdmission | crates/runlimit-postgres/src/attempts.rs:217-319 | after that run, at every earlier clock reading, the key is admitted where its history demands a backoff, or a wait for its own live lease |
| PgClockRegress.Succeed | crates/runlimit-postgres/src/attempt_complete.sql:1-23 | a run from a new shard in which a key's attempt succeeds one millisecond after it began |
| PgClockRegress.LateBackoff | crates/runlimit-postgres/src/attempts.rs:246-286 | a clock behind a recorded success: the history admits, the row makes the caller wait until the success |
| PgClockRegress.StaleLease | crates/runlimit-postgres/src/attempt_complete.sql:1-23 | after the reclaiming run, at every clock reading inside the lease, the receipt is stale where the history applies it |
| PgClockRegress.SafeClocks | crates/runlimit-postgres/src/attempts.rs:217-319 | exactly which clock readings make no missing row admit early, no stored row answer otherwise, no lease stale while live and no failure forgotten |
| PgClockRegress.SafeRegress | crates/runlimit-postgres/src/attempts.rs:217-319 | a clock may run back by exactly what the quiet period outlasts the maximum delay without an early admission, and by exactly the quiet period without refusing a live receipt, over all lawful histories |
| PgSlippingRuns.RunSlipping | crates/runlimit-postgres/src/attempts.rs:217-342 | every run of the real shard, on a clock that slips by no more than the quiet period outlasts the longest delay: no admission is early, every denial and completion is the ledger's on what is remembered but for a wait until a recorded success, and a failure is forgotten only after a reading past its quiet period |
| AttemptRetries.RetryMemory | crates/runlimit-memory/src/attempts.rs:103-155 | on the real limiter, a caller told to wait and asking again is told exactly the rest of that wait until it is over, and after a backoff is not told to wait again |
| AttemptRetries.RetryRows | crates/runlimit-postgres/src/attempts.rs:217-342 | the same of two transactions on the real PostgreSQL shard |
| AttemptRetries.AskAfterMemory | crates/runlimit-memory/src/attempts.rs:161-206 | the delay an applied completion reports is exactly the one the next admission waits for; a success reports and leaves none |
| AttemptRetries.AskAfterRows | crates/runlimit-postgres/src/attempt_complete.sql:1-23 | the same on the PostgreSQL shard |
| AttemptSimulation.LedgersAreLegal | crates/runlimit-core/src/attempts.rs:102-113 | the histories both stores follow, past every refusal, never admit before the delay is over |
| AttemptSimulation.ReceiptsApplyOnce | crates/runlimit-memory/src/attempts.rs:161-202 | in every run of either store, full ones included, a receipt once applied is stale whenever presented again |
| AttemptSimulation.RunMemory | crates/runlimit-memory/src/attempts.rs:103-202 | every answer of a whole run is the ledger's for the run with the refused admissions erased; one is refused only where the ledger admits, and only once callers named more keys than the capacity or used up the generations |
| AttemptSimulation.RunRows | crates/runlimit-postgres/src/attempts.rs:217-342 | the same of a whole PostgreSQL run, which refuses only once callers named more keys than the row maximum |
| AttemptSimulation.RunBoth | crates/runlimit-postgres/src/attempts.rs:217-342 | over whole runs the two stores give the same answers and delays for as long as they refuse the same admissions, and with room for every key they refuse none |
| PgGcraEvaluation.EvaluateBatch | crates/runlimit-postgres/src/gcra.rs:457-533 | the loop names the first failing check in caller order, or every pending charge, or an untrusted reading |
| PgGcraEvaluation.Reading.AnswersAgree | crates/runlimit-postgres/src/gcra.rs:457-533 | a reading has one answer |
| PgGcraInvariant.ReadingIsLocal | crates/runlimit-postgres/src/gcra.rs:346-405 | what a transaction reads depends only on the shards it locked |
| PgGcraInvariant.HoldersAreDisjoint | crates/runlimit-postgres/src/gcra.rs:44-44 | transactions that hold all their locks share no shard |
| PgGcraInvariant.AdmissionIsLaneStep | crates/runlimit-postgres/src/gcra.rs:414-448 | seen from one key an admission's commit is a step the process-local store could take |
| PgGcraInvariant.CleanupIsLaneStep | crates/runlimit-postgres/src/gcra.rs:78-102 | a cleanup's commit only forgets what is expired at the watermark it writes |
| PgGcraInvariant.StepKeepsInv | crates/runlimit-postgres/src/gcra.rs:346-448 | every step of every interleaving keeps rows, watermarks, locks and pending readings consistent |
| PgGcraTheorems.CommittedCostIsBounded | crates/runlimit-postgres/src/gcra.rs:346-448 | in every interleaving, with any clocks and commit outcomes, committed cost is at most a burst plus replenishment |
| PgGcraTheorems.DecisionsAreCurrent | crates/runlimit-postgres/src/gcra.rs:352-405 | a decided transaction's reading is still what is committed |
| PgGcraTheorems.DecisionIsTokenBucket | crates/runlimit-postgres/src/gcra.rs:457-533 | every check is judged as the reference bucket of the key's committed charges |
| PgGcraTheorems.DecisionsNeverFail | crates/runlimit-postgres/src/gcra.rs:480-502 | with clocks below 2^64 ms the storage-invariant errors never happen |
| PgGcraTheorems.AcceptedBatchesAreStorable | crates/runlimit-postgres/src/gcra.rs:414-424 | while the clock leaves room for the longest refill, every accepted expiry fits the database range |
| PgGcraTheorems.CommitsStayWithinRows | crates/runlimit-postgres/src/gcra.rs:514-526 | an accepted batch never fills a shard above the configured maximum |
| PgGcraTheorems.WatermarksNeverRegress | crates/runlimit-postgres/src/gcra.rs:78-86 | no step takes a shard's watermark back |
| PgGcraTheorems.SomeTransactionIsNotBlocked | crates/runlimit-postgres/src/gcra.rs:44-44 | while a transaction is unfinished some transaction can proceed |
| PgGcraDecisions.SampleIsClamped | crates/runlimit-postgres/src/gcra.rs:373-386 | a transaction's time is the least that is not before its sample nor before any watermark it holds |
| PgGcraDecisions.DecidesAtItsSample | crates/runlimit-postgres/src/gcra.rs:373-405 | in every run the time a transaction decides or deletes at is its one sample so raised, to watermarks still current |
| PgGcraDecisions.DecidesAsBuckets | crates/runlimit-postgres/src/gcra.rs:457-533 | a decided batch is granted what the reference buckets grant, or names its first failing check with the exact delay, enforced or shadow as its mode says, or a shard without room |
| PgGcraDecisions.CommitSpelled | crates/runlimit-postgres/src/gcra.rs:414-448 | a commit writes the arrival time of the key's log and its expiry within the database range, nothing else, and marks its shards with its time |
| PgGcraDecisions.SelectionSpelled | crates/runlimit-postgres/src/gcra.rs:87-102 | a cleanup picks rows expired at its time on its shards, up to its limit, earliest first |
| PgGcraDecisions.CleanupCommitSpelled | crates/runlimit-postgres/src/gcra.rs:78-102 | a cleanup's commit deletes what it picked, keeps every other row and marks its shards |
| PgWindows.FirstCapacityDenial | crates/runlimit-postgres/src/admission.rs:502-596 | the first missing key whose new row would exceed its shard's maximum |
| PgWindows.FirstQuotaDenial | crates/runlimit-postgres/src/protocol.rs:135-176 | the first active row with too little left |
| PgWindows.SingleAdmits | crates/runlimit-postgres/src/protocol.rs:178-268 | the upsert statement and the fixed-window verdict agree on one row |
| PgWindows.ScannedOccupancy | crates/runlimit-postgres/src/admission.rs:517-594 | sequential insertions fill a shard as the capacity pass counts them, never above the maximum |
| PgWindows.ScanIsTwoPasses | crates/runlimit-postgres/src/admission.rs:603-633 | the two passes joined by the smaller index stop where one sequential scan stops, for the same reason |
| PgWindowStore.WindowTable.CheckBatch | crates/runlimit-postgres/src/admission.rs:326-381 | decides, writes and reports as the sequential scan; a denial writes nothing, and a commit without acknowledgement wrote all of it or nothing; delays count from the response, or from the sample if that is later, and refusals are enforced or shadow as the mode says |
| PgWindowStore.WindowTable.Cleanup | crates/runlimit-postgres/src/cleanup_expired.sql:1-42 | the rows that expired first go, exactly as many as the limit and the unlocked expired rows allow |
| PgWindowStore.ScanSpelled | crates/runlimit-postgres/src/protocol.rs:178-268 | in plain numbers: an open window takes a charge within its limit, anything else starts a window of the policy's length in microseconds, a new row needs a free slot, and the first check that fails is named with the exact time left |
| PgWindowStore.CleanupSpelled | crates/runlimit-postgres/src/cleanup_expired.sql:1-42 | a cleanup deletes at most its limit, each row expired and unlocked, leaves none if it deletes fewer, and takes those expired first |
| PgWindowStore.UpsertBatch | crates/runlimit-postgres/src/admission.rs:725-804 | the upsert writes the scan's rows and yields its allowances |
| PgWindowStore.UpsertKeepsLimits | crates/runlimit-postgres/src/admission.rs:163-178 | stored usage never exceeds its limit, so the stored-usage invariant errors never happen |
| PgWindowRuns.TurnIsWindowStep | crates/runlimit-postgres/src/protocol.rs:178-268 | seen from one key, a batch or a cleanup on a clock that has not run back is a step the process-local store could take, with windows counted in microseconds |
| PgWindowRuns.TableKeepsLimits | crates/runlimit-postgres/src/admission.rs:326-381 | over every run of batches, lost commits and cleanups on samples that never run back: usage and every anchored window within the limit, any window length below two limits |
| PgWindowRuns.BoundNeedsForwardClock | crates/runlimit-postgres/src/cleanup_expired.sql:1-42 | the two-window bound holds for every run if and only if no reading runs back; one microsecond breaks it |
| PgWindowRuns.Replay | crates/runlimit-postgres/src/admission.rs:326-381 | every run, under any clock, is one of the real table, whose usage stays within the limit |
| PgWindowStore.LockOrderOf | crates/runlimit-postgres/src/admission.rs:102-123 | every input once, in strictly ascending key order |
| PgWindowStore.BatchesNeverDeadlock | crates/runlimit-postgres/src/admission.rs:102-123 | batches that lock their counters in that order never deadlock under any schedule |
| HttpFields.EncodePolicyName | crates/runlimit-http/src/draft_11.rs:138-163 | accepts exactly short visible names, escapes them, and else names the first fault by byte index |
| HttpFields.EscapesOneByOne | crates/runlimit-http/src/draft_11.rs:138-163 | only the quote and the backslash are escaped, each with a backslash |
| HttpFields.ServiceLimit | crates/runlimit-http/src/draft_11.rs:115-136 | a parser recovers name, availability and a delay rounded up to whole seconds |
| HttpFields.QuotaPolicy | crates/runlimit-http/src/draft_11.rs:81-98 | a parser recovers name, quota and exact whole-second period |
| HttpFields.ParseEscaped | crates/runlimit-http/src/draft_11.rs:138-163 | the String parser reads an escaped name back whatever follows it |
| HttpFields.PrintRoundTrip | crates/runlimit-http/src/draft_11.rs:115-136 | every printed member parses back to its name and numbers |
| HttpFields.ParsesOnlyEscaped | crates/runlimit-http/src/draft_11.rs:138-163 | the String parser accepts nothing but escaped visible text and its closing quote |
| HttpFields.IntegerDigits | crates/runlimit-http/src/draft_11.rs:115-136 | the Integer parser accepts exactly one to fifteen digits |
| HttpFields.EncodingIsInjective | crates/runlimit-http/src/draft_11.rs:115-136 | distinct members never encode alike |
| HttpFields.SecondsCoverDelay | crates/runlimit-core/src/decision.rs:37-44 | the least number of whole seconds covering the delay, or the largest 64-bit number when that is not enough |

## Left out

- Hashing: fingerprints, keyed subjects, advisory lock ids and the hash that picks a shard; keys are ordered numbers, a key determines its policy, and the shard function is arbitrary but fixed.
- Mutex poisoning, its recovery, `clear` and `stats`: the model has no panicking callers.
- Observers, Debug and Display output, serde wire types and error texts: plumbing around the decisions.
- The async client, pool, deadlines and cancellation: a transaction step either happens or the transaction ends; a commit whose outcome is unknown is one of the two.
- `Duration` and i64 saturation at extreme clocks in the attempt code and in the fixed-window conversion to milliseconds: those times are unbounded there.
- Claims of PostgreSQL attempt receipts (`claim_in` and `finish_in`): they rotate the token inside a caller's own transaction, which is not part of this model.
- The fixed-window transaction's locks over time: `CheckBatch` is one atomic step on counters already locked, `Cleanup` is given the rows others have locked, and deadlock is covered through the order of the row locks alone (`BatchesNeverDeadlock`).
- The triggers that keep the capacity ledgers and the row slots unique: the ledger is read as the true row count, and the hard ceiling of 65,536 rows is not modelled.
- Generated lease tokens: fresh values chosen by the caller of the model.
- The GCRA cleanup statement of PostgreSQL applies its limit per shard before the global one; the model states the global choice of the earliest rows.
- Several attempt capacity shards at once: a key determines its shard and shards share no rows, so one shard is modelled.
- HTTP header names and the conversion of member text to a header value.
- PgAttempts.AttemptShard.Admit: after an early admission of a key whose row was reclaimed, its history starts again with that attempt, because the store itself remembers nothing before it.
- AttemptSimulation.RunBoth: compares the two stores on clocks that do not run back, because on others PostgreSQL departs from the history (see `PgClockRegress.dfy`); once one store has refused an admission that the other granted, their histories differ and so may their answers.
- AttemptCleanup.QuietEntryIsReclaimed: bounded by capacity and the distinct keys asked for, because the bound by capacity alone is false of the code at every capacity but one (see `ReclaimedByCapacityAlone`).

/** The phases both memory stores run on the locked shards of an atomic batch. */
module BatchPhases {
  import opened Basics
  import opened Policies
  import opened Batches
  import opened Counters
  import opened StoreTheorems
  import opened Shards
  import opened StoreConfig
  import opened BoundedShards
  import opened Topology

  function Targets(hash: Router, n: nat, checks: seq<Check>): (t: seq<nat>)
    requires n > 0
    ensures |t| == |checks| && forall i | 0 <= i < |t| :: t[i] == ShardOf(hash, n, checks[i].key)
  {
    seq(|checks|, i requires 0 <= i < |checks| => ShardOf(hash, n, checks[i].key))
  }

  lemma {:induction false} CountIsMultiplicity(hash: Router, n: nat, checks: seq<Check>, k: nat, s: nat)
    requires n > 0 && k <= |checks|
    ensures CountOn(hash, n, checks, k, s) == multiset(Targets(hash, n, checks)[..k])[s]
  {
    hide ShardOf;
    if k > 0 {
      CountIsMultiplicity(hash, n, checks, k - 1, s);
      MultiplicitySnoc(Targets(hash, n, checks), k - 1);
    }
  }

  lemma {:induction false} MultiplicitySnoc(t: seq<nat>, k: nat)
    requires k < |t|
    ensures multiset(t[..k + 1]) == multiset(t[..k]) + multiset{t[k]}
  {
    assert t[..k + 1] == t[..k] + [t[k]];
  }

  lemma {:induction false} CountsOfTopology(hash: Router, n: nat, checks: seq<Check>, s: nat)
    requires n > 0
    ensures CountOn(hash, n, checks, |checks|, s) == multiset(Targets(hash, n, checks))[s]
    ensures CountOn(hash, n, checks, |checks|, s) > 0 <==> s in Targets(hash, n, checks)
  {
    CountIsMultiplicity(hash, n, checks, |checks|, s);
    assert Targets(hash, n, checks)[..|checks|] == Targets(hash, n, checks);
  }

  /** The topology of a batch, or the structural error it must report. */
  method PlanBatch(hash: Router, config: Config, checks: seq<Check>) returns (r: Result<BatchTopology, BatchFailure>)
    requires config.Valid()
    ensures var targets := Targets(hash, config.shardCount, checks);
            r.Ok? ==> Describes(r.value, targets) && forall t | t in targets ::
              multiset(targets)[t] <= config.ShardCapacity(t)
    ensures r.Err? ==>
              && r.error.BatchExceedsShardCapacity?
              && FirstUnsatisfiable(ShardOverflow(r.error.shard, r.error.keyCount, r.error.capacity),
                                    Targets(hash, config.shardCount, checks), config)
  {
    hide Config.ShardCapacity;
    var plan := NewTopology(Targets(hash, config.shardCount, checks), config);
    match plan
    case Ok(topology) => return Ok(topology);
    case Err(e) => return Err(BatchExceedsShardCapacity(e.shard, e.keyCount, e.capacity));
  }

  ghost predicate CapacitiesOf(store: Store, config: Config) {
    config.Valid() && |store| == config.shardCount
    && forall s | 0 <= s < |store| :: store[s].capacity == config.ShardCapacity(s)
  }

  lemma {:induction false} PlanErrorIsSpecified(hash: Router, config: Config, checks: seq<Check>, store: Store,
                                                e: ShardOverflow)
    requires CapacitiesOf(store, config) && FirstUnsatisfiable(e, Targets(hash, config.shardCount, checks), config)
    ensures FirstOverfull(store, hash, checks, e.shard)
    ensures e.keyCount == CountOn(hash, |store|, checks, |checks|, e.shard) && e.capacity == store[e.shard].capacity
  {
    hide Config.ShardCapacity;
    forall s | 0 <= s <= e.shard
      ensures CountOn(hash, |store|, checks, |checks|, s) == multiset(Targets(hash, |store|, checks))[s]
    {
      CountsOfTopology(hash, |store|, checks, s);
    }
  }

  lemma {:induction false} PlannedIsNotOverfull(hash: Router, config: Config, checks: seq<Check>, store: Store)
    requires CapacitiesOf(store, config)
    requires var targets := Targets(hash, config.shardCount, checks);
             forall t | t in targets :: multiset(targets)[t] <= config.ShardCapacity(t)
    ensures forall s | 0 <= s < |store| :: !Overfull(store, hash, checks, s)
  {
    hide Config.ShardCapacity;
    forall s | 0 <= s < |store| ensures !Overfull(store, hash, checks, s) {
      CountsOfTopology(hash, |store|, checks, s);
    }
  }

  lemma {:induction false} ContentsCapacities(shards: seq<Shard>, config: Config)
    requires WellFormed(shards, config)
    ensures |View(shards)| == |shards| > 0 && CapacitiesOf(View(shards), config)
  {
    hide Config.ShardCapacity;
  }

  lemma {:induction false} InvalidIsRejected(store: Store, hash: Router, maximum: nat, checks: seq<Check>,
                                             observed: nat, error: BatchError)
    requires |store| > 0 && AllValid(checks) && Explains(error, checks, maximum)
    ensures CheckMany(store, hash, maximum, checks, observed, store, Err(InvalidBatch(error)))
  {
    ExplanationsAreUnique(error, error, checks, maximum);
  }

  lemma {:induction false} OverfullIsRejected(store: Store, hash: Router, config: Config, checks: seq<Check>,
                                              observed: nat, failure: BatchFailure)
    requires CapacitiesOf(store, config) && AllValid(checks) && WellFormedBatch(checks, config.maxBatchSize)
    requires failure.BatchExceedsShardCapacity?
    requires FirstUnsatisfiable(ShardOverflow(failure.shard, failure.keyCount, failure.capacity),
                                Targets(hash, config.shardCount, checks), config)
    ensures CheckMany(store, hash, config.maxBatchSize, checks, observed, store, Err(failure))
  {
    hide Config.ShardCapacity, NewRound, FirstUnsatisfiable;
    PlanErrorIsSpecified(hash, config, checks, store, ShardOverflow(failure.shard, failure.keyCount, failure.capacity));
  }

  lemma {:induction false} OverflowIsRejected(store: Store, hash: Router, maximum: nat, checks: seq<Check>,
                                              observed: nat)
    requires |store| > 0 && AllValid(checks) && WellFormedBatch(checks, maximum)
    requires forall s | 0 <= s < |store| :: !Overfull(store, hash, checks, s)
    requires !NewRound(store, hash, checks, observed).NoOverflow()
    ensures CheckMany(store, hash, maximum, checks, observed, store, Err(BatchOverflow))
  {
    hide NewRound, Overfull;
  }

  lemma {:induction false} OutcomeIsDecided(store: Store, hash: Router, maximum: nat, checks: seq<Check>, observed: nat,
                                            after: Store, decision: BatchDecision)
    requires |store| > 0 && AllValid(checks) && WellFormedBatch(checks, maximum)
    requires forall s | 0 <= s < |store| :: !Overfull(store, hash, checks, s)
    requires var r := NewRound(store, hash, checks, observed); r.NoOverflow() && r.Outcome(after, decision)
    ensures CheckMany(store, hash, maximum, checks, observed, after, Ok(decision))
  {
    hide NewRound, Overfull, Round.Outcome;
  }

  lemma {:induction false} BatchNowIsLargest(store: Store, hash: Router, checks: seq<Check>, n: nat, observed: nat)
    requires |store| > 0 && n <= |checks|
    ensures var now := BatchNow(store, hash, checks, n, observed);
            && now >= observed
            && (forall i | 0 <= i < n :: now >= store[ShardOf(hash, |store|, checks[i].key)].latest)
            && (now == observed || exists i | 0 <= i < n :: now == store[ShardOf(hash, |store|, checks[i].key)].latest)
  {
    if n > 0 { BatchNowIsLargest(store, hash, checks, n - 1, observed); }
  }

  /** The batch's one clock value, clamped by every locked shard. */
  method BatchClock(shards: seq<Shard>, topology: BatchTopology, ghost targets: seq<nat>, observed: nat)
    returns (now: nat)
    requires Describes(topology, targets) && forall t | t in targets :: t < |shards|
    ensures now >= observed && forall i | 0 <= i < |targets| :: now >= shards[targets[i]].latestObserved
    ensures now == observed || exists i | 0 <= i < |targets| :: now == shards[targets[i]].latestObserved
  {
    now := observed;
    for p := 0 to |topology.shards|
      invariant now >= observed
      invariant forall q | 0 <= q < p :: now >= shards[topology.shards[q].index].latestObserved
      invariant now == observed || exists i | 0 <= i < |targets| :: now == shards[targets[i]].latestObserved
    {
      ghost var i :| 0 <= i < |targets| && targets[i] == topology.shards[p].index;
      now := Max(now, shards[topology.shards[p].index].latestObserved);
    }
    forall i | 0 <= i < |targets| ensures now >= shards[targets[i]].latestObserved {
      assert topology.shards[topology.inputPositions[i]].index == targets[i];
    }
  }

  lemma {:induction false} ClockIsBatchNow(store: Store, hash: Router, checks: seq<Check>, observed: nat, now: nat)
    requires |store| > 0 && now >= observed
    requires var t := Targets(hash, |store|, checks);
             && (forall i | 0 <= i < |t| :: now >= store[t[i]].latest)
             && (now == observed || exists i | 0 <= i < |t| :: now == store[t[i]].latest)
    ensures now == BatchNow(store, hash, checks, |checks|, observed)
  {
    BatchNowIsLargest(store, hash, checks, |checks|, observed);
    var largest := BatchNow(store, hash, checks, |checks|, observed);
    var t := Targets(hash, |store|, checks);
    if now != observed {
      var i :| 0 <= i < |t| && now == store[t[i]].latest;
      assert largest >= store[ShardOf(hash, |store|, checks[i].key)].latest;
    }
    if largest != observed {
      var i :| 0 <= i < |checks| && largest == store[ShardOf(hash, |store|, checks[i].key)].latest;
      assert now >= store[t[i]].latest;
    }
  }

  /** The clock value of the round these checks open. */
  method RoundClock(shards: seq<Shard>, hash: Router, checks: seq<Check>, topology: BatchTopology, observed: nat)
    returns (now: nat)
    requires |shards| > 0 && AllValid(checks) && Describes(topology, Targets(hash, |shards|, checks))
    ensures var r := NewRound(View(shards), hash, checks, observed);
            now == r.now && forall i | 0 <= i < |checks| :: View(shards)[r.Shard(i)].latest <= now
  {
    hide Judge, ShardOf, Describes;
    ghost var targets := Targets(hash, |shards|, checks);
    now := BatchClock(shards, topology, targets, observed);
    ClockIsBatchNow(View(shards), hash, checks, observed, now);
  }

  lemma {:induction false} AllowedOutcome(r: Round, allowances: seq<Allowance>)
    requires r.Valid() && r.NoFailureBefore(|r.checks|) && AllAdmitted(r, |r.checks|) && |allowances| == |r.checks|
    requires forall j | 0 <= j < |r.checks| :: allowances[j] == r.verdicts[j].allowance
    ensures r.Outcome(r.Charged(|r.checks|), AllAllowed(allowances))
  {
    hide Round.FailureAt, Round.Charged;
  }

  /** A locked shard once its clock is recorded and its bounded cleanup is done. */
  ghost predicate ShardReady(shard: Shard, before: Entries, now: nat, count: nat)
    reads shard
  {
    && shard.Valid() && shard.latestObserved == now
    && Active(shard.entries, now) == Active(before, now)
    && Roomy(shard.entries, now, count, shard.capacity)
  }

  /** Records the clock on one shard and removes at most `removals` expired
      counters for each of the `count` checks that target it. */
  method PrepareShard(shard: Shard, now: nat, removals: nat, count: nat)
    requires shard.Valid() && |shard.entries| <= shard.capacity && removals >= 1 && count <= USIZE_MAX
    modifies shard
    ensures ShardReady(shard, old(shard.entries), now, count)
    ensures BoundedCleanup(old(shard.entries), shard.entries, now, Min(USIZE_MAX, removals * count))
  {
    hide Pruned;
    shard.RecordObserved(now);
    var budget := Min(USIZE_MAX, removals * count);
    MulMonotone(1, removals, count);
    var removed := shard.PruneExpired(now, budget);
    PrunedKeepsActive(old(shard.entries), shard.entries, now, removed);
    PruneIsBounded(old(shard.entries), shard.entries, now, removed, budget);
    PruneMakesRoom(old(shard.entries), shard.entries, now, removed, budget, count, shard.capacity);
  }

  /** Prepares every locked shard, in lock order. */
  method PrepareShards(shards: seq<Shard>, removals: nat, topology: BatchTopology, ghost targets: seq<nat>, now: nat)
    requires removals >= 1 && Describes(topology, targets)
    requires forall t | t in targets :: t < |shards| && multiset(targets)[t] <= USIZE_MAX
    requires forall i, j | 0 <= i < j < |shards| :: shards[i] != shards[j]
    requires forall i | 0 <= i < |shards| :: shards[i].Valid() && |shards[i].entries| <= shards[i].capacity
    modifies shards
    ensures forall s | 0 <= s < |shards| && s in targets ::
              ShardReady(shards[s], old(shards[s].entries), now, multiset(targets)[s])
    ensures forall s | 0 <= s < |shards| && s !in targets :: unchanged(shards[s])
  {
    hide ShardReady, BoundedCleanup;
    ghost var done: set<nat> := {};
    for p := 0 to |topology.shards|
      invariant done == set q | 0 <= q < p :: topology.shards[q].index
      invariant forall s | 0 <= s < |shards| && s in done ::
                  ShardReady(shards[s], old(shards[s].entries), now, multiset(targets)[s])
      invariant forall s | 0 <= s < |shards| && s !in done :: unchanged(shards[s])
    {
      var BatchShard(index, count) := topology.shards[p];
      AscendingIsFresh(topology, targets, p);
      PrepareShard(shards[index], now, removals, count);
      done := done + {index};
    }
    forall s | 0 <= s < |shards| && s in targets ensures s in done {
      var i :| 0 <= i < |targets| && targets[i] == s;
      assert topology.shards[topology.inputPositions[i]].index == s;
    }
    forall s | s in done ensures s in targets {}
  }

  lemma {:induction false} AscendingIsFresh(topology: BatchTopology, targets: seq<nat>, p: nat)
    requires Describes(topology, targets) && p < |topology.shards|
    ensures forall q | 0 <= q < p :: topology.shards[q].index != topology.shards[p].index
  {
    assert forall q | 0 <= q <= p :: Indexes(topology.shards)[q] == topology.shards[q].index;
  }

  /** The locked shards hold the round's simple store, with room to decide it. */
  ghost predicate Ready(shards: seq<Shard>, config: Config, r: Round)
    reads shards
  {
    && WellFormed(shards, config) && r.Valid() && View(shards) == r.store
    && forall i | 0 <= i < |r.checks| ::
         var s := r.Shard(i);
         shards[s].latestObserved == r.now &&
         Roomy(shards[s].entries, r.now, CountOn(r.hash, |r.store|, r.checks, |r.checks|, s), shards[s].capacity)
  }

  lemma {:induction false} RoundShard(store: Store, hash: Router, checks: seq<Check>, observed: nat, s: nat)
    requires |store| > 0 && AllValid(checks) && s < |store|
    ensures var r := NewRound(store, hash, checks, observed);
            && r.now == BatchNow(store, hash, checks, |checks|, observed)
            && if s in Targets(hash, |store|, checks) then r.store[s] == Advance(store[s], r.now)
               && store[s].latest <= r.now
               else r.store[s] == store[s]
  {
    hide Judge, ShardOf, BatchNow;
    CountsOfTopology(hash, |store|, checks, s);
    if s in Targets(hash, |store|, checks) { NowCoversTouched(store, hash, checks, |checks|, observed, s); }
  }

  twostate lemma {:induction false} ReadyShardAbs(shard: Shard, new now: nat, new count: nat)
    requires ShardReady(shard, old(shard.entries), now, count) && old(shard.latestObserved) <= now
    ensures shard.Abs() == Advance(old(shard.Abs()), now)
    ensures shard.Valid() && |shard.entries| <= shard.capacity
  {
    ActiveTwice(old(shard.entries), old(shard.latestObserved), now);
  }

  /** Brings every locked shard to the round's clock value. */
  method PrepareRound(shards: seq<Shard>, config: Config, hash: Router, checks: seq<Check>, topology: BatchTopology,
                      ghost observed: nat, now: nat)
    requires WellFormed(shards, config) && AllValid(checks)
    requires var t := Targets(hash, |shards|, checks);
             Describes(topology, t) && forall s | s in t :: multiset(t)[s] <= config.ShardCapacity(s)
    requires now == BatchNow(View(shards), hash, checks, |checks|, observed)
    modifies shards
    ensures Ready(shards, config, NewRound(old(View(shards)), hash, checks, observed))
  {
    hide Config.ShardCapacity, Judge, ShardOf, BatchNow, Describes, NewRound, CountOn, Roomy, Targets;
    ghost var store := View(shards);
    ghost var r := NewRound(store, hash, checks, observed);
    ghost var targets := Targets(hash, |shards|, checks);
    assert forall s | s in targets :: multiset(targets)[s] <= config.ShardCapacity(s) <= USIZE_MAX;
    PrepareShards(shards, config.maxExpiredRemovals, topology, targets, now);
    forall s | 0 <= s < |shards|
      ensures shards[s].Abs() == r.store[s] && shards[s].Valid() && |shards[s].entries| <= shards[s].capacity
    {
      RoundShard(store, hash, checks, observed, s);
      assert store[s] == old(shards[s].Abs());
      if s in targets { ReadyShardAbs(shards[s], now, multiset(targets)[s]); }
    }
    assert View(shards) == r.store && WellFormed(shards, config);
    forall i | 0 <= i < |checks|
      ensures var s := r.Shard(i);
              shards[s].latestObserved == r.now
              && Roomy(shards[s].entries, r.now, CountOn(hash, |store|, checks, |checks|, s), shards[s].capacity)
    {
      assert targets[i] == r.Shard(i);
      RoundShard(store, hash, checks, observed, r.Shard(i));
      CountsOfTopology(hash, |shards|, checks, r.Shard(i));
    }
  }

  /** How many slots the first `i` checks reserve on each locked shard. */
  ghost predicate Pending(shards: seq<Shard>, r: Round, topology: BatchTopology, i: nat, pending: seq<nat>)
    requires r.Valid() && |r.store| == |shards| && i <= |r.checks|
    reads shards
  {
    && |pending| == |topology.shards|
    && forall p | 0 <= p < |pending| ::
         var s := topology.shards[p].index;
         && s < |shards|
         && pending[p] == |r.Keys(i, s) - shards[s].entries.Keys|
         && |shards[s].entries| + pending[p] <= shards[s].capacity
  }

  lemma {:induction false} KeysAtMostCount(r: Round, n: nat, s: nat)
    requires r.Valid() && n <= |r.checks|
    ensures |r.Keys(n, s)| <= CountOn(r.hash, |r.store|, r.checks, n, s)
  {
    if n > 0 {
      KeysAtMostCount(r, n - 1, s);
      UnionSize(r.Keys(n - 1, s), {r.checks[n - 1].key});
    }
  }

  lemma {:induction false} CountGrows(hash: Router, shards: nat, checks: seq<Check>, m: nat, n: nat, s: nat)
    requires shards > 0 && m <= n <= |checks|
    ensures CountOn(hash, shards, checks, m, s) <= CountOn(hash, shards, checks, n, s)
  {
    if m < n { CountGrows(hash, shards, checks, m, n - 1, s); }
  }

  lemma {:induction false} EarlierKeysAreFewer(r: Round, i: nat)
    requires r.Valid() && i < |r.checks|
    ensures |r.Keys(i, r.Shard(i))| < CountOn(r.hash, |r.store|, r.checks, |r.checks|, r.Shard(i))
  {
    hide ShardOf, Round.Keys;
    KeysAtMostCount(r, i, r.Shard(i));
    CountGrows(r.hash, |r.store|, r.checks, i + 1, |r.checks|, r.Shard(i));
  }

  lemma {:induction false} FullnessBySlots(entries: Entries, now: nat, capacity: nat, count: nat,
                                           earlier: set<CounterKey>, key: CounterKey)
    requires Roomy(entries, now, count, capacity) && |earlier| < count
    ensures var full := key !in entries && |entries| + |earlier - entries.Keys| >= capacity;
            && (full ==> Active(entries, now) == entries)
            && (full <==> key !in Active(entries, now) && |Active(entries, now).Keys + earlier| >= capacity)
  {
    hide Active, Roomy;
    FullnessIgnoresExpired(entries, now, capacity, count, earlier, key);
    assert entries.Keys + earlier == entries.Keys + (earlier - entries.Keys);
    assert |entries| == |entries.Keys|;
  }

  /** Fullness on the stored counters is fullness on the active ones. */
  lemma {:induction false} SlotDecision(entries: Entries, r: Round, i: nat, capacity: nat)
    requires r.Valid() && i < |r.checks| && r.verdicts[i].Admit?
    requires var s := r.Shard(i);
             && r.store[s].active == Active(entries, r.now) && r.store[s].capacity == capacity
             && Roomy(entries, r.now, CountOn(r.hash, |r.store|, r.checks, |r.checks|, s), capacity)
    ensures var s, key := r.Shard(i), r.checks[i].key;
            var full := key !in entries && |entries| + |r.Keys(i, s) - entries.Keys| >= capacity;
            && (full ==> Active(entries, r.now) == entries)
            && r.FailureAt(i) == if full then Some(StorageFailure(RoomAfter(Active(entries, r.now), r.now))) else None
  {
    hide Active, Roomy, ShardOf, Round.Keys, RoomAfter, CountOn;
    var s := r.Shard(i);
    EarlierKeysAreFewer(r, i);
    FullnessBySlots(entries, r.now, capacity, CountOn(r.hash, |r.store|, r.checks, |r.checks|, s), r.Keys(i, s),
                    r.checks[i].key);
  }

  lemma {:induction false} ReservedOne(keys: set<CounterKey>, stored: set<CounterKey>, key: CounterKey)
    requires key !in keys
    ensures |(keys + {key}) - stored| == |keys - stored| + if key in stored then 0 else 1
  {
    if key in stored {
      assert (keys + {key}) - stored == keys - stored;
    } else {
      assert (keys + {key}) - stored == (keys - stored) + {key};
    }
  }

  /** Reserves a slot for the check at index `i`, or says why there is none. */
  method ReserveSlot(shards: seq<Shard>, ghost config: Config, ghost r: Round, topology: BatchTopology, i: nat,
                     check: Check, now: nat, pending: seq<nat>)
    returns (denied: Option<Denial>, after: seq<nat>)
    requires Ready(shards, config, r) && i < |r.checks| && check == r.checks[i] && now == r.now && r.verdicts[i].Admit?
    requires SoundUpTo(r.checks, |r.checks|) && Describes(topology, Targets(r.hash, |shards|, r.checks))
    requires Pending(shards, r, topology, i, pending)
    ensures denied == match r.FailureAt(i)
                      case Some(StorageFailure(retry)) => Some(StorageCapacity(retry))
                      case _ => None
    ensures denied.None? ==> r.FailureAt(i).None? && Pending(shards, r, topology, i + 1, after)
  {
    hide ShardOf, Roomy, Describes, Pending, CountOn, Active, WellFormed;
    ReadyAt(shards, config, r, topology, i, pending);
    var position := topology.inputPositions[i];
    var shard := shards[topology.shards[position].index];
    SlotDecision(shard.entries, r, i, shard.capacity);
    PendingStep(shards, r, topology, i, pending);
    after := pending;
    denied := None;
    if !shard.ContainsKey(check.key) {
      if shard.Used() + pending[position] >= shard.capacity {
        var denial := StorageDenial(shard, now);
        denied := Some(denial);
        return;
      }
      after := pending[position := pending[position] + 1];
    }
  }

  lemma {:induction false} ReadyAt(shards: seq<Shard>, config: Config, r: Round, topology: BatchTopology, i: nat,
                                   pending: seq<nat>)
    requires Ready(shards, config, r) && i < |r.checks|
    requires Describes(topology, Targets(r.hash, |shards|, r.checks)) && Pending(shards, r, topology, i, pending)
    ensures |topology.inputPositions| == |r.checks| && topology.inputPositions[i] < |topology.shards| == |pending|
    ensures topology.shards[topology.inputPositions[i]].index == r.Shard(i) < |shards|
    ensures var shard := shards[r.Shard(i)];
            && shard.Valid() && shard.latestObserved == r.now
            && pending[topology.inputPositions[i]] == |r.Keys(i, r.Shard(i)) - shard.entries.Keys|
            && r.store[r.Shard(i)] == Counters(shard.capacity, r.now, Active(shard.entries, r.now))
            && Roomy(shard.entries, r.now, CountOn(r.hash, |r.store|, r.checks, |r.checks|, r.Shard(i)), shard.capacity)
  {
    hide ShardOf, Roomy, CountOn, Active, Round.Keys;
    assert Targets(r.hash, |shards|, r.checks)[i] == r.Shard(i);
    assert View(shards)[r.Shard(i)] == shards[r.Shard(i)].Abs();
  }

  lemma {:induction false} KeysStepAt(r: Round, topology: BatchTopology, i: nat)
    requires r.Valid() && i < |r.checks| && SoundUpTo(r.checks, |r.checks|)
    requires Describes(topology, Targets(r.hash, |r.store|, r.checks))
    ensures |topology.inputPositions| == |r.checks|
    ensures var s, position := r.Shard(i), topology.inputPositions[i];
            && position < |topology.shards| && topology.shards[position].index == s
            && r.checks[i].key !in r.Keys(i, s)
            && r.Keys(i + 1, s) == r.Keys(i, s) + {r.checks[i].key}
            && forall p | 0 <= p < |topology.shards| && p != position ::
                 r.Keys(i + 1, topology.shards[p].index) == r.Keys(i, topology.shards[p].index)
  {
    hide ShardOf;
    var s, position := r.Shard(i), topology.inputPositions[i];
    assert Targets(r.hash, |r.store|, r.checks)[i] == s;
    FreshKey(r, i, s);
    forall p | 0 <= p < |topology.shards| && p != position
      ensures r.Keys(i + 1, topology.shards[p].index) == r.Keys(i, topology.shards[p].index)
    {
      assert Indexes(topology.shards)[p] != Indexes(topology.shards)[position];
    }
  }

  lemma {:induction false} PendingStep(shards: seq<Shard>, r: Round, topology: BatchTopology, i: nat, pending: seq<nat>)
    requires r.Valid() && |r.store| == |shards| && i < |r.checks| && SoundUpTo(r.checks, |r.checks|)
    requires Describes(topology, Targets(r.hash, |shards|, r.checks)) && Pending(shards, r, topology, i, pending)
    ensures var p := topology.inputPositions[i];
            && p < |pending|
            && var shard := shards[r.Shard(i)];
            && (r.checks[i].key in shard.entries ==> Pending(shards, r, topology, i + 1, pending))
            && (r.checks[i].key !in shard.entries && |shard.entries| + pending[p] < shard.capacity ==>
                  Pending(shards, r, topology, i + 1, pending[p := pending[p] + 1]))
  {
    hide Describes, Round.Keys, Round.Shard;
    KeysStepAt(r, topology, i);
    var key, shard, position := r.checks[i].key, shards[r.Shard(i)], topology.inputPositions[i];
    ReservedOne(r.Keys(i, r.Shard(i)), shard.entries.Keys, key);
    var more := if key in shard.entries then pending else pending[position := pending[position] + 1];
    if key in shard.entries || |shard.entries| + pending[position] < shard.capacity {
      forall p | 0 <= p < |more|
        ensures var s := topology.shards[p].index;
                && s < |shards|
                && more[p] == |r.Keys(i + 1, s) - shards[s].entries.Keys|
                && |shards[s].entries| + more[p] <= shards[s].capacity
      {
        assert p != position ==> more[p] == pending[p];
      }
    }
  }

  lemma {:induction false} Located(r: Round, topology: BatchTopology)
    requires r.Valid() && Describes(topology, Targets(r.hash, |r.store|, r.checks))
    ensures |topology.inputPositions| == |r.checks|
    ensures forall i | 0 <= i < |r.checks| ::
              topology.inputPositions[i] < |topology.shards|
              && topology.shards[topology.inputPositions[i]].index == r.Shard(i)
  {
    hide ShardOf;
    forall i | 0 <= i < |r.checks|
      ensures topology.inputPositions[i] < |topology.shards|
              && topology.shards[topology.inputPositions[i]].index == r.Shard(i)
    {
      assert Targets(r.hash, |r.store|, r.checks)[i] == r.Shard(i);
    }
  }

  /** The active counter a check finds on its prepared shard is the one it is judged on. */
  lemma {:induction false} PreparedCounter(shards: seq<Shard>, config: Config, r: Round, store: Store, i: nat)
    requires Prepared(r, store) && Judged(r, store) && i < |r.checks| && |shards| == |r.store|
             && Ready(shards, config, r)
    ensures var shard := shards[r.Shard(i)];
            r.verdicts[i] == Judge(r.checks[i], r.now, Lookup(Active(shard.entries, r.now), r.checks[i].key))
  {
    hide Judge, Config.ShardCapacity, ShardOf, Roomy;
    var s, key := r.Shard(i), r.checks[i].key;
    TargetIsCounted(r.hash, |r.store|, r.checks, |r.checks|, i);
    assert View(shards)[s] == shards[s].Abs();
    assert Lookup(Active(store[s].active, r.now), key) == Alive(Lookup(store[s].active, key), r.now);
  }

  lemma {:induction false} ReadyIsRoundStore(shards: seq<Shard>, config: Config, r: Round)
    requires Ready(shards, config, r)
    ensures WellFormed(shards, config) && View(shards) == r.store
  {
  }

  lemma {:induction false} DistinctShards(shards: seq<Shard>, config: Config, r: Round, i: nat)
    requires r.Valid() && i <= |r.checks| && |r.store| == |shards| && Charging(shards, config, r, i)
    ensures forall a, b | 0 <= a < b < |shards| :: shards[a] != shards[b]
  {
  }

  /** A refused verdict is a quota failure; an admitted one can only lack room. */
  lemma {:induction false} FailureCases(r: Round, i: nat)
    requires r.Valid() && i < |r.checks|
    ensures r.verdicts[i].Refuse? ==> r.FailureAt(i) == Some(QuotaFailure(r.verdicts[i].denial))
    ensures r.verdicts[i].Admit? ==> r.FailureAt(i).None? || r.FailureAt(i).value.StorageFailure?
  {
    hide ShardOf, Round.Keys;
  }

  lemma {:induction false} NothingPending(shards: seq<Shard>, config: Config, r: Round, topology: BatchTopology)
    requires Ready(shards, config, r) && Describes(topology, Targets(r.hash, |shards|, r.checks))
    ensures Pending(shards, r, topology, 0, seq(|topology.shards|, _ => 0))
  {
    hide ShardOf, Config.ShardCapacity;
    forall p | 0 <= p < |topology.shards|
      ensures topology.shards[p].index < |shards| && r.Keys(0, topology.shards[p].index) == {}
    {
      assert topology.shards[p].index in Targets(r.hash, |shards|, r.checks);
    }
  }

  /** The shards while the batch is being charged: the first `i` checks are in,
      and the whole batch is known to fit. */
  ghost predicate Charging(shards: seq<Shard>, config: Config, r: Round, i: nat)
    requires r.Valid() && i <= |r.checks| && |r.store| == |shards|
    reads shards
  {
    && config.Valid() && |shards| == config.shardCount
    && (forall a, b | 0 <= a < b < |shards| :: shards[a] != shards[b])
    && (forall s | 0 <= s < |shards| ::
          && shards[s].Valid() && shards[s].capacity == config.ShardCapacity(s)
          && |shards[s].entries.Keys + r.Keys(|r.checks|, s)| <= shards[s].capacity
          && shards[s].Abs() == r.ShardAfter(i, s))
    && forall j | 0 <= j < |r.checks| :: shards[r.Shard(j)].latestObserved == r.now
  }

  lemma {:induction false} BatchFits(shards: seq<Shard>, config: Config, r: Round, topology: BatchTopology,
                                     pending: seq<nat>)
    requires Ready(shards, config, r) && Describes(topology, Targets(r.hash, |shards|, r.checks))
    requires Pending(shards, r, topology, |r.checks|, pending)
    ensures Charging(shards, config, r, 0)
  {
    hide Config.ShardCapacity, ShardOf, Describes;
    forall s | 0 <= s < |shards|
      ensures |shards[s].entries.Keys + r.Keys(|r.checks|, s)| <= shards[s].capacity
      ensures shards[s].Abs() == r.ShardAfter(0, s)
    {
      assert View(shards)[s] == r.store[s];
      FitsOn(shards, r, topology, pending, s);
    }
  }

  lemma {:induction false} FitsOn(shards: seq<Shard>, r: Round, topology: BatchTopology, pending: seq<nat>, s: nat)
    requires r.Valid() && |r.store| == |shards| && s < |shards| && |shards[s].entries| <= shards[s].capacity
    requires Describes(topology, Targets(r.hash, |shards|, r.checks))
             && Pending(shards, r, topology, |r.checks|, pending)
    ensures |shards[s].entries.Keys + r.Keys(|r.checks|, s)| <= shards[s].capacity
  {
    hide ShardOf, Round.Keys;
    var stored, keys, targets := shards[s].entries.Keys, r.Keys(|r.checks|, s), Targets(r.hash, |shards|, r.checks);
    assert stored + keys == stored + (keys - stored) && |stored| == |shards[s].entries|;
    if i :| 0 <= i < |targets| && targets[i] == s {
      assert topology.shards[topology.inputPositions[i]].index == s;
    } else {
      if key :| key in keys {
        KeyAmong(r, |r.checks|, s, key);
        var i :| 0 <= i < |r.checks| && r.Shard(i) == s;
        assert targets[i] == s;
      }
    }
  }

  /** Writing the verdict of check `i` to its shard charges it. */
  twostate lemma {:induction false} ChargeStep(shards: seq<Shard>, new config: Config, new r: Round, new i: nat)
    requires r.Valid() && i < |r.checks| && |r.store| == |shards| && r.verdicts[i].Admit?
             && r.verdicts[i].stored.expiresAt > r.now
    requires old(Charging(shards, config, r, i))
    requires var shard := shards[r.Shard(i)];
             && shard.Valid() && shard.latestObserved == old(shard.latestObserved)
             && shard.entries == old(shard.entries)[r.checks[i].key := r.verdicts[i].stored]
    requires forall s | 0 <= s < |shards| && s != r.Shard(i) :: unchanged(shards[s])
    ensures Charging(shards, config, r, i + 1)
  {
    hide Config.ShardCapacity, ShardOf, Round.Keys, Round.ActiveAfter, Active;
    var t, key, stored := r.Shard(i), r.checks[i].key, r.verdicts[i].stored;
    ActiveInsert(old(shards[t].entries), r.now, key, stored);
    KeyIsCounted(r, i);
    assert shards[t].entries.Keys + r.Keys(|r.checks|, t) == old(shards[t].entries).Keys + r.Keys(|r.checks|, t);
    forall s | 0 <= s < |shards| ensures shards[s].Abs() == r.ShardAfter(i + 1, s) {
      ActiveAfterStep(r, i, s);
      assert old(shards[s].Abs()) == r.ShardAfter(i, s);
    }
  }

  lemma {:induction false} ActiveAfterStep(r: Round, i: nat, s: nat)
    requires r.Valid() && i < |r.checks| && s < |r.store| && r.verdicts[i].Admit?
    ensures r.ActiveAfter(i + 1, s) ==
            if s == r.Shard(i) then r.ActiveAfter(i, s)[r.checks[i].key := r.verdicts[i].stored]
               else r.ActiveAfter(i, s)
  {
    hide ShardOf;
  }

  lemma {:induction false} KeyIsCounted(r: Round, i: nat)
    requires r.Valid() && i < |r.checks|
    ensures r.checks[i].key in r.Keys(|r.checks|, r.Shard(i))
  {
    hide ShardOf;
    KeysGrow(r, i + 1, |r.checks|, r.Shard(i));
  }

  lemma {:induction false} AllCharged(shards: seq<Shard>, config: Config, r: Round)
    requires r.Valid() && |r.store| == |shards| && Charging(shards, config, r, |r.checks|)
    ensures WellFormed(shards, config) && View(shards) == r.Charged(|r.checks|)
  {
    hide Config.ShardCapacity, ShardOf;
    forall s | 0 <= s < |shards| ensures |shards[s].entries| <= shards[s].capacity {
      SubsetSize(shards[s].entries.Keys, shards[s].entries.Keys + r.Keys(|r.checks|, s));
    }
  }

  /** The active counter the next charge will find is the one it was judged on. */
  lemma {:induction false} JudgedCounter(shards: seq<Shard>, config: Config, r: Round, store: Store, i: nat)
    requires Prepared(r, store) && Judged(r, store) && i < |r.checks| && |shards| == |r.store|
             && Charging(shards, config, r, i)
    ensures var shard := shards[r.Shard(i)];
            && shard.Valid() && (r.verdicts[i].Admit? ==> r.verdicts[i].stored.expiresAt > r.now)
            && r.verdicts[i] == Judge(r.checks[i], r.now, Lookup(Active(shard.entries, r.now), r.checks[i].key))
  {
    hide Judge, Config.ShardCapacity, ShardOf;
    var s, key := r.Shard(i), r.checks[i].key;
    FreshKey(r, i, s);
    ChargedElsewhere(r, i, s, key);
    TargetIsCounted(r.hash, |r.store|, r.checks, |r.checks|, i);
    assert Lookup(Active(store[s].active, r.now), key) == Alive(Lookup(store[s].active, key), r.now);
  }
}

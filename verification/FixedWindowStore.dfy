/** The process-local fixed-window store. */
module FixedWindowStore {
  import opened Basics
  import opened Policies
  import opened Batches
  import opened GcraEvaluator
  import opened Counters
  import opened StoreTheorems
  import opened Shards
  import opened StoreConfig
  import opened BoundedShards
  import opened Topology
  import opened BatchPhases

  function RemainingQuota(limit: nat, used: nat): nat { Monus(limit, used) }

  predicate WindowCheck(check: Check) { ValidCheck(check) && check.policy.FixedWindow? }

  function QuotaDenialOf(shard: Shard, check: Check, now: nat): (denial: Option<QuotaDenial>)
    requires WindowCheck(check)
    reads shard
    ensures denial == match Judge(check, now, Lookup(Active(shard.entries, now), check.key))
                      case Refuse(d) => Some(d)
                      case _ => None
    ensures denial.None? <==> Judge(check, now, Lookup(Active(shard.entries, now), check.key)).Admit?
  {
    match shard.ActiveEntry(check.key, now)
    case None => None
    case Some(entry) =>
      if check.cost > RemainingQuota(check.policy.limit, entry.value)
      then Some(QuotaDenial(check.policy.limit, Monus(entry.expiresAt, now)))
      else None
  }

  method Consume(shard: Shard, check: Check, now: nat) returns (allowance: Allowance)
    requires shard.Valid() && WindowCheck(check)
    requires Judge(check, now, Lookup(Active(shard.entries, now), check.key)).Admit?
    modifies shard
    ensures shard.Valid() && shard.latestObserved == old(shard.latestObserved)
    ensures var verdict := old(Judge(check, now, Lookup(Active(shard.entries, now), check.key)));
            shard.entries == old(shard.entries)[check.key := verdict.stored] && allowance == verdict.allowance
  {
    var limit := check.policy.limit;
    var expiresAt := now + check.policy.window;
    var active := shard.ActiveEntry(check.key, now);
    if active.Some? {
      var remaining := RemainingQuota(limit, active.value.value);
      shard.UpdateValue(check.key, Min(U64_MAX, active.value.value + check.cost));
      return Allowance(limit, Monus(remaining, check.cost), Monus(active.value.expiresAt, now));
    }
    shard.Replace(check.key, check.cost, expiresAt);
    return Allowance(limit, RemainingQuota(limit, check.cost), Monus(expiresAt, now));
  }

  /** One check against its own shard, with bounded cleanup. */
  method CheckShard(shard: Shard, removals: nat, check: Check, observed: nat) returns (decision: Decision)
    requires shard.Valid() && |shard.entries| <= shard.capacity && removals >= 1 && WindowCheck(check)
    modifies shard
    ensures shard.Valid() && |shard.entries| <= shard.capacity
    ensures (shard.Abs(), Ok(decision)) == old(CheckOne(shard.Abs(), check, observed))
    ensures BoundedCleanup(old(shard.entries), shard.entries, Max(observed, old(shard.latestObserved)), removals)
  {
    hide Judge, Pruned, BoundedCleanup;
    var now := Max(observed, shard.latestObserved);
    shard.RecordObserved(now);
    var removed := shard.PruneExpired(now, removals);
    PrunedKeepsActive(old(shard.entries), shard.entries, now, removed);
    PruneIsBounded(old(shard.entries), shard.entries, now, removed, removals);
    PruneMakesRoom(old(shard.entries), shard.entries, now, removed, removals, 1, shard.capacity);
    FullnessOfOne(shard.entries, now, shard.capacity, check.key);
    AdvanceForgets(old(shard.entries), old(shard.latestObserved), now, check.key);
    var denial := QuotaDenialOf(shard, check, now);
    if denial.Some? {
      decision := QuotaDecision(check, denial.value);
    } else if !shard.ContainsKey(check.key) && shard.Used() >= shard.capacity {
      var storage := StorageDenial(shard, now);
      decision := Denied(storage);
    } else {
      ghost var verdict := Judge(check, now, Lookup(Active(shard.entries, now), check.key));
      AdmittedOutlives(check, now, Lookup(Active(shard.entries, now), check.key));
      ActiveInsert(shard.entries, now, check.key, verdict.stored);
      InsertStaysBounded(old(shard.entries), shard.entries, now, removals, check.key, verdict.stored);
      var allowance := Consume(shard, check, now);
      decision := Allowed(allowance);
    }
  }

  lemma {:induction false} WindowsNeverOverflow(r: Round, store: Store)
    requires Judged(r, store) && WindowBatch(r.checks)
    ensures r.NoOverflow()
  {
    hide Evaluate;
  }

  predicate WindowBatch(checks: seq<Check>) { forall i | 0 <= i < |checks| :: WindowCheck(checks[i]) }

  class MemoryStore {
    const config: Config
    const hash: Router
    const shards: seq<Shard>

    /** Every shard's index agrees with its map, and none is over capacity. */
    ghost predicate Valid()
      reads shards
    {
      WellFormed(shards, config)
    }

    /** The simple store this one stands for. */
    ghost function Contents(): Store
      reads shards
    {
      View(shards)
    }

    constructor (config: Config, hash: Router)
      requires config.Valid()
      ensures Valid() && fresh(shards) && this.config == config && this.hash == hash
      ensures forall s | 0 <= s < |Contents()| :: Contents()[s] == Counters(config.ShardCapacity(s), 0, map[])
    {
      var created := NewShards(config);
      this.config, this.hash, this.shards := config, hash, created;
    }

    /** Evaluates and, when allowed, charges one check. */
    method Check(check: Check, observed: nat) returns (decision: Decision)
      requires Valid() && WindowCheck(check)
      modifies shards
      ensures Valid()
      ensures (Contents(), Ok(decision)) == old(CheckIn(Contents(), hash, check, observed))
    {
      hide Judge, ShardOf, Config.ShardCapacity, CheckOne;
      var index := ShardOf(hash, |shards|, check.key);
      decision := CheckShard(shards[index], config.maxExpiredRemovals, check, observed);
      assert Contents() == old(Contents())[index := shards[index].Abs()];
    }

    /** Evaluates a nonempty batch atomically. */
    method CheckAll(checks: seq<Check>, observed: nat) returns (answer: Result<BatchDecision, BatchFailure>)
      requires Valid() && WindowBatch(checks)
      modifies shards
      ensures Valid()
      ensures CheckMany(old(Contents()), hash, config.maxBatchSize, checks, observed, Contents(), answer)
      ensures answer.Err? ==> forall s | 0 <= s < |shards| :: unchanged(shards[s])
    {
      hide Judge, ShardOf, Config.ShardCapacity, CheckMany, WellFormed, Describes, NewRound;
      ghost var store := Contents();
      ContentsCapacities(shards, config);
      var validated := ValidateBatch(checks, config.maxBatchSize);
      if validated.Err? {
        InvalidIsRejected(store, hash, config.maxBatchSize, checks, observed, validated.error);
        return Err(InvalidBatch(validated.error));
      }
      var plan := PlanBatch(hash, config, checks);
      if plan.Err? {
        OverfullIsRejected(store, hash, config, checks, observed, plan.error);
        return Err(plan.error);
      }
      PlannedIsNotOverfull(hash, config, checks, store);
      var decision := Decide(checks, plan.value, observed);
      OutcomeIsDecided(store, hash, config.maxBatchSize, checks, observed, Contents(), decision);
      return Ok(decision);
    }

    /** The batch once its shards are known and locked. */
    method Decide(checks: seq<Check>, topology: BatchTopology, observed: nat) returns (decision: BatchDecision)
      requires Valid() && WindowBatch(checks) && WellFormedBatch(checks, config.maxBatchSize)
      requires var t := Targets(hash, |shards|, checks);
               Describes(topology, t) && forall s | s in t :: multiset(t)[s] <= config.ShardCapacity(s)
      modifies shards
      ensures Valid()
      ensures var r := NewRound(old(Contents()), hash, checks, observed);
              r.NoOverflow() && r.Outcome(Contents(), decision)
    {
      hide Judge, ShardOf, Config.ShardCapacity, Describes, NewRound, Ready, Pending, Charging, Judged, Prepared,
           WellFormed,
           Round.Outcome, Round.NoFailureBefore, Round.NoOverflow, AllAdmitted, BatchNow, View;
      ContentsCapacities(shards, config);
      ghost var store := Contents();
      ghost var r := NewRound(store, hash, checks, observed);
      NewRoundIsPrepared(store, hash, checks, observed);
      WindowsNeverOverflow(r, store);
      var now := RoundClock(shards, hash, checks, topology, observed);
      PrepareRound(shards, config, hash, checks, topology, observed, now);
      ReadyIsRoundStore(shards, config, r);
      var denied := Preflight(shards, config, r, store, checks, topology, now);
      if denied.Some? { return denied.value; }
      NoFailureAdmits(r, |checks|);
      var allowances := ChargeAll(shards, config, r, store, checks, topology, now);
      AllowedOutcome(r, allowances);
      return AllAllowed(allowances);
    }
  }

  /** The first check the batch cannot take, in caller order. */
  method Preflight(shards: seq<Shard>, ghost config: Config, ghost r: Round, ghost store: Store, checks: seq<Check>,
                   topology: BatchTopology, now: nat)
    returns (denied: Option<BatchDecision>)
    requires Prepared(r, store) && Judged(r, store) && r.Valid() && |shards| == |r.store| && r.NoOverflow()
             && Ready(shards, config, r)
    requires Describes(topology, Targets(r.hash, |shards|, r.checks)) && checks == r.checks && now == r.now
             && WindowBatch(checks)
    ensures denied.Some? ==> !r.NoFailureBefore(|checks|) && r.Outcome(r.store, denied.value)
    ensures denied.None? ==> r.NoFailureBefore(|checks|) && Charging(shards, config, r, 0)
  {
    hide Judge, ShardOf, Config.ShardCapacity, Describes, Ready, Pending, Charging, Judged, Round.FailureAt;
    NothingPending(shards, config, r, topology);
    Located(r, topology);
    var pending := seq(|topology.shards|, _ => 0);
    for i := 0 to |checks|
      invariant Pending(shards, r, topology, i, pending) && r.NoFailureBefore(i)
    {
      var shard := shards[topology.shards[topology.inputPositions[i]].index];
      PreparedCounter(shards, config, r, store, i);
      var denial := QuotaDenialOf(shard, checks[i], now);
      FailureCases(r, i);
      if denial.Some? {
        return Some(if checks[i].mode == Shadow then BatchShadowDenied(i, |checks|, denial.value)
                    else BatchDenied(i, |checks|, QuotaExceeded(denial.value)));
      }
      var full, after := ReserveSlot(shards, config, r, topology, i, checks[i], now, pending);
      if full.Some? {
        return Some(BatchDenied(i, |checks|, full.value));
      }
      pending := after;
    }
    BatchFits(shards, config, r, topology, pending);
    denied := None;
  }

  /** Charges every check in caller order. */
  method ChargeAll(shards: seq<Shard>, ghost config: Config, ghost r: Round, ghost store: Store, checks: seq<Check>,
                   topology: BatchTopology, now: nat)
    returns (allowances: seq<Allowance>)
    requires Prepared(r, store) && Judged(r, store) && r.Valid() && |shards| == |r.store|
             && Charging(shards, config, r, 0)
    requires Describes(topology, Targets(r.hash, |shards|, r.checks)) && checks == r.checks && now == r.now
             && WindowBatch(checks)
    requires AllAdmitted(r, |checks|)
    modifies shards
    ensures WellFormed(shards, config) && View(shards) == r.Charged(|checks|)
    ensures |allowances| == |checks| && forall j | 0 <= j < |checks| :: allowances[j] == r.verdicts[j].allowance
  {
    hide Judge, ShardOf, Describes, Charging, Judged, Prepared;
    Located(r, topology);
    allowances := [];
    for i := 0 to |checks|
      invariant Charging(shards, config, r, i) && |allowances| == i
      invariant forall j | 0 <= j < i :: allowances[j] == r.verdicts[j].allowance
    {
      var shard := shards[topology.shards[topology.inputPositions[i]].index];
      JudgedCounter(shards, config, r, store, i);
      DistinctShards(shards, config, r, i);
      label before:
      var allowance := Consume(shard, checks[i], now);
      ChargeStep@before(shards, config, r, i);
      allowances := allowances + [allowance];
    }
    AllCharged(shards, config, r);
  }
}

/** The process-local GCRA store: the same shards, judged by the exact evaluator. */
module GcraStoreModel {
  import opened Basics
  import opened Policies
  import opened Batches
  import opened GcraEvaluator
  import opened Counters
  import opened StoreTheorems
  import opened Shards
  import opened StoreConfig
  import opened BoundedShards
  import opened Topology
  import opened BatchPhases

  predicate GcraCheck(check: Check) { ValidCheck(check) && check.policy.Gcra? }

  predicate GcraBatch(checks: seq<Check>) { forall i | 0 <= i < |checks| :: GcraCheck(checks[i]) }

  /** Evaluates a check on its shard's active counter. */
  function EvaluateOn(shard: Shard, check: Check, now: nat): (e: Result<Evaluation, ArithmeticOverflow>)
    requires GcraCheck(check)
    reads shard
    ensures VerdictOf(e) == Judge(check, now, Lookup(Active(shard.entries, now), check.key))
  {
    var active := shard.ActiveEntry(check.key, now);
    Evaluate(check.policy, check.cost, now, if active.Some? then Some(active.value.value) else None)
  }

  function VerdictOf(e: Result<Evaluation, ArithmeticOverflow>): Verdict {
    match e
    case Err(_) => Overflow
    case Ok(Refused(denial)) => Refuse(denial)
    case Ok(Admissible(p)) => Admit(Stored(p.tat, p.expiresAt), p.allowance)
  }

  method Consume(shard: Shard, check: Check, pending: PendingAllowance) returns (allowance: Allowance)
    requires shard.Valid()
    modifies shard
    ensures shard.Valid() && shard.latestObserved == old(shard.latestObserved)
    ensures shard.entries == old(shard.entries)[check.key := Stored(pending.tat, pending.expiresAt)]
    ensures allowance == pending.allowance
  {
    shard.Replace(check.key, pending.tat, pending.expiresAt);
    return pending.allowance;
  }

  /** One check against its own shard: evaluated before cleanup, and an overflow
      leaves even the watermark untouched. */
  method CheckShard(shard: Shard, removals: nat, check: Check, observed: nat)
    returns (answer: Result<Decision, ArithmeticOverflow>)
    requires shard.Valid() && |shard.entries| <= shard.capacity && removals >= 1 && GcraCheck(check)
    modifies shard
    ensures shard.Valid() && |shard.entries| <= shard.capacity
    ensures (shard.Abs(), answer) == old(CheckOne(shard.Abs(), check, observed))
    ensures answer.Err? ==> unchanged(shard)
    ensures answer.Ok? ==>
            BoundedCleanup(old(shard.entries), shard.entries, Max(observed, old(shard.latestObserved)), removals)
  {
    hide Judge, Pruned, Evaluate, BoundedCleanup;
    var now := Max(observed, shard.latestObserved);
    AdvanceForgets(shard.entries, shard.latestObserved, now, check.key);
    var evaluated := EvaluateOn(shard, check, now);
    if evaluated.Err? { return Err(ArithmeticOverflow); }
    shard.RecordObserved(now);
    var removed := shard.PruneExpired(now, removals);
    PrunedKeepsActive(old(shard.entries), shard.entries, now, removed);
    PruneIsBounded(old(shard.entries), shard.entries, now, removed, removals);
    PruneMakesRoom(old(shard.entries), shard.entries, now, removed, removals, 1, shard.capacity);
    FullnessOfOne(shard.entries, now, shard.capacity, check.key);
    match evaluated.value
    case Refused(denial) =>
      answer := Ok(QuotaDecision(check, denial));
    case Admissible(pending) =>
      if !shard.ContainsKey(check.key) && shard.Used() >= shard.capacity {
        var storage := StorageDenial(shard, now);
        answer := Ok(Denied(storage));
      } else {
        AdmittedOutlives(check, now, Lookup(Active(shard.entries, now), check.key));
        ActiveInsert(shard.entries, now, check.key, Stored(pending.tat, pending.expiresAt));
        InsertStaysBounded(old(shard.entries), shard.entries, now, removals, check.key,
                           Stored(pending.tat, pending.expiresAt));
        var allowance := Consume(shard, check, pending);
        answer := Ok(Allowed(allowance));
      }
  }

  class GcraStore {
    const config: Config
    const hash: Router
    const shards: seq<Shard>

    ghost predicate Valid()
      reads shards
    {
      WellFormed(shards, config)
    }

    ghost function Contents(): Store
      reads shards
    {
      View(shards)
    }

    constructor (config: Config, hash: Router)
      requires config.Valid()
      ensures Valid() && fresh(shards) && this.config == config && this.hash == hash
      ensures forall s | 0 <= s < |Contents()| :: Contents()[s] == Counters(config.ShardCapacity(s), 0, map[])
    {
      var created := NewShards(config);
      this.config, this.hash, this.shards := config, hash, created;
    }

    /** Evaluates and, when allowed, charges one check. */
    method Check(check: Check, observed: nat) returns (answer: Result<Decision, ArithmeticOverflow>)
      requires Valid() && GcraCheck(check)
      modifies shards
      ensures Valid()
      ensures (Contents(), answer) == old(CheckIn(Contents(), hash, check, observed))
      ensures answer.Err? ==> forall s | 0 <= s < |shards| :: unchanged(shards[s])
    {
      hide Judge, ShardOf, Config.ShardCapacity, CheckOne;
      var index := ShardOf(hash, |shards|, check.key);
      answer := CheckShard(shards[index], config.maxExpiredRemovals, check, observed);
      assert Contents() == old(Contents())[index := shards[index].Abs()];
    }

    /** Evaluates a nonempty batch atomically. */
    method CheckAll(checks: seq<Check>, observed: nat) returns (answer: Result<BatchDecision, BatchFailure>)
      requires Valid() && GcraBatch(checks)
      modifies shards
      ensures Valid()
      ensures CheckMany(old(Contents()), hash, config.maxBatchSize, checks, observed, Contents(), answer)
      ensures answer.Err? ==> forall s | 0 <= s < |shards| :: unchanged(shards[s])
    {
      hide Judge, ShardOf, Config.ShardCapacity, CheckMany, WellFormed, Describes, NewRound;
      ghost var store := Contents();
      ContentsCapacities(shards, config);
      var validated := ValidateBatch(checks, config.maxBatchSize);
      if validated.Err? {
        InvalidIsRejected(store, hash, config.maxBatchSize, checks, observed, validated.error);
        return Err(InvalidBatch(validated.error));
      }
      var plan := PlanBatch(hash, config, checks);
      if plan.Err? {
        OverfullIsRejected(store, hash, config, checks, observed, plan.error);
        return Err(plan.error);
      }
      PlannedIsNotOverfull(hash, config, checks, store);
      var decision := Decide(checks, plan.value, observed);
      match decision
      case None =>
        OverflowIsRejected(store, hash, config.maxBatchSize, checks, observed);
        return Err(BatchOverflow);
      case Some(d) =>
        OutcomeIsDecided(store, hash, config.maxBatchSize, checks, observed, Contents(), d);
        return Ok(d);
    }

    /** The batch once its shards are known and locked; `None` on overflow. */
    method Decide(checks: seq<Check>, topology: BatchTopology, observed: nat) returns (decision: Option<BatchDecision>)
      requires Valid() && GcraBatch(checks) && WellFormedBatch(checks, config.maxBatchSize)
      requires var t := Targets(hash, |shards|, checks);
               Describes(topology, t) && forall s | s in t :: multiset(t)[s] <= config.ShardCapacity(s)
      modifies shards
      ensures Valid()
      ensures var r := NewRound(old(Contents()), hash, checks, observed);
              match decision
              case None =>
                !r.NoOverflow() && Contents() == old(Contents()) && forall s | 0 <= s < |shards| :: unchanged(shards[s])
              case Some(d) => r.NoOverflow() && r.Outcome(Contents(), d)
    {
      hide Judge, ShardOf, Config.ShardCapacity, Describes, NewRound, Ready, Pending, Charging, Judged, Prepared,
           WellFormed,
           Round.Outcome, Round.NoFailureBefore, Round.NoOverflow, AllAdmitted, BatchNow, View;
      ContentsCapacities(shards, config);
      ghost var store := Contents();
      ghost var r := NewRound(store, hash, checks, observed);
      NewRoundIsPrepared(store, hash, checks, observed);
      var now := RoundClock(shards, hash, checks, topology, observed);
      var evaluations := EvaluateAll(shards, config, r, store, checks, topology, now);
      if evaluations.None? { return None; }
      PrepareRound(shards, config, hash, checks, topology, observed, now);
      ReadyIsRoundStore(shards, config, r);
      var denied := Preflight(shards, config, r, store, checks, evaluations.value, topology, now);
      if denied.Some? { return denied; }
      NoFailureAdmits(r, |checks|);
      var allowances := ChargeAll(shards, config, r, store, checks, evaluations.value, topology, now);
      AllowedOutcome(r, allowances);
      return Some(AllAllowed(allowances));
    }
  }

  /** The evaluations are the round's verdicts. */
  predicate Evaluated(r: Round, evaluations: seq<Evaluation>, n: nat) {
    |evaluations| == n <= |r.verdicts| && forall i | 0 <= i < n :: r.verdicts[i] == VerdictOf(Ok(evaluations[i]))
  }

  /** Evaluates every check before any shard changes; `None` on overflow. */
  method EvaluateAll(shards: seq<Shard>, ghost config: Config, ghost r: Round, ghost store: Store, checks: seq<Check>,
                     topology: BatchTopology, now: nat)
    returns (evaluations: Option<seq<Evaluation>>)
    requires WellFormed(shards, config) && View(shards) == store && Judged(r, store) && r.Valid()
    requires forall i | 0 <= i < |r.checks| :: store[r.Shard(i)].latest <= now
    requires Describes(topology, Targets(r.hash, |shards|, r.checks)) && checks == r.checks && now == r.now
             && GcraBatch(checks)
    ensures evaluations.None? ==> !r.NoOverflow()
    ensures evaluations.Some? ==> r.NoOverflow() && Evaluated(r, evaluations.value, |checks|)
  {
    hide Judge, ShardOf, Config.ShardCapacity, Describes, Evaluate;
    Located(r, topology);
    var values: seq<Evaluation> := [];
    for i := 0 to |checks|
      invariant Evaluated(r, values, i)
    {
      var shard := shards[topology.shards[topology.inputPositions[i]].index];
      assert store[r.Shard(i)] == shard.Abs();
      AdvanceForgets(shard.entries, shard.latestObserved, now, checks[i].key);
      var e := EvaluateOn(shard, checks[i], now);
      if e.Err? {
        assert r.verdicts[i].Overflow?;
        return None;
      }
      values := values + [e.value];
    }
    return Some(values);
  }

  /** The first check the batch cannot take, in caller order. */
  method Preflight(shards: seq<Shard>, ghost config: Config, ghost r: Round, ghost store: Store, checks: seq<Check>,
                   evaluations: seq<Evaluation>, topology: BatchTopology, now: nat)
    returns (denied: Option<BatchDecision>)
    requires Prepared(r, store) && r.Valid() && |shards| == |r.store| && Ready(shards, config, r)
    requires Evaluated(r, evaluations, |checks|)
    requires Describes(topology, Targets(r.hash, |shards|, r.checks)) && checks == r.checks && now == r.now
             && GcraBatch(checks)
    ensures denied.Some? ==> !r.NoFailureBefore(|checks|) && r.Outcome(r.store, denied.value)
    ensures denied.None? ==> r.NoFailureBefore(|checks|) && Charging(shards, config, r, 0)
  {
    hide Judge, ShardOf, Config.ShardCapacity, Describes, Ready, Pending, Charging, Round.FailureAt;
    NothingPending(shards, config, r, topology);
    Located(r, topology);
    var pending := seq(|topology.shards|, _ => 0);
    for i := 0 to |checks|
      invariant Pending(shards, r, topology, i, pending) && r.NoFailureBefore(i)
    {
      FailureCases(r, i);
      if evaluations[i].Refused? {
        var denial := evaluations[i].denial;
        return Some(if checks[i].mode == Shadow then BatchShadowDenied(i, |checks|, denial)
                    else BatchDenied(i, |checks|, QuotaExceeded(denial)));
      }
      var full, after := ReserveSlot(shards, config, r, topology, i, checks[i], now, pending);
      if full.Some? {
        return Some(BatchDenied(i, |checks|, full.value));
      }
      pending := after;
    }
    BatchFits(shards, config, r, topology, pending);
    denied := None;
  }

  /** Charges every check in caller order. */
  method ChargeAll(shards: seq<Shard>, ghost config: Config, ghost r: Round, ghost store: Store, checks: seq<Check>,
                   evaluations: seq<Evaluation>, topology: BatchTopology, now: nat)
    returns (allowances: seq<Allowance>)
    requires Prepared(r, store) && Judged(r, store) && r.Valid() && |shards| == |r.store|
             && Charging(shards, config, r, 0)
    requires Evaluated(r, evaluations, |checks|)
    requires Describes(topology, Targets(r.hash, |shards|, r.checks)) && checks == r.checks && now == r.now
             && GcraBatch(checks)
    requires AllAdmitted(r, |checks|)
    modifies shards
    ensures WellFormed(shards, config) && View(shards) == r.Charged(|checks|)
    ensures |allowances| == |checks| && forall j | 0 <= j < |checks| :: allowances[j] == r.verdicts[j].allowance
  {
    hide Judge, ShardOf, Describes, Charging, Judged, Prepared;
    Located(r, topology);
    allowances := [];
    for i := 0 to |checks|
      invariant Charging(shards, config, r, i) && |allowances| == i
      invariant forall j | 0 <= j < i :: allowances[j] == r.verdicts[j].allowance
    {
      var shard := shards[topology.shards[topology.inputPositions[i]].index];
      JudgedCounter(shards, config, r, store, i);
      DistinctShards(shards, config, r, i);
      label before:
      var allowance := Consume(shard, checks[i], evaluations[i].pending);
      ChargeStep@before(shards, config, r, i);
      allowances := allowances + [allowance];
    }
    AllCharged(shards, config, r);
  }
}

/** Every run of the GCRA store, under any clock, is a token bucket per key. */
module GcraRuns {
  import opened Basics
  import opened Policies
  import opened GcraEvaluator
  import opened GcraHistory
  import opened Counters
  import opened StoreTheorems
  import opened StoreRuns

  /** A stored counter is the log's arrival time until it is fully replenished. */
  predicate GcraLane(policy: Policy, lane: Lane, log: seq<Charge>)
    requires policy.Gcra? && policy.quota > 0
  {
    && Conforming(policy, log) && EndOf(log) <= lane.latest
    && match lane.entry
       case Some(e) => e.value == VirtualTat(policy, log) && e.expiresAt == DivCeil(e.value, policy.quota)
       case None => VirtualTat(policy, log) <= lane.latest * policy.quota
  }

  function TatOf(entry: Option<Stored>): Option<nat> {
    if entry.Some? then Some(entry.value.value) else None
  }

  /** At any later instant the surviving entry carries the log's whole debt. */
  lemma {:induction false} LaneDebt(policy: Policy, lane: Lane, log: seq<Charge>, now: nat)
    requires policy.Gcra? && policy.quota > 0 && GcraLane(policy, lane, log) && lane.latest <= now
    ensures var tat := TatOf(Alive(lane.entry, now));
            var virtual := VirtualTat(policy, log);
            && Debt(policy, tat, now) == Debt(policy, Some(virtual), now) <= Full(policy)
            && Max(if tat.Some? then tat.value else 0, now * policy.quota) == Max(virtual, now * policy.quota)
  {
    MulMonotone(lane.latest, now, policy.quota);
    MulMonotone(EndOf(log), now, policy.quota);
    if lane.entry.Some? { DivCeilIff(lane.entry.value.value, policy.quota, now); }
  }

  lemma {:induction false} ConformingSnoc(policy: Policy, log: seq<Charge>, c: Charge)
    requires policy.Gcra? && Conforming(policy, log) && EndOf(log) <= c.time
    requires Max(VirtualTat(policy, log),
                 c.time * policy.quota) + c.cost * policy.period <= c.time * policy.quota + Full(policy)
    ensures Conforming(policy, log + [c])
    ensures VirtualTat(policy, log + [c]) ==
            Max(VirtualTat(policy, log), c.time * policy.quota) + c.cost * policy.period
    ensures EndOf(log + [c]) == c.time
  {
    assert (log + [c])[..|log|] == log;
  }

  lemma {:induction false} GcraLaneStep(policy: Policy, op: Op, key: CounterKey, before: Lane, after: Lane,
                                        charges: seq<Charge>, log: seq<Charge>)
    requires ValidPolicy(policy) && policy.Gcra? && GcraLane(policy, before, log)
    requires LaneStep(op, key, before, after, charges)
    requires forall i | 0 <= i < |op.Checks()| && op.Checks()[i].key == key :: op.Checks()[i].policy == policy
    ensures GcraLane(policy, after, log + charges)
  {
    hide Judge, DivCeil;
    if charges == [] {
      MulMonotone(before.latest, after.latest, policy.quota);
      assert log + [] == log;
      if before.entry.Some? { DivCeilIff(before.entry.value.value, policy.quota, after.latest); }
    } else {
      var i :| 0 <= i < |op.Checks()| && op.Checks()[i].key == key
          && charges == [Charge(after.latest, op.Checks()[i].cost)] &&
               ValidCheck(op.Checks()[i]) &&
               Judge(op.Checks()[i], after.latest, Alive(before.entry, after.latest)).Admit? &&
               after.entry == Some(Judge(op.Checks()[i], after.latest, Alive(before.entry, after.latest)).stored);
      ChargedLaneHolds(op.Checks()[i], before, after, log);
    }
  }

  /** Charging an admitted check leaves its lane in step with the longer log. */
  lemma {:induction false} ChargedLaneHolds(check: Check, before: Lane, after: Lane, log: seq<Charge>)
    requires ValidCheck(check) && check.policy.Gcra? && GcraLane(check.policy, before, log)
             && before.latest <= after.latest
    requires var verdict := Judge(check, after.latest, Alive(before.entry, after.latest));
             verdict.Admit? && after.entry == Some(verdict.stored)
    ensures GcraLane(check.policy, after, log + [Charge(after.latest, check.cost)])
  {
    hide Evaluate, DivCeil, Draw;
    var policy, now := check.policy, after.latest;
    LaneDebt(policy, before, log, now);
    EvaluateIsTokenBucket(policy, check.cost, now, TatOf(Alive(before.entry, now)));
    ConformingSnoc(policy, log, Charge(now, check.cost));
  }

  lemma {:induction false} GcraLaneHolds(hash: Router, maximum: nat, start: Store, run: seq<Event>,
                                         policyOf: CounterKey -> Policy, key: CounterKey)
    requires Run(hash, maximum, start, run) && AllKeyed(run, policyOf)
    requires ValidPolicy(policyOf(key)) && policyOf(key).Gcra?
    ensures forall i | 0 <= i < |run| :: |run[i].after| > 0
    ensures GcraLane(policyOf(key), LaneOf(StoreAfter(start, run), hash, key), Log(hash, run, key))
  {
    hide GcraLane, LaneStep, Step;
    RunShape(hash, maximum, start, run);
    if run == [] {
      GcraLaneStarts(policyOf(key), start, hash, key);
    } else {
      var prefix, last := run[..|run| - 1], run[|run| - 1];
      var store := StoreAfter(start, prefix);
      GcraLaneHolds(hash, maximum, start, prefix, policyOf, key);
      LaneFollowsStep(hash, maximum, store, last.op, last.after, last.answer, key);
      assert Keyed(last.op, policyOf);
      GcraLaneStep(policyOf(key), last.op, key, LaneOf(store, hash, key), LaneOf(last.after, hash, key),
                   ChargesIn(last.op, last.answer, key, LaneOf(last.after, hash, key).latest), Log(hash, prefix, key));
    }
  }

  lemma {:induction false} GcraLaneStarts(policy: Policy, start: Store, hash: Router, key: CounterKey)
    requires policy.Gcra? && policy.quota > 0 && Initial(start)
    ensures GcraLane(policy, LaneOf(start, hash, key), [])
  {
  }

  /** In every run the store charges a key at most one burst plus what its quota
      replenishes, between any two logical instants. */
  lemma {:induction false} GcraRunKeepsQuota(hash: Router, maximum: nat, start: Store, run: seq<Event>,
                          policyOf: CounterKey -> Policy, key: CounterKey, from: nat, to: nat)
    requires Run(hash, maximum, start, run) && AllKeyed(run, policyOf) && from <= to
    requires ValidPolicy(policyOf(key)) && policyOf(key).Gcra?
    ensures forall i | 0 <= i < |run| :: |run[i].after| > 0
    ensures CostBetween(Log(hash, run, key), from, to) * policyOf(key).period
            <= policyOf(key).burst * policyOf(key).period + (to - from) * policyOf(key).quota
  {
    GcraLaneHolds(hash, maximum, start, run, policyOf, key);
    QuotaBound(policyOf(key), Log(hash, run, key), from, to);
  }

  /** What the store answers, as a bucket would: a storage denial is no quota
      answer, so the bucket must then have granted. */
  ghost predicate AnswersAs(decision: Decision, answer: BucketAnswer) {
    match decision
    case Allowed(a) => answer == Granted(a.available, a.replenishesAfter)
    case Denied(QuotaExceeded(d)) => answer == Short(d.retryAfter)
    case ShadowDenied(d) => answer == Short(d.retryAfter)
    case Denied(StorageCapacity(_)) => answer.Granted?
  }

  /** The quota verdict on a lane is the reference bucket's answer, and fails
      only where the arithmetic truly needs more than 128 bits. */
  lemma {:induction false} VerdictIsBucket(check: Check, lane: Lane, log: seq<Charge>, now: nat)
    requires ValidCheck(check) && check.policy.Gcra? && GcraLane(check.policy, lane, log) && lane.latest <= now
    ensures Conforming(check.policy, log) && EndOf(log) <= now
    ensures Reachable(check.policy, Some(VirtualTat(check.policy, log)), now)
    ensures var reference := Draw(check.policy, BucketAfter(check.policy, log), now, check.cost).1;
            match Judge(check, now, Alive(lane.entry, now))
            case Overflow => Overflows(check.policy, check.cost, now, Some(VirtualTat(check.policy, log)))
            case Refuse(d) =>
              d.capacity == check.policy.burst && reference == Short(d.retryAfter) &&
              !Overflows(check.policy, check.cost, now, Some(VirtualTat(check.policy, log)))
            case Admit(_, a) =>
              a.capacity == check.policy.burst && reference == Granted(a.available, a.replenishesAfter) &&
              !Overflows(check.policy, check.cost, now, Some(VirtualTat(check.policy, log)))
  {
    hide Evaluate, DivCeil, Draw, Overflows;
    var policy := check.policy;
    var tat := TatOf(Alive(lane.entry, now));
    LaneDebt(policy, lane, log, now);
    EvaluateIsTokenBucket(policy, check.cost, now, tat);
    OverflowsByDebt(policy, check.cost, now, tat, Some(VirtualTat(policy, log)));
    BucketFollowsLog(policy, log, now);
    DrawAfterRefill(policy, BucketAfter(policy, log), now, check.cost);
  }

  /** After every run, the next single check of a key answers exactly as the
      reference bucket driven by that key's log. */
  lemma {:induction false} GcraRunIsTokenBucket(hash: Router, maximum: nat, start: Store, run: seq<Event>,
                             policyOf: CounterKey -> Policy, check: Check, observed: nat)
    requires Run(hash, maximum, start, run) && AllKeyed(run, policyOf)
    requires ValidCheck(check) && check.policy.Gcra? && policyOf(check.key) == check.policy
    ensures forall i | 0 <= i < |run| :: |run[i].after| > 0
    ensures var store, log := StoreAfter(start, run), Log(hash, run, check.key);
            var now := Max(observed, LaneOf(store, hash, check.key).latest);
            && Conforming(check.policy, log) && EndOf(log) <= now
            && var answer := CheckIn(store, hash, check, observed).1;
            && var reference := Draw(check.policy, BucketAfter(check.policy, log), now, check.cost).1;
            && (answer.Err? <==> Overflows(check.policy, check.cost, now, Some(VirtualTat(check.policy, log))))
            && (answer.Ok? ==> AnswersAs(answer.value, reference))
  {
    hide Judge, Draw, Overflows, GcraLane, BucketAfter, Conforming;
    GcraLaneHolds(hash, maximum, start, run, policyOf, check.key);
    var lane := LaneOf(StoreAfter(start, run), hash, check.key);
    VerdictIsBucket(check, lane, Log(hash, run, check.key), Max(observed, lane.latest));
  }

  /** What the reference bucket of a check's key answers after a log. */
  ghost predicate IsReference(check: Check, log: seq<Charge>, now: nat, reference: BucketAnswer) {
    && ValidPolicy(check.policy) && check.policy.Gcra? && Conforming(check.policy, log) && EndOf(log) <= now
    && reference == Draw(check.policy, BucketAfter(check.policy, log), now, check.cost).1
  }

  /** The verdict of one check of a batch, at the batch's clock value, is the
      reference bucket's answer. */
  lemma {:induction false} BatchVerdictIsBucket(hash: Router, maximum: nat, start: Store, run: seq<Event>,
                                                policyOf: CounterKey -> Policy, checks: seq<Check>, observed: nat,
                                                i: nat) returns (reference: BucketAnswer)
    requires Run(hash, maximum, start, run) && AllKeyed(run, policyOf) && AllValid(checks) && i < |checks|
    requires checks[i].policy.Gcra? && policyOf(checks[i].key) == checks[i].policy
    ensures forall j | 0 <= j < |run| :: |run[j].after| > 0
    ensures var check, log, r := checks[i], Log(hash, run, checks[i].key),
            NewRound(StoreAfter(start, run), hash, checks, observed);
            && IsReference(check, log, r.now, reference) && VerdictMatches(r.verdicts[i], reference)
            && (r.verdicts[i].Overflow? <==>
                Overflows(check.policy, check.cost, r.now, Some(VirtualTat(check.policy, log))))
  {
    hide Judge, Draw, Overflows, GcraLane, BucketAfter, Conforming;
    var check, store := checks[i], StoreAfter(start, run);
    GcraLaneHolds(hash, maximum, start, run, policyOf, check.key);
    var r := NewRound(store, hash, checks, observed);
    TargetIsCounted(hash, |store|, checks, |checks|, i);
    NowCoversTouched(store, hash, checks, |checks|, observed, r.Shard(i));
    VerdictIsBucket(check, LaneOf(store, hash, check.key), Log(hash, run, check.key), r.now);
    reference := Draw(check.policy, BucketAfter(check.policy, Log(hash, run, check.key)), r.now, check.cost).1;
  }

  /** What a batch answers, as the buckets of its checks would. */
  ghost predicate BatchAnswersAs(decision: BatchDecision, references: seq<BucketAnswer>) {
    match decision
    case AllAllowed(allowances) =>
      |allowances| == |references| &&
      forall i | 0 <= i < |references| ::
             references[i] == Granted(allowances[i].available, allowances[i].replenishesAfter)
    case BatchDenied(i, _, StorageCapacity(_)) => i < |references| && forall j | 0 <= j <= i :: references[j].Granted?
    case BatchDenied(i, _, QuotaExceeded(d)) =>
      i < |references| && references[i] == Short(d.retryAfter) && forall j | 0 <= j < i :: references[j].Granted?
    case BatchShadowDenied(i, _, d) =>
      i < |references| && references[i] == Short(d.retryAfter) && forall j | 0 <= j < i :: references[j].Granted?
  }

  /** After every run, a batch answers as the reference buckets of its keys: all
      grant what it allows, and it stops at the first that is short. */
  lemma {:induction false} GcraBatchIsTokenBucket(hash: Router, maximum: nat, start: Store, run: seq<Event>,
                               policyOf: CounterKey -> Policy, checks: seq<Check>, observed: nat, after: Store,
                               decision: BatchDecision) returns (references: seq<BucketAnswer>)
    requires Run(hash, maximum, start, run) && AllKeyed(run, policyOf)
    requires Step(hash, maximum, StoreAfter(start, run), Many(checks, observed), after, Batch(Ok(decision)))
    requires forall i | 0 <= i < |checks| :: checks[i].policy.Gcra? && policyOf(checks[i].key) == checks[i].policy
    ensures forall i | 0 <= i < |run| :: |run[i].after| > 0
    ensures |references| == |checks| && BatchAnswersAs(decision, references)
    ensures forall i | 0 <= i < |checks| ::
              var log, now := Log(hash, run, checks[i].key),
                  BatchNow(StoreAfter(start, run), hash, checks, |checks|, observed);
              IsReference(checks[i], log, now, references[i])
  {
    hide Judge, Overflows, IsReference, VerdictMatches, Round.FailureAt, Round.Outcome, BatchNow, Run, AllKeyed, Log,
         BatchAnswersAs;
    RunShape(hash, maximum, start, run);
    var r := NewRound(StoreAfter(start, run), hash, checks, observed);
    references := [];
    for n := 0 to |checks|
      invariant |references| == n
      invariant forall i | 0 <= i < n ::
                  && IsReference(checks[i], Log(hash, run, checks[i].key), r.now, references[i])
                  && VerdictMatches(r.verdicts[i], references[i])
    {
      var reference := BatchVerdictIsBucket(hash, maximum, start, run, policyOf, checks, observed, n);
      references := references + [reference];
    }
    OutcomeMatches(r, after, decision, references);
  }

  /** A batch fails for arithmetic exactly when one of its checks truly needs more
      than 128 bits. */
  lemma {:induction false} GcraBatchOverflowsExactly(hash: Router, maximum: nat, start: Store, run: seq<Event>,
                                  policyOf: CounterKey -> Policy, checks: seq<Check>, observed: nat, after: Store,
                                  answer: Result<BatchDecision, BatchFailure>)
    requires Run(hash, maximum, start, run) && AllKeyed(run, policyOf)
    requires Step(hash, maximum, StoreAfter(start, run), Many(checks, observed), after, Batch(answer))
    requires answer.Ok? || answer.error.BatchOverflow?
    requires forall i | 0 <= i < |checks| :: checks[i].policy.Gcra? && policyOf(checks[i].key) == checks[i].policy
    ensures forall i | 0 <= i < |run| :: |run[i].after| > 0
    ensures answer.Err? <==>
            exists i | 0 <= i < |checks| ::
              Overflows(checks[i].policy, checks[i].cost,
                        BatchNow(StoreAfter(start, run), hash, checks, |checks|, observed),
                        Some(VirtualTat(checks[i].policy, Log(hash, run, checks[i].key))))
  {
    hide Judge, Overflows, IsReference, VerdictMatches, Round.Outcome, BatchNow, Run, AllKeyed, Log, VirtualTat;
    RunShape(hash, maximum, start, run);
    var r := NewRound(StoreAfter(start, run), hash, checks, observed);
    forall i | 0 <= i < |checks|
      ensures r.verdicts[i].Overflow? <==>
              Overflows(checks[i].policy, checks[i].cost, r.now,
                        Some(VirtualTat(checks[i].policy, Log(hash, run, checks[i].key))))
    {
      var reference := BatchVerdictIsBucket(hash, maximum, start, run, policyOf, checks, observed, i);
    }
  }

  predicate VerdictMatches(v: Verdict, reference: BucketAnswer) {
    match v
    case Overflow => true
    case Refuse(d) => reference == Short(d.retryAfter)
    case Admit(_, a) => reference == Granted(a.available, a.replenishesAfter)
  }

  lemma {:induction false} OutcomeMatches(r: Round, after: Store, decision: BatchDecision,
                                          references: seq<BucketAnswer>)
    requires r.Valid() && r.NoOverflow() && r.Outcome(after, decision) && |references| == |r.checks|
    requires forall i | 0 <= i < |r.checks| :: VerdictMatches(r.verdicts[i], references[i])
    ensures BatchAnswersAs(decision, references)
  {
    hide Round.FailureAt, Round.Charged;
    if !r.NoFailureBefore(|r.checks|) {
      var i :| 0 <= i < |r.checks| && r.NoFailureBefore(i) && r.FailureAt(i).Some?
          && decision == r.FailureDecision(i, r.FailureAt(i).value);
      NoFailureAdmits(r, i);
      FailureKind(r, i);
    }
  }

  lemma {:induction false} FailureKind(r: Round, i: nat)
    requires r.Valid() && i < |r.checks| && r.FailureAt(i).Some?
    ensures match r.FailureAt(i).value
            case QuotaFailure(d) => r.verdicts[i] == Refuse(d)
            case StorageFailure(_) => r.verdicts[i].Admit?
  {
    hide Round.Keys, ShardOf;
  }

  predicate ClocksBelow(run: seq<Event>, bound: nat) {
    forall i | 0 <= i < |run| :: run[i].op.observed <= bound
  }

  predicate WatermarksBelow(store: Store, bound: nat) {
    forall s | 0 <= s < |store| :: store[s].latest <= bound
  }

  lemma {:induction false} BatchNowBelow(store: Store, hash: Router, checks: seq<Check>, n: nat, observed: nat,
                                         bound: nat)
    requires |store| > 0 && n <= |checks| && WatermarksBelow(store, bound) && observed <= bound
    ensures BatchNow(store, hash, checks, n, observed) <= bound
  {
    if n > 0 { BatchNowBelow(store, hash, checks, n - 1, observed, bound); }
  }

  lemma {:induction false} StepBelow(hash: Router, maximum: nat, store: Store, op: Op, after: Store, answer: Answer,
                                     bound: nat)
    requires |store| > 0 && Step(hash, maximum, store, op, after, answer)
    requires WatermarksBelow(store, bound) && op.observed <= bound
    ensures WatermarksBelow(after, bound)
  {
    hide Judge;
    if op.Many? { BatchNowBelow(store, hash, op.checks, |op.checks|, op.observed, bound); }
  }

  lemma {:induction false} RunBelow(hash: Router, maximum: nat, start: Store, run: seq<Event>, bound: nat)
    requires Run(hash, maximum, start, run) && ClocksBelow(run, bound)
    ensures WatermarksBelow(StoreAfter(start, run), bound)
  {
    if run != [] {
      var prefix, last := run[..|run| - 1], run[|run| - 1];
      RunBelow(hash, maximum, start, prefix, bound);
      StepBelow(hash, maximum, StoreAfter(start, prefix), last.op, last.after, last.answer, bound);
    }
  }

  /** With clocks below 2^64 milliseconds no call of any run overflows. */
  lemma {:induction false} GcraRunNeverOverflows(hash: Router, maximum: nat, start: Store, run: seq<Event>,
                                                 policyOf: CounterKey -> Policy, op: Op, after: Store, answer: Answer)
    requires Run(hash, maximum, start, run) && AllKeyed(run, policyOf) && ClocksBelow(run, U64_MAX)
    requires Step(hash, maximum, StoreAfter(start, run), op, after, answer)
    requires Keyed(op, policyOf) && op.observed <= U64_MAX
    requires forall i | 0 <= i < |op.Checks()| :: op.Checks()[i].policy.Gcra?
    ensures answer.Single? ==> answer.single.Ok?
    ensures answer.Batch? ==> answer.batch != Err(BatchOverflow)
  {
    hide Judge, GcraLane;
    var store := StoreAfter(start, run);
    RunBelow(hash, maximum, start, run, U64_MAX);
    match op
    case One(check, observed) =>
      assert op.Checks()[0] == check;
      CheckDoesNotOverflow(hash, maximum, start, run, policyOf, check,
                           Max(observed, LaneOf(store, hash, check.key).latest));
    case Many(checks, observed) =>
      var r := NewRound(store, hash, checks, observed);
      BatchNowBelow(store, hash, checks, |checks|, observed, U64_MAX);
      forall i | 0 <= i < |checks| ensures !r.verdicts[i].Overflow? {
        assert op.Checks()[i] == checks[i];
        TargetIsCounted(hash, |store|, checks, |checks|, i);
        NowCoversTouched(store, hash, checks, |checks|, observed, r.Shard(i));
        CheckDoesNotOverflow(hash, maximum, start, run, policyOf, checks[i], r.now);
      }
  }

  lemma {:induction false} CheckDoesNotOverflow(hash: Router, maximum: nat, start: Store, run: seq<Event>,
                                                policyOf: CounterKey -> Policy, check: Check, now: nat)
    requires Run(hash, maximum, start, run) && AllKeyed(run, policyOf)
    requires ValidCheck(check) && check.policy.Gcra? && check.policy == policyOf(check.key)
    requires LaneOf(StoreAfter(start, run), hash, check.key).latest <= now <= U64_MAX
    ensures !Judge(check, now, Alive(LaneOf(StoreAfter(start, run), hash, check.key).entry, now)).Overflow?
  {
    hide Judge, Overflows, GcraLane;
    GcraLaneHolds(hash, maximum, start, run, policyOf, check.key);
    var lane, log := LaneOf(StoreAfter(start, run), hash, check.key), Log(hash, run, check.key);
    VerdictIsBucket(check, lane, log, now);
    NoOverflowBelow64Bits(check.policy, check.cost, now, Some(VirtualTat(check.policy, log)));
    EvaluateOverflows(check.policy, check.cost, now, Some(VirtualTat(check.policy, log)));
  }

  lemma {:induction false} EvaluateOverflows(policy: Policy, cost: nat, now: nat, tat: Option<nat>)
    requires ValidPolicy(policy) && policy.Gcra? && 1 <= cost <= policy.burst && Reachable(policy, tat, now)
    ensures Evaluate(policy, cost, now, tat).Err? <==> Overflows(policy, cost, now, tat)
  {
    hide Evaluate, Overflows, Draw;
    EvaluateIsTokenBucket(policy, cost, now, tat);
  }

  lemma {:induction false} DrawAfterRefill(policy: Policy, b: Bucket, now: nat, cost: nat)
    requires policy.Gcra? && policy.quota > 0 && policy.period > 0 && b.tokens <= Full(policy) && b.last <= now
    ensures Draw(policy, b, now, cost) == Draw(policy, Refill(policy, b, now), now, cost)
  {
    hide Take;
    RefillAtOnce(policy, Refill(policy, b, now));
  }
}

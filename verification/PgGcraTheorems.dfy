/** What every run of concurrent PostgreSQL GCRA transactions guarantees, under
    any clock samples and any commit outcomes. */
module PgGcraTheorems {
  import opened Basics
  import opened Policies
  import opened Batches
  import opened GcraEvaluator
  import opened GcraHistory
  import opened Counters
  import Runs = StoreRuns
  import opened GcraRuns
  import Locks = LockOrder
  import opened PgGcraEvaluation
  import opened PgGcraProtocol
  import opened PgGcraInvariant

  /** An empty database, whatever its clocks have seen. */
  predicate Fresh(s: System) {
    s.db.rows == map[] && |s.db.marks| == SHARDS && s.txns == []
  }

  ghost predicate NothingCharged(s: System) { forall key: CounterKey :: s.logs(key) == [] }

  /** A run: every state follows from the one before by some step. */
  ghost predicate Run(place: Placement, policyOf: CounterKey -> Policy, states: seq<System>, actions: seq<Action>) {
    && |states| == |actions| + 1 && Fresh(states[0]) && NothingCharged(states[0])
    && forall i | 0 <= i < |actions| :: Step(place, policyOf, states[i], actions[i], states[i + 1])
  }

  lemma {:induction false} FreshIsOk(place: Placement, policyOf: CounterKey -> Policy, s: System)
    requires Places(place) && GcraPolicies(policyOf) && Fresh(s) && NothingCharged(s)
    ensures Inv(place, policyOf, s)
  {
    forall key: CounterKey ensures KeyOk(place, policyOf, s, key) { assert s.logs(key) == []; }
    assert Locks.Coherent(Threads(s.txns));
  }

  lemma {:induction false} RunsKeepInv(place: Placement, policyOf: CounterKey -> Policy, states: seq<System>,
                                       actions: seq<Action>)
    requires Places(place) && GcraPolicies(policyOf) && Run(place, policyOf, states, actions)
    ensures Inv(place, policyOf, states[|actions|])
  {
    hide Inv, Step, Fresh, NothingCharged;
    var n := |actions|;
    if n == 0 {
      FreshIsOk(place, policyOf, states[0]);
    } else {
      RunsKeepInv(place, policyOf, states[..n], actions[..n - 1]);
      StepKeepsInv(place, policyOf, states[n - 1], actions[n - 1], states[n]);
    }
  }

  /** A state some run reaches. */
  ghost predicate Occurs(place: Placement, policyOf: CounterKey -> Policy, s: System) {
    exists states, actions | Run(place, policyOf, states, actions) :: states[|actions|] == s
  }

  lemma {:induction false} OccursKeepsInv(place: Placement, policyOf: CounterKey -> Policy, s: System)
    requires Places(place) && GcraPolicies(policyOf) && Occurs(place, policyOf, s)
    ensures Inv(place, policyOf, s)
  {
    hide Step;
    var states, actions :| Run(place, policyOf, states, actions) && states[|actions|] == s;
    RunsKeepInv(place, policyOf, states, actions);
  }

  /** The quota bound: however transactions and cleanups interleave, whatever the
      clock reads and whichever commits succeed, the cost committed for one key
      between two logical instants is at most a burst plus the replenishment. */
  lemma {:induction false} CommittedCostIsBounded(place: Placement, policyOf: CounterKey -> Policy, s: System,
                               key: CounterKey, from: nat, to: nat)
    requires Places(place) && GcraPolicies(policyOf) && Occurs(place, policyOf, s) && from <= to
    ensures var p := policyOf(key);
            CostBetween(s.logs(key), from, to) * p.period <= p.burst * p.period + (to - from) * p.quota
  {
    hide Occurs, TxnOk;
    OccursKeepsInv(place, policyOf, s);
    assert KeyOk(place, policyOf, s, key);
    QuotaBound(policyOf(key), s.logs(key), from, to);
  }

  /** What a decided transaction holds: locks on its shards, and a reading that is
      still exactly what is committed. */
  lemma {:induction false} DecisionsAreCurrent(place: Placement, policyOf: CounterKey -> Policy, s: System, t: nat)
    requires Places(place) && GcraPolicies(policyOf) && Occurs(place, policyOf, s)
    requires t < |s.txns| && s.txns[t].Decided?
    ensures |s.db.marks| == 256
    ensures var r := s.txns[t].reading;
            && Inv(place, policyOf, s)
            && r.Valid() && r.Answer(s.txns[t].answer)
            && (forall i | 0 <= i < |r.checks| ::
                  && r.checks[i].policy == policyOf(r.checks[i].key) && r.rows[i] == Lookup(s.db.rows, r.checks[i].key)
                  && s.db.marks[place(r.checks[i].key)] <= r.now
                  && r.counts[place(r.checks[i].key)] == |RowsOn(s.db.rows, place, place(r.checks[i].key))|)
  {
    hide Occurs, KeyOk, Reading.Answer, Locks.Coherent, SoundUpTo;
    OccursKeepsInv(place, policyOf, s);
    assert TxnOk(place, policyOf, s.db, s.txns[t]);
  }

  /** In every run each check is judged exactly as the reference bucket driven by
      the key's committed charges would, although expired rows are forgotten; the
      stored expiry never disagrees with the arrival time. */
  lemma {:induction false} DecisionIsTokenBucket(place: Placement, policyOf: CounterKey -> Policy, s: System, t: nat,
                                                 i: nat)
    requires Places(place) && GcraPolicies(policyOf) && Occurs(place, policyOf, s)
    requires t < |s.txns| && s.txns[t].Decided?
    requires i < |s.txns[t].reading.checks|
    ensures var r := s.txns[t].reading;
            var check := r.checks[i];
            var log := s.logs(check.key);
            && r.Valid() && check.policy == policyOf(check.key) && Conforming(check.policy, log) && EndOf(log) <= r.now
            && r.Sound(i)
            && var reference := Draw(check.policy, BucketAfter(check.policy, log), r.now, check.cost).1;
            match r.Assess(i)
            case Overflow => Overflows(check.policy, check.cost, r.now, Some(VirtualTat(check.policy, log)))
            case Refuse(d) => d.capacity == check.policy.burst && reference == Short(d.retryAfter)
            case Admit(_, a) =>
              a.capacity == check.policy.burst && reference == Granted(a.available, a.replenishesAfter)
  {
    hide Occurs, Reading.Answer, Judge, Draw, BucketAfter, Conforming, GcraLane, RowsOn;
    DecisionsAreCurrent(place, policyOf, s, t);
    var r := s.txns[t].reading;
    var check := r.checks[i];
    assert KeyOk(place, policyOf, s, check.key);
    VerdictIsBucket(check, LaneIn(s.db, place, check.key), s.logs(check.key), r.now);
    LaneIsSound(check.policy, LaneIn(s.db, place, check.key), s.logs(check.key));
  }

  lemma {:induction false} LaneIsSound(policy: Policy, lane: Runs.Lane, log: seq<Charge>)
    requires policy.Gcra? && policy.quota > 0 && GcraLane(policy, lane, log)
    ensures lane.entry.Some? ==> DivCeil(lane.entry.value.value, policy.quota) == lane.entry.value.expiresAt
  {
  }

  /** With clocks below 2^64 milliseconds a transaction never meets one of its own
      storage-invariant errors. */
  lemma {:induction false} DecisionsNeverFail(place: Placement, policyOf: CounterKey -> Policy, s: System, t: nat)
    requires Places(place) && GcraPolicies(policyOf) && Occurs(place, policyOf, s)
    requires t < |s.txns| && s.txns[t].Decided? && s.txns[t].reading.now <= U64_MAX
    ensures s.txns[t].answer.Ok?
  {
    hide Occurs, Judge, Draw, BucketAfter, Conforming, Overflows, Reading.Sound, Reading.Assess;
    DecisionsAreCurrent(place, policyOf, s, t);
    var r := s.txns[t].reading;
    forall i | 0 <= i < |r.checks| ensures r.Sound(i) && !r.Assess(i).Overflow? {
      DecisionIsTokenBucket(place, policyOf, s, t, i);
      var p, log := r.checks[i].policy, s.logs(r.checks[i].key);
      BucketFollowsLog(p, log, r.now);
      NoOverflowBelow64Bits(p, r.checks[i].cost, r.now, Some(VirtualTat(p, log)));
      EvaluateIsTokenBucket(p, r.checks[i].cost, r.now, Some(VirtualTat(p, log)));
    }
  }

  /** Nor does an accepted batch meet the database range: while a clock leaves room
      for the longest refill, every expiry can be stored and the batch committed. */
  lemma {:induction false} AcceptedBatchesAreStorable(place: Placement, policyOf: CounterKey -> Policy, s: System,
                                                      t: nat)
    requires Places(place) && GcraPolicies(policyOf) && Occurs(place, policyOf, s)
    requires t < |s.txns| && s.txns[t].Decided? && s.txns[t].answer.Ok? && s.txns[t].answer.value.Accepted?
    requires s.txns[t].reading.now + MAX_WINDOW_MILLIS <= I64_MAX
    ensures Storable(s.txns[t].answer.value.pending) && CanCommit(s.txns[t])
  {
    hide Occurs, Judge, GcraLane, Reading.Answer, Reading.Valid, RowsOn;
    DecisionsAreCurrent(place, policyOf, s, t);
    var r, pending := s.txns[t].reading, s.txns[t].answer.value.pending;
    AcceptedLength(r, s.txns[t].answer);
    forall i | 0 <= i < |pending| ensures pending[i].stored.expiresAt <= I64_MAX {
      AcceptedAssessment(r, s.txns[t].answer, i);
      var check := r.checks[i];
      assert KeyOk(place, policyOf, s, check.key);
      ExpiryWithinRefill(check, LaneIn(s.db, place, check.key), s.logs(check.key), r.now);
    }
  }

  lemma {:induction false} AcceptedLength(r: Reading, answer: Result<PgAdmission, StorageInvariant>)
    requires r.Valid() && r.Answer(answer) && answer.Ok? && answer.value.Accepted?
    ensures |answer.value.pending| == |r.checks|
  {
    hide Reading.FailureAt, Reading.Assess, Reading.Sound;
  }

  lemma {:induction false} ExpiryWithinRefill(check: Check, lane: Runs.Lane, log: seq<Charge>, now: nat)
    requires ValidCheck(check) && check.policy.Gcra? && GcraLane(check.policy, lane, log) && lane.latest <= now
    ensures var verdict := Judge(check, now, Alive(lane.entry, now));
            verdict.Admit? ==> verdict.stored.expiresAt <= now + MAX_WINDOW_MILLIS
  {
    hide Evaluate, DivCeil, Draw, Overflows;
    LaneDebt(check.policy, lane, log, now);
    EvaluateIsTokenBucket(check.policy, check.cost, now, TatOf(Alive(lane.entry, now)));
  }

  lemma {:induction false} InsertGrowsShard(rows: Entries, place: Placement, key: CounterKey, stored: Stored, s: nat)
    ensures |RowsOn(rows[key := stored], place, s)| == |RowsOn(rows, place, s)| +
            if place(key) == s && key !in rows then 1 else 0
  {
    assert RowsOn(rows[key := stored], place, s) == RowsOn(rows, place, s) + if place(key) == s then {key} else {};
  }

  lemma {:induction false} UpsertGrowsShard(r: Reading, pending: seq<PendingCharge>, rows: Entries, n: nat, s: nat)
    requires r.Valid() && n <= |r.checks| == |pending| && SoundUpTo(r.checks, |r.checks|) && s < SHARDS
    requires forall i | 0 <= i < |r.checks| :: r.rows[i] == Lookup(rows, r.checks[i].key)
    requires forall i | 0 <= i < |r.checks| && r.place(r.checks[i].key) == s ::
             r.counts[s] == |RowsOn(rows, r.place, s)|
    requires r.NoFailureBefore(|r.checks|) && r.Trusted()
    ensures |RowsOn(Upserted(rows, r.checks, pending, n), r.place, s)| == |RowsOn(rows, r.place, s)| + r.Missing(n, s)
    ensures |RowsOn(rows, r.place, s)| + r.Missing(n, s) <= Max(|RowsOn(rows, r.place, s)|, r.maximum)
  {
    hide Reading.Assess, Reading.Sound, Reading.FailureAt, RowsOn;
    if n > 0 {
      UpsertGrowsShard(r, pending, rows, n - 1, s);
      var key := r.checks[n - 1].key;
      UpsertedLookup(rows, r.checks, pending, n - 1, key);
      assert r.FailureAt(n - 1).None? && !r.Assess(n - 1).Overflow?;
      FailureCases(r, n - 1);
      InsertGrowsShard(Upserted(rows, r.checks, pending, n - 1), r.place, key, pending[n - 1].stored, s);
    }
  }

  /** An accepted batch never inserts above the configured row maximum. */
  lemma {:induction false} CommitsStayWithinRows(place: Placement, policyOf: CounterKey -> Policy, s: System, t: nat,
                                                 shard: nat)
    requires Places(place) && GcraPolicies(policyOf) && Occurs(place, policyOf, s) && shard < SHARDS
    requires t < |s.txns| && s.txns[t].Decided? && CanCommit(s.txns[t])
    ensures |RowsOn(Committed(s, t).db.rows, place, shard)| <= Max(|RowsOn(s.db.rows, place, shard)|,
            s.txns[t].reading.maximum)
  {
    hide Occurs, KeyOk, Reading.FailureAt, Reading.Assess, Reading.Sound, RowsOn;
    DecisionsAreCurrent(place, policyOf, s, t);
    var r := s.txns[t].reading;
    assert TxnOk(place, policyOf, s.db, s.txns[t]);
    UpsertGrowsShard(r, s.txns[t].answer.value.pending, s.db.rows, |r.checks|, shard);
  }

  /** A step never takes a watermark back, so logical time only moves forward. */
  lemma {:induction false} WatermarksNeverRegress(place: Placement, policyOf: CounterKey -> Policy, s: System,
                                                  a: Action, s': System, shard: nat)
    requires Places(place) && GcraPolicies(policyOf) && Occurs(place, policyOf, s) && Step(place, policyOf, s, a, s')
             && shard < SHARDS
    ensures |s.db.marks| == |s'.db.marks| == SHARDS && s.db.marks[shard] <= s'.db.marks[shard]
  {
    hide Occurs, KeyOk, Locks.Coherent, Reading.Answer;
    OccursKeepsInv(place, policyOf, s);
    if a.Commit? {
      assert TxnOk(place, policyOf, s.db, s.txns[a.t]);
    } else if a.Begin? {
    } else {
      OwnStepIsOk(place, policyOf, s, a, s');
    }
  }

  /** No deadlock: while some transaction is unfinished, some transaction holds all
      its shards or finds its next one free. */
  lemma {:induction false} SomeTransactionIsNotBlocked(place: Placement, policyOf: CounterKey -> Policy, s: System,
                                                       t: nat)
    requires Places(place) && GcraPolicies(policyOf) && Occurs(place, policyOf, s)
    requires t < |s.txns| && !s.txns[t].Ended?
    ensures var txns := s.txns;
            exists u | 0 <= u < |txns| :: !txns[u].Ended? && Locks.CanStep(Threads(txns), u)
  {
    hide Occurs, KeyOk, TxnOk, Locks.Coherent;
    OccursKeepsInv(place, policyOf, s);
    var txns := s.txns;
    assert !Threads(txns)[t].finished;
    Locks.SomeThreadCanStep(Threads(txns), t);
    var u :| 0 <= u < |Threads(txns)| && Locks.CanStep(Threads(txns), u);
    assert Threads(txns)[u] == ThreadOf(txns[u]);
  }
}

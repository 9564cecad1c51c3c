/** What a PostgreSQL GCRA transaction decides, in the terms of its clock sample,
    the committed charges and the rows it deletes. */
module PgGcraDecisions {
  import opened Basics
  import opened Policies
  import opened Batches
  import opened GcraEvaluator
  import opened GcraHistory
  import opened Counters
  import opened ExpiryOrder
  import Runs = StoreRuns
  import opened GcraRuns
  import opened PgGcraEvaluation
  import opened PgGcraProtocol
  import opened PgGcraInvariant
  import opened PgGcraTheorems

  lemma {:induction false} ClampedIsLargest(marks: seq<nat>, order: seq<nat>, clock: int)
    requires forall s | s in order :: s < |marks|
    ensures var now := Clamped(marks, order, clock);
            && now >= clock && (forall s | s in order :: now >= marks[s])
            && (now == (if clock > 0 then clock else 0) || exists s | s in order :: now == marks[s])
  {
    if order != [] {
      var rest, last := order[..|order| - 1], order[|order| - 1];
      assert last in order && forall s | s in rest :: s in order;
      ClampedIsLargest(marks, rest, clock);
      assert forall s | s in order :: s == last || s in rest;
    }
  }

  /** A transaction decides at the least time that is not before its sample and not
      before any watermark it holds. */
  lemma {:induction false} SampleIsClamped(place: Placement, policyOf: CounterKey -> Policy, s: System, t: nat,
                                           clock: int, s': System)
    requires Places(place) && GcraPolicies(policyOf) && Occurs(place, policyOf, s)
    requires Step(place, policyOf, s, Sample(t, clock), s')
    ensures t < |s.txns| == |s'.txns| && s'.txns[t].Timed? && s'.txns[t].order == s.txns[t].order && s'.db == s.db
    ensures forall shard | shard in s.txns[t].order :: shard < |s.db.marks|
    ensures var now, marks := s'.txns[t].now, s.db.marks;
            && now >= clock && (forall shard | shard in s.txns[t].order :: now >= marks[shard])
            && (now == (if clock > 0 then clock else 0)
                || exists shard | shard in s.txns[t].order :: now == marks[shard])
  {
    hide Occurs, KeyOk, Clamped;
    OccursKeepsInv(place, policyOf, s);
    assert TxnOk(place, policyOf, s.db, s.txns[t]);
    ClampedIsLargest(s.db.marks, s.txns[t].order, clock);
  }

  /** A prefix of a run is a run. */
  lemma {:induction false} RunPrefix(place: Placement, policyOf: CounterKey -> Policy, states: seq<System>,
                                     actions: seq<Action>)
    requires Run(place, policyOf, states, actions) && actions != []
    ensures |states| == |actions| + 1
    ensures var n := |actions|;
            && Run(place, policyOf, states[..n], actions[..n - 1])
            && Occurs(place, policyOf, states[n - 1]) && Occurs(place, policyOf, states[n])
            && Step(place, policyOf, states[n - 1], actions[n - 1], states[n])
  {
    hide Step;
    var n := |actions|;
    assert states[..n][|actions[..n - 1]|] == states[n - 1];
    assert states[|actions|] == states[n];
  }

  /** Other transactions' steps leave a holder and its watermarks alone. */
  lemma {:induction false} OtherStepKeepsHolder(place: Placement, policyOf: CounterKey -> Policy, s: System, a: Action,
                                                s': System, t: nat)
    requires Places(place) && GcraPolicies(policyOf) && Occurs(place, policyOf, s) && Step(place, policyOf, s, a, s')
    requires t < |s.txns| && !s.txns[t].Locking? && !s.txns[t].Ended? && (!a.Begin? ==> a.t != t)
    ensures |s.txns| <= |s'.txns| && s'.txns[t] == s.txns[t] && |s'.db.marks| == |s.db.marks| == SHARDS
    ensures forall shard | shard in s.txns[t].order :: shard < SHARDS && s'.db.marks[shard] == s.db.marks[shard]
  {
    hide Occurs, KeyOk, Committed, Reading.Answer, Reading.Valid, ReadingOf;
    OccursKeepsInv(place, policyOf, s);
    assert TxnOk(place, policyOf, s.db, s.txns[t]);
    if a.Commit? {
      assert TxnOk(place, policyOf, s.db, s.txns[a.t]);
      CommitEnds(s, a.t);
      if !s.txns[a.t].Locking? && !s.txns[a.t].Ended? { HoldersAreDisjoint(s.txns, a.t, t); }
      CommitIsLocal(place, policyOf, s, a.t, s.txns[t].order);
    }
  }

  /** A transaction still locking has sampled nothing. */
  lemma {:induction false} NotYetSampled(place: Placement, policyOf: CounterKey -> Policy, states: seq<System>,
                                         actions: seq<Action>, t: nat)
    requires Run(place, policyOf, states, actions)
    requires t < |states[|actions|].txns| ==> states[|actions|].txns[t].Locking?
    ensures forall j | 0 <= j < |actions| :: !(actions[j].Sample? && actions[j].t == t)
  {
    hide Run, Committed;
    if actions != [] {
      var n := |actions|;
      RunPrefix(place, policyOf, states, actions);
      TransactionsStay(place, policyOf, states[n - 1], actions[n - 1], states[n], t);
      NotYetSampled(place, policyOf, states[..n], actions[..n - 1], t);
    }
  }

  lemma {:induction false} TransactionsStay(place: Placement, policyOf: CounterKey -> Policy, s: System, a: Action,
                                            s': System, t: nat)
    requires Step(place, policyOf, s, a, s') && (t < |s'.txns| ==> s'.txns[t].Locking?)
    ensures t < |s.txns| ==> s.txns[t].Locking?
    ensures !(a.Sample? && a.t == t)
  {
    hide Reading.Answer, Reading.Valid, ReadingOf;
  }

  /** Every time a run decides or deletes at is its transaction's one sample, raised
      to the watermarks that are still those of the shards it holds. */
  lemma {:induction false} DecidesAtItsSample(place: Placement, policyOf: CounterKey -> Policy, states: seq<System>,
                                              actions: seq<Action>, t: nat) returns (i: nat)
    requires Places(place) && GcraPolicies(policyOf) && Run(place, policyOf, states, actions)
    requires t < |states[|actions|].txns|
    requires var txn := states[|actions|].txns[t]; txn.Timed? || txn.Decided? || txn.Deleting?
    ensures i < |actions| && actions[i].Sample? && actions[i].t == t
    ensures forall j | 0 <= j < |actions| && actions[j].Sample? && actions[j].t == t :: j == i
    ensures var s := states[|actions|];
            var txn, marks, clock := s.txns[t], s.db.marks, actions[i].clock;
            var now := if txn.Decided? then txn.reading.now else txn.now;
            && (forall shard | shard in txn.order :: shard < |marks| && now >= marks[shard]) && now >= clock
            && (now == (if clock > 0 then clock else 0) || exists shard | shard in txn.order :: now == marks[shard])
  {
    hide Run, Occurs, Committed, Clamped, Reading.Answer, Reading.Valid, WorkOk, Dooms;
    var n := |actions|;
    if n == 0 {
      NothingAtFirst(place, policyOf, states, actions);
    } else {
      RunPrefix(place, policyOf, states, actions);
      var before, a, after := states[n - 1], actions[n - 1], states[n];
      if a.Sample? && a.t == t {
        SampleIsClamped(place, policyOf, before, t, a.clock, after);
        NotYetSampled(place, policyOf, states[..n], actions[..n - 1], t);
        i := n - 1;
      } else {
        SameTime(place, policyOf, before, a, after, t);
        i := DecidesAtItsSample(place, policyOf, states[..n], actions[..n - 1], t);
        assert states[..n][|actions[..n - 1]|] == before;
      }
    }
  }

  lemma {:induction false} NothingAtFirst(place: Placement, policyOf: CounterKey -> Policy, states: seq<System>,
                                          actions: seq<Action>)
    requires Run(place, policyOf, states, actions)
    ensures states[0].txns == []
  {
    hide Step;
  }

  /** Past its sample a transaction keeps its time, its shards and their watermarks. */
  lemma {:induction false} SameTime(place: Placement, policyOf: CounterKey -> Policy, s: System, a: Action, s': System,
                                    t: nat)
    requires Places(place) && GcraPolicies(policyOf) && Occurs(place, policyOf, s) && Step(place, policyOf, s, a, s')
    requires t < |s'.txns| && (s'.txns[t].Timed? || s'.txns[t].Decided? || s'.txns[t].Deleting?)
    requires !(a.Sample? && a.t == t)
    ensures t < |s.txns| && (s.txns[t].Timed? || s.txns[t].Decided? || s.txns[t].Deleting?)
    ensures s.txns[t].order == s'.txns[t].order
    ensures (if s.txns[t].Decided? then s.txns[t].reading.now else s.txns[t].now) ==
            if s'.txns[t].Decided? then s'.txns[t].reading.now else s'.txns[t].now
    ensures |s.db.marks| == |s'.db.marks|
    ensures forall shard | shard in s.txns[t].order :: shard < |s.db.marks| && s.db.marks[shard] == s'.db.marks[shard]
  {
    hide Occurs, Committed, Reading.Answer, Reading.Valid, Clamped;
    OccursKeepsInv(place, policyOf, s);
    assert t < |s.txns| && !s.txns[t].Locking? && !s.txns[t].Ended? by {
      if a.Commit? { CommitEnds(s, a.t); }
    }
    if !a.Begin? && a.t == t {
      assert TxnOk(place, policyOf, s.db, s.txns[t]);
      if a.Commit? { CommitEnds(s, a.t); }
    } else {
      OtherStepKeepsHolder(place, policyOf, s, a, s', t);
    }
  }

  /** The reference bucket of the committed charges, asked for one check. */
  ghost predicate Drawn(policyOf: CounterKey -> Policy, s: System, r: Reading, i: nat, reference: BucketAnswer)
    requires i < |r.checks| && GcraPolicies(policyOf)
  {
    var p, log := policyOf(r.checks[i].key), s.logs(r.checks[i].key);
    && r.checks[i].policy == p && Conforming(p, log) && EndOf(log) <= r.now
    && reference == Draw(p, BucketAfter(p, log), r.now, r.checks[i].cost).1
  }

  predicate Matches(burst: nat, verdict: Verdict, reference: BucketAnswer) {
    match verdict
    case Overflow => true
    case Refuse(d) => d.capacity == burst && reference == Short(d.retryAfter)
    case Admit(_, a) => a.capacity == burst && reference == Granted(a.available, a.replenishesAfter)
  }

  /** What every decided transaction answers: all its checks are granted what the
      reference buckets of the committed charges grant, or the first check that
      fails is named, with its exact delay for a quota, enforced or shadow as its
      mode says, or for storage when its shard has no room for another row. */
  lemma {:induction false} DecidesAsBuckets(place: Placement, policyOf: CounterKey -> Policy, s: System, t: nat)
    returns (references: seq<BucketAnswer>)
    requires Places(place) && GcraPolicies(policyOf) && Occurs(place, policyOf, s)
    requires t < |s.txns| && s.txns[t].Decided? && s.txns[t].answer.Ok?
    ensures var r := s.txns[t].reading;
            && r.Valid() && |references| == |r.checks|
            && forall i | 0 <= i < |r.checks| :: Drawn(policyOf, s, r, i, references[i])
    ensures var r, admission := s.txns[t].reading, s.txns[t].answer.value;
            if admission.Accepted? then
              && |admission.pending| == |r.checks|
              && forall i | 0 <= i < |r.checks| ::
                   var a := admission.pending[i].allowance;
                   a.capacity == r.checks[i].policy.burst && references[i] == Granted(a.available, a.replenishesAfter)
            else
              && admission.index < |r.checks|
              && (forall j | 0 <= j < admission.index :: references[j].Granted?)
              && var check, reference := r.checks[admission.index], references[admission.index];
              if admission.ShadowRejected? then
                check.mode == Shadow && admission.quota.capacity == check.policy.burst
                && reference == Short(admission.quota.retryAfter)
              else if admission.denial.QuotaExceeded? then
                check.mode == Enforce && admission.denial.quota.capacity == check.policy.burst
                && reference == Short(admission.denial.quota.retryAfter)
              else
                && reference.Granted? && admission.denial.retryAfter == None && check.key !in s.db.rows
                && |RowsOn(s.db.rows, place, place(check.key))| + r.Missing(admission.index,
                   place(check.key)) >= r.maximum
  {
    hide Occurs, Inv, Judge, Drawn, Reading.Sound, Reading.Assess, Reading.Answer, Reading.Missing, RowsOn;
    DecisionsAreCurrent(place, policyOf, s, t);
    var r := s.txns[t].reading;
    references := [];
    for n := 0 to |r.checks|
      invariant |references| == n
      invariant forall i | 0 <= i < n ::
                  Drawn(policyOf, s, r, i, references[i])
                  && Matches(r.checks[i].policy.burst, r.Assess(i), references[i])
    {
      var reference := CheckAsBucket(place, policyOf, s, t, n);
      references := references + [reference];
    }
    AnswerSpelled(r, s.txns[t].answer);
    ReadingPlaces(place, policyOf, s, t);
  }

  lemma {:induction false} CheckAsBucket(place: Placement, policyOf: CounterKey -> Policy, s: System, t: nat, i: nat)
    returns (reference: BucketAnswer)
    requires Places(place) && GcraPolicies(policyOf) && Occurs(place, policyOf, s)
    requires t < |s.txns| && s.txns[t].Decided? && i < |s.txns[t].reading.checks| && s.txns[t].reading.Valid()
    ensures Drawn(policyOf, s, s.txns[t].reading, i, reference)
    ensures Matches(s.txns[t].reading.checks[i].policy.burst, s.txns[t].reading.Assess(i), reference)
  {
    hide Occurs, Judge, Draw, BucketAfter, Conforming, Overflows, Reading.Sound, Reading.Assess;
    DecisionIsTokenBucket(place, policyOf, s, t, i);
    var key := s.txns[t].reading.checks[i].key;
    reference := Draw(policyOf(key), BucketAfter(policyOf(key), s.logs(key)), s.txns[t].reading.now,
                      s.txns[t].reading.checks[i].cost).1;
  }

  lemma {:induction false} ReadingPlaces(place: Placement, policyOf: CounterKey -> Policy, s: System, t: nat)
    requires Places(place) && GcraPolicies(policyOf) && Occurs(place, policyOf, s)
    requires t < |s.txns| && s.txns[t].Decided?
    ensures s.txns[t].reading.place == place
  {
    hide Occurs, KeyOk, Reading.Answer, Reading.Valid;
    OccursKeepsInv(place, policyOf, s);
    assert TxnOk(place, policyOf, s.db, s.txns[t]);
  }

  /** A reading's answer in the terms of its assessments. */
  lemma {:induction false} AnswerSpelled(r: Reading, answer: Result<PgAdmission, StorageInvariant>)
    requires r.Valid() && r.Answer(answer) && answer.Ok?
    ensures var admission := answer.value;
            admission.Accepted? ==>
              && |admission.pending| == |r.checks|
              && forall i | 0 <= i < |r.checks| ::
                   r.Assess(i) == Admit(admission.pending[i].stored, admission.pending[i].allowance)
    ensures var admission := answer.value;
            !admission.Accepted? ==>
              && admission.index < |r.checks|
              && (forall j | 0 <= j < admission.index :: r.Assess(j).Admit?)
              && var check, verdict := r.checks[admission.index], r.Assess(admission.index);
              if admission.ShadowRejected? then check.mode == Shadow && verdict == Refuse(admission.quota)
              else if admission.denial.QuotaExceeded? then
                check.mode == Enforce && verdict == Refuse(admission.denial.quota)
              else
                && verdict.Admit? && admission.denial.retryAfter == None && r.rows[admission.index].None?
                && r.counts[r.place(check.key)] + r.Missing(admission.index, r.place(check.key)) >= r.maximum
  {
    hide Judge, Reading.Sound, Reading.Assess, Reading.Missing;
    if !answer.value.Accepted? {
      var i :| 0 <= i < |r.checks| && r.NoFailureBefore(i) && r.FailureAt(i).Some?
          && answer == Ok(r.Refusal(i, r.FailureAt(i).value));
      forall j | 0 <= j < i ensures r.Assess(j).Admit? { assert r.FailureAt(j).None?; }
    }
  }

  /** A cleanup's statement picks rows that expired at its time on the shards it
      holds, up to its limit, and none that expired later than one it leaves. */
  lemma {:induction false} SelectionSpelled(place: Placement, policyOf: CounterKey -> Policy, s: System, t: nat,
                                            doomed: set<CounterKey>, s': System)
    requires Step(place, policyOf, s, Select(t, doomed), s')
    ensures t < |s.txns| && s.txns[t].Timed? && s.txns[t].work.Cleanup?
    ensures s' == s.(txns := s.txns[t := Deleting(s.txns[t].order, s.txns[t].now, doomed)])
    ensures var order, now, limit := s.txns[t].order, s.txns[t].now, s.txns[t].work.limit;
            && |doomed| <= limit
            && (forall k | k in doomed :: k in s.db.rows && place(k) in order && s.db.rows[k].expiresAt <= now)
            && (|doomed| < limit ==>
                  forall k | k in s.db.rows && k !in doomed :: place(k) in order ==> s.db.rows[k].expiresAt > now)
            && forall k, left | k in doomed && left in s.db.rows && left !in doomed && place(left) in order ::
                 s.db.rows[k].expiresAt <= s.db.rows[left].expiresAt
  {
    var txn := s.txns[t];
    var due := map k | k in ExpiredOn(s.db.rows, place, txn.order, txn.now) :: s.db.rows[k].expiresAt;
    assert Soonest(due, txn.work.limit, doomed);
    assert forall k | k in s.db.rows :: k in due <==> place(k) in txn.order && s.db.rows[k].expiresAt <= txn.now;
    if |doomed| < txn.work.limit { SoonestTakesAll(due, txn.work.limit, doomed); }
  }

  /** What the commit of an admission writes: each checked key's row holds the arrival
      time of the key's log with this charge in it, until the instant of full
      replenishment; other rows stay; the shards it holds are marked with its time. */
  lemma {:induction false} CommitSpelled(place: Placement, policyOf: CounterKey -> Policy, s: System, t: nat,
                                         s': System)
    requires Places(place) && GcraPolicies(policyOf) && Occurs(place, policyOf, s)
    requires Step(place, policyOf, s, Commit(t), s') && t < |s.txns| && s.txns[t].Decided?
    ensures var r := s.txns[t].reading;
            && (forall i | 0 <= i < |r.checks| ::
                  var key, p := r.checks[i].key, r.checks[i].policy;
                  && p == policyOf(key) && s'.logs(key) == s.logs(key) + [Charge(r.now, r.checks[i].cost)]
                  && key in s'.db.rows && s'.db.rows[key].value == VirtualTat(p, s'.logs(key))
                  && s'.db.rows[key].expiresAt ==
                     DivCeil(VirtualTat(p, s'.logs(key)), p.quota) <= 0x7FFF_FFFF_FFFF_FFFF)
            && (forall k | forall i | 0 <= i < |r.checks| :: r.checks[i].key != k ::
                  Lookup(s'.db.rows, k) == Lookup(s.db.rows, k) && s'.logs(k) == s.logs(k))
    ensures |s'.db.marks| == |s.db.marks|
    ensures forall shard | 0 <= shard < |s.db.marks| ::
              s'.db.marks[shard] == if shard in s.txns[t].order then s.txns[t].reading.now else s.db.marks[shard]
  {
    hide Occurs, Inv, Reading.Answer, Reading.Valid, VirtualTat, DivCeil, Upserted;
    var r := s.txns[t].reading;
    OccursKeepsInv(place, policyOf, s);
    assert TxnOk(place, policyOf, s.db, s.txns[t]) by { TxnHolds(place, policyOf, s, t); }
    forall i | 0 <= i < |r.checks|
      ensures var key, p := r.checks[i].key, policyOf(r.checks[i].key);
              && r.checks[i].policy == p && s'.logs(key) == s.logs(key) + [Charge(r.now, r.checks[i].cost)]
              && Lookup(s'.db.rows, key) ==
                 Some(Stored(VirtualTat(p, s'.logs(key)), DivCeil(VirtualTat(p, s'.logs(key)), p.quota)))
              && DivCeil(VirtualTat(p, s'.logs(key)), p.quota) <= I64_MAX
    {
      CommittedRow(place, policyOf, s, t, s', i);
    }
    forall k | forall i | 0 <= i < |r.checks| :: r.checks[i].key != k
      ensures Lookup(s'.db.rows, k) == Lookup(s.db.rows, k) && s'.logs(k) == s.logs(k)
    {
      OtherRow(s, t, k);
    }
  }

  lemma {:induction false} TxnHolds(place: Placement, policyOf: CounterKey -> Policy, s: System, t: nat)
    requires Places(place) && GcraPolicies(policyOf) && Inv(place, policyOf, s) && t < |s.txns|
    ensures TxnOk(place, policyOf, s.db, s.txns[t])
  {
    hide TxnOk, KeyOk;
  }

  lemma {:induction false} OtherRow(s: System, t: nat, k: CounterKey)
    requires t < |s.txns| && s.txns[t].Decided? && CanCommit(s.txns[t])
    requires SoundUpTo(s.txns[t].reading.checks, |s.txns[t].reading.checks|)
    requires forall i | 0 <= i < |s.txns[t].reading.checks| :: s.txns[t].reading.checks[i].key != k
    ensures Lookup(Committed(s, t).db.rows, k) == Lookup(s.db.rows, k) && Committed(s, t).logs(k) == s.logs(k)
  {
    var r, pending := s.txns[t].reading, s.txns[t].answer.value.pending;
    UpsertedLookup(s.db.rows, r.checks, pending, |r.checks|, k);
    Runs.ChargesOfDistinct(r.checks, |r.checks|, k, r.now);
    assert s.logs(k) + [] == s.logs(k);
  }

  lemma {:induction false} CommittedRow(place: Placement, policyOf: CounterKey -> Policy, s: System, t: nat, s': System,
                                        i: nat)
    requires Places(place) && GcraPolicies(policyOf) && Inv(place, policyOf, s)
             && Step(place, policyOf, s, Commit(t), s')
    requires t < |s.txns| && s.txns[t].Decided? && i < |s.txns[t].reading.checks|
    ensures var r := s.txns[t].reading;
            var key, p := r.checks[i].key, policyOf(r.checks[i].key);
            && r.checks[i].policy == p && s'.logs(key) == s.logs(key) + [Charge(r.now, r.checks[i].cost)]
            && Lookup(s'.db.rows, key) ==
               Some(Stored(VirtualTat(p, s'.logs(key)), DivCeil(VirtualTat(p, s'.logs(key)), p.quota)))
            && DivCeil(VirtualTat(p, s'.logs(key)), p.quota) <= I64_MAX
  {
    hide KeyOk, Judge, Reading.Answer, Reading.Valid, GcraLane, VirtualTat, DivCeil, Inv;
    var r, pending := s.txns[t].reading, s.txns[t].answer.value.pending;
    var key := r.checks[i].key;
    TxnHolds(place, policyOf, s, t);
    UpsertedLookup(s.db.rows, r.checks, pending, |r.checks|, key);
    Runs.ChargesOfDistinct(r.checks, |r.checks|, key, r.now);
    CommitKeepsKey(place, policyOf, s, t, key);
    KeyStored(place, policyOf, s', key);
  }

  lemma {:induction false} KeyStored(place: Placement, policyOf: CounterKey -> Policy, s: System, key: CounterKey)
    requires Places(place) && GcraPolicies(policyOf) && |s.db.marks| == SHARDS
    requires KeyOk(place, policyOf, s, key) && key in s.db.rows
    ensures var p := policyOf(key);
            s.db.rows[key] == Stored(VirtualTat(p, s.logs(key)), DivCeil(VirtualTat(p, s.logs(key)), p.quota))
  {
    hide VirtualTat, DivCeil, Conforming;
  }

  /** What the commit of a cleanup writes: the rows it picked are gone, every other row
      and every log stays, and its shards are marked with its time. */
  lemma {:induction false} CleanupCommitSpelled(place: Placement, policyOf: CounterKey -> Policy, s: System, t: nat,
                                                s': System)
    requires Step(place, policyOf, s, Commit(t), s') && t < |s.txns| && s.txns[t].Deleting?
    ensures forall k :: Lookup(s'.db.rows, k) == if k in s.txns[t].doomed then None else Lookup(s.db.rows, k)
    ensures s'.logs == s.logs && |s'.db.marks| == |s.db.marks|
    ensures forall shard | 0 <= shard < |s.db.marks| ::
              s'.db.marks[shard] == if shard in s.txns[t].order then s.txns[t].now else s.db.marks[shard]
  {
  }
}

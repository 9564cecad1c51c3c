/** Every interleaving of PostgreSQL GCRA transactions keeps each key's row and
    watermark in step with everything ever committed for the key. */
module PgGcraInvariant {
  import opened Basics
  import opened Policies
  import opened Batches
  import opened GcraHistory
  import opened Counters
  import Runs = StoreRuns
  import opened GcraRuns
  import Locks = LockOrder
  import opened PgGcraEvaluation
  import opened PgGcraProtocol

  /** A thread may only give locks up or take free ones. */
  lemma {:induction false} ReplaceKeepsCoherent(threads: seq<Locks.Thread>, t: nat, thread: Locks.Thread)
    requires Locks.Coherent(threads) && t < |threads| && Locks.WellFormed(thread)
    requires forall lock: nat | Locks.Holds(thread, lock) :: Locks.Holds(threads[t], lock) || Locks.Free(threads, lock)
    ensures Locks.Coherent(threads[t := thread])
  {
    hide Locks.Holds, Locks.WellFormed;
    var after := threads[t := thread];
    forall u, lock: nat | 0 <= u < |threads| && u != t
      ensures !(Locks.Holds(after[t], lock) && Locks.Holds(after[u], lock))
    {
      assert after[u] == threads[u];
    }
  }

  lemma {:induction false} AddKeepsCoherent(threads: seq<Locks.Thread>, thread: Locks.Thread)
    requires Locks.Coherent(threads) && Locks.WellFormed(thread) && thread.held == 0
    ensures Locks.Coherent(threads + [thread])
  {
  }

  lemma {:induction false} ThreadsUpdate(txns: seq<Txn>, t: nat, txn: Txn)
    requires t < |txns|
    ensures Threads(txns[t := txn]) == Threads(txns)[t := ThreadOf(txn)]
  {
  }

  lemma {:induction false} CommitEnds(s: System, t: nat)
    requires t < |s.txns| && CanCommit(s.txns[t])
    ensures Committed(s, t).txns == s.txns[t := Ended] && |Committed(s, t).db.marks| == |s.db.marks|
  {
  }

  lemma {:induction false} NextIsFree(threads: seq<Locks.Thread>, t: nat)
    requires t < |threads| && Locks.CanStep(threads, t) && threads[t].held < |threads[t].order|
    ensures Locks.Free(threads, threads[t].order[threads[t].held])
  {
  }

  /** Two databases that agree wherever `order` holds the locks. */
  ghost predicate Agree(place: Placement, a: Database, b: Database, order: seq<nat>) {
    && |a.marks| == |b.marks|
    && (forall s | s in order && s < |a.marks| :: a.marks[s] == b.marks[s])
    && forall k: CounterKey | place(k) in order :: Lookup(a.rows, k) == Lookup(b.rows, k)
  }

  lemma {:induction false} AgreeOnRows(place: Placement, a: Database, b: Database, order: seq<nat>, s: nat)
    requires Agree(place, a, b, order) && s in order
    ensures RowsOn(a.rows, place, s) == RowsOn(b.rows, place, s)
  {
    forall k: CounterKey ensures k in RowsOn(a.rows, place, s) <==> k in RowsOn(b.rows, place, s) {
      if place(k) == s { assert Lookup(a.rows, k) == Lookup(b.rows, k); }
    }
  }

  /** A reading depends only on the shards it locked. */
  lemma {:induction false} ReadingIsLocal(place: Placement, a: Database, b: Database, checks: seq<Check>,
                                          order: seq<nat>, now: nat, maximum: nat)
    requires Agree(place, a, b, order) && forall i | 0 <= i < |checks| :: place(checks[i].key) in order
    ensures ReadingOf(a, place, checks, order, now, maximum) == ReadingOf(b, place, checks, order, now, maximum)
  {
    var ra, rb := ReadingOf(a, place, checks, order, now, maximum), ReadingOf(b, place, checks, order, now, maximum);
    assert ra.rows == rb.rows;
    forall s | 0 <= s < SHARDS ensures ra.counts[s] == rb.counts[s] {
      if s in order { AgreeOnRows(place, a, b, order, s); }
    }
    assert ra.counts == rb.counts;
  }

  lemma {:induction false} TxnIsLocal(place: Placement, policyOf: CounterKey -> Policy, a: Database, b: Database,
                                      txn: Txn)
    requires TxnOk(place, policyOf, a, txn)
    requires !txn.Locking? && !txn.Ended? ==> Agree(place, a, b, txn.order)
    ensures TxnOk(place, policyOf, b, txn)
  {
    hide Reading.Answer, Reading.Valid, ReadingOf;
    match txn
    case Decided(order, r, answer) => ReadingIsLocal(place, a, b, r.checks, order, r.now, r.maximum);
    case Deleting(order, now, doomed) =>
      forall k | k in doomed ensures k in ExpiredOn(b.rows, place, order, now) {
        assert Lookup(a.rows, k) == Lookup(b.rows, k);
      }
    case _ =>
  }

  /** Transactions that hold all they want share no shard. */
  lemma {:induction false} HoldersAreDisjoint(txns: seq<Txn>, t: nat, u: nat)
    requires Locks.Coherent(Threads(txns)) && t < |txns| && u < |txns| && t != u
    requires !txns[t].Locking? && !txns[t].Ended? && !txns[u].Locking? && !txns[u].Ended?
    ensures forall s: nat | s in txns[t].order :: s !in txns[u].order
  {
    forall s: nat | s in txns[t].order ensures s !in txns[u].order {
      if s in txns[u].order {
        assert Locks.Holds(Threads(txns)[t], s);
        assert Locks.Holds(Threads(txns)[u], s);
      }
    }
  }

  lemma {:induction false} UpsertedLookup(rows: Entries, checks: seq<Check>, pending: seq<PendingCharge>, n: nat,
                                          key: CounterKey)
    requires n <= |checks| == |pending| && SoundUpTo(checks, |checks|)
    ensures (forall i | 0 <= i < n :: checks[i].key != key) ==>
            Lookup(Upserted(rows, checks, pending, n), key) == Lookup(rows, key)
    ensures forall i | 0 <= i < n && checks[i].key == key ::
            Lookup(Upserted(rows, checks, pending, n), key) == Some(pending[i].stored)
  {
    if n > 0 { UpsertedLookup(rows, checks, pending, n - 1, key); }
  }

  /** A commit touches nothing outside the shards its transaction locked. */
  lemma {:induction false} CommitIsLocal(place: Placement, policyOf: CounterKey -> Policy, s: System, t: nat,
                                         order: seq<nat>)
    requires t < |s.txns| && CanCommit(s.txns[t]) && TxnOk(place, policyOf, s.db, s.txns[t])
    requires forall shard: nat | shard in s.txns[t].order :: shard !in order
    ensures Agree(place, s.db, Committed(s, t).db, order)
  {
    hide Reading.Answer, Reading.Valid, ReadingOf;
    var txn, after := s.txns[t], Committed(s, t).db;
    forall k: CounterKey | place(k) in order ensures Lookup(s.db.rows, k) == Lookup(after.rows, k) {
      if txn.Decided? {
        UpsertedLookup(s.db.rows, txn.reading.checks, txn.answer.value.pending, |txn.reading.checks|, k);
      }
    }
  }

  lemma {:induction false} QuietLane(op: Runs.Op, key: CounterKey, before: Runs.Lane, after: Runs.Lane)
    requires before.latest <= after.latest
    requires after.entry == before.entry || after.entry == Alive(before.entry, after.latest)
    ensures Runs.LaneStep(op, key, before, after, [])
  {
  }

  lemma {:induction false} ChargedLane(checks: seq<Check>, i: nat, before: Runs.Lane, after: Runs.Lane)
    requires i < |checks| && ValidCheck(checks[i]) && before.latest <= after.latest
    requires var verdict := Judge(checks[i], after.latest, Alive(before.entry, after.latest));
             verdict.Admit? && after.entry == Some(verdict.stored)
    ensures Runs.LaneStep(Runs.Many(checks, 0), checks[i].key, before, after, [Charge(after.latest, checks[i].cost)])
  {
    hide Judge, Alive;
    assert Runs.Many(checks, 0).Checks()[i] == checks[i];
  }

  lemma {:induction false} CleanupIsLaneStep(place: Placement, policyOf: CounterKey -> Policy, s: System, t: nat,
                                             key: CounterKey)
    requires Places(place) && |s.db.marks| == SHARDS
    requires t < |s.txns| && s.txns[t].Deleting? && TxnOk(place, policyOf, s.db, s.txns[t])
    ensures |Committed(s, t).db.marks| == SHARDS
    ensures Runs.LaneStep(Runs.Many([], 0), key, LaneIn(s.db, place, key), LaneIn(Committed(s, t).db, place, key), [])
    ensures Committed(s, t).logs(key) == s.logs(key)
  {
    hide Runs.LaneStep;
    QuietLane(Runs.Many([], 0), key, LaneIn(s.db, place, key), LaneIn(Committed(s, t).db, place, key));
  }

  lemma {:induction false} AdmissionIsLaneStep(place: Placement, policyOf: CounterKey -> Policy, s: System, t: nat,
                                               key: CounterKey)
    requires Places(place) && |s.db.marks| == SHARDS
    requires t < |s.txns| && s.txns[t].Decided? && CanCommit(s.txns[t]) && TxnOk(place, policyOf, s.db, s.txns[t])
    ensures |Committed(s, t).db.marks| == SHARDS
    ensures var r := s.txns[t].reading;
            var charges := Runs.ChargesOf(r.checks, |r.checks|, key, r.now);
            && Runs.LaneStep(Runs.Many(r.checks, 0), key, LaneIn(s.db, place, key),
                             LaneIn(Committed(s, t).db, place, key), charges)
            && Committed(s, t).logs(key) == s.logs(key) + charges
  {
    hide Judge, Alive, Reading.Answer, Reading.Valid, Runs.LaneStep, RowsOn;
    var r, pending := s.txns[t].reading, s.txns[t].answer.value.pending;
    var before, after := LaneIn(s.db, place, key), LaneIn(Committed(s, t).db, place, key);
    UpsertedLookup(s.db.rows, r.checks, pending, |r.checks|, key);
    Runs.ChargesOfDistinct(r.checks, |r.checks|, key, r.now);
    if i :| 0 <= i < |r.checks| && r.checks[i].key == key {
      AcceptedAssessment(r, s.txns[t].answer, i);
      assert r.rows[i] == Lookup(s.db.rows, key);
      ChargedLane(r.checks, i, before, after);
    } else {
      QuietLane(Runs.Many(r.checks, 0), key, before, after);
    }
  }

  lemma {:induction false} AcceptedAssessment(r: Reading, answer: Result<PgAdmission, StorageInvariant>, i: nat)
    requires r.Valid() && r.Answer(answer) && answer.Ok? && answer.value.Accepted? && i < |r.checks|
    ensures |answer.value.pending| == |r.checks| && ValidCheck(r.checks[i])
    ensures Judge(r.checks[i], r.now, Alive(r.rows[i], r.now)) ==
            Admit(answer.value.pending[i].stored, answer.value.pending[i].allowance)
  {
    hide Judge, Alive, Reading.Sound, Reading.FailureAt;
    assert r.Assess(i) == Admit(answer.value.pending[i].stored, answer.value.pending[i].allowance);
  }

  /** Seen from one key, a commit is a step the in-memory store could take. */
  lemma {:induction false} CommitKeepsKey(place: Placement, policyOf: CounterKey -> Policy, s: System, t: nat,
                                          key: CounterKey)
    requires Places(place) && GcraPolicies(policyOf) && Inv(place, policyOf, s) && t < |s.txns| && CanCommit(s.txns[t])
    ensures |Committed(s, t).db.marks| == SHARDS && KeyOk(place, policyOf, Committed(s, t), key)
  {
    hide Committed, Runs.LaneStep, GcraLane, Reading.Answer, Reading.Valid, ReadingOf, Locks.Coherent;
    CommitEnds(s, t);
    var txn := s.txns[t];
    assert TxnOk(place, policyOf, s.db, txn) && KeyOk(place, policyOf, s, key);
    var checks := if txn.Decided? then txn.reading.checks else [];
    var charges := if txn.Decided? then Runs.ChargesOf(checks, |checks|, key, txn.reading.now) else [];
    if txn.Decided? {
      AdmissionIsLaneStep(place, policyOf, s, t, key);
    } else {
      CleanupIsLaneStep(place, policyOf, s, t, key);
      assert s.logs(key) + [] == s.logs(key);
    }
    GcraLaneStep(policyOf(key), Runs.Many(checks, 0), key, LaneIn(s.db, place, key),
                 LaneIn(Committed(s, t).db, place, key), charges, s.logs(key));
  }

  lemma {:induction false} ClampedAtLeast(marks: seq<nat>, order: seq<nat>, clock: int)
    ensures AtLeast(marks, order, Clamped(marks, order, clock)) && clock <= Clamped(marks, order, clock)
  {
    if order != [] {
      ClampedAtLeast(marks, order[..|order| - 1], clock);
      assert forall s | s in order :: s == order[|order| - 1] || s in order[..|order| - 1];
    }
  }

  lemma {:induction false} CommitKeepsTxns(place: Placement, policyOf: CounterKey -> Policy, s: System, t: nat, u: nat)
    requires Places(place) && GcraPolicies(policyOf) && Inv(place, policyOf, s)
    requires t < |s.txns| && CanCommit(s.txns[t]) && u < |s.txns|
    ensures |Committed(s, t).txns| == |s.txns| && TxnOk(place, policyOf, Committed(s, t).db, Committed(s, t).txns[u])
  {
    hide Committed, TxnOk, KeyOk, Agree, Locks.Coherent;
    CommitEnds(s, t);
    assert TxnOk(place, policyOf, s.db, s.txns[t]) && TxnOk(place, policyOf, s.db, s.txns[u]);
    if u == t {
      EndedIsOk(place, policyOf, Committed(s, t).db);
    } else {
      if !s.txns[u].Locking? && !s.txns[u].Ended? {
        HoldersAreDisjoint(s.txns, t, u);
        CommitIsLocal(place, policyOf, s, t, s.txns[u].order);
      }
      TxnIsLocal(place, policyOf, s.db, Committed(s, t).db, s.txns[u]);
    }
  }

  lemma {:induction false} EndedIsOk(place: Placement, policyOf: CounterKey -> Policy, db: Database)
    ensures TxnOk(place, policyOf, db, Ended)
  {
  }

  /** A transaction's own step leaves it consistent with what is committed. */
  lemma {:induction false} OwnStepIsOk(place: Placement, policyOf: CounterKey -> Policy, s: System, a: Action,
                                       s': System)
    requires Places(place) && GcraPolicies(policyOf) && Inv(place, policyOf, s) && Step(place, policyOf, s, a, s')
             && !a.Commit? && !a.Begin?
    ensures a.t < |s.txns| == |s'.txns| && s'.db == s.db && s'.logs == s.logs && s'.txns == s.txns[a.t := s'.txns[a.t]]
    ensures TxnOk(place, policyOf, s.db, s'.txns[a.t])
  {
    hide KeyOk, Reading.Answer, Reading.Valid, Locks.Coherent, Locks.Free, Locks.CanStep, Clamped, AtLeast, ReadingOf;
    assert TxnOk(place, policyOf, s.db, s.txns[a.t]);
    match a
    case Lock(t) =>
    case Grab(t, shard) =>
      var order := s.txns[t].order;
      assert forall i, j | 0 <= i < j < |order + [shard]| :: (order + [shard])[i] < (order + [shard])[j] by {
        assert forall i | 0 <= i < |order| :: order[i] in order;
      }
    case Sample(t, clock) => ClampedAtLeast(s.db.marks, s.txns[t].order, clock);
    case Read(t, answer) =>
      ReadingKeepsInputs(s.db, place, s.txns[t].work.checks, s.txns[t].order, s.txns[t].now, s.txns[t].work.maximum);
    case Select(t, doomed) =>
    case Abort(t) =>
  }

  lemma {:induction false} ReadingKeepsInputs(db: Database, place: Placement, checks: seq<Check>, order: seq<nat>,
                                              now: nat, maximum: nat)
    ensures var r := ReadingOf(db, place, checks, order, now, maximum);
            r.checks == checks && r.now == now && r.maximum == maximum && r.place == place
  {
  }

  lemma {:induction false} ThreadIsWellFormed(place: Placement, policyOf: CounterKey -> Policy, db: Database, txn: Txn)
    requires TxnOk(place, policyOf, db, txn)
    ensures Locks.WellFormed(ThreadOf(txn))
  {
  }

  /** Locks change hands only by taking a free one or by ending. */
  lemma {:induction false} OwnStepLocks(place: Placement, policyOf: CounterKey -> Policy, s: System, a: Action,
                                        s': System, lock: nat)
    requires Places(place) && GcraPolicies(policyOf) && Inv(place, policyOf, s) && Step(place, policyOf, s, a, s')
             && !a.Begin?
    requires a.t < |s.txns| == |s'.txns| && Locks.Holds(ThreadOf(s'.txns[a.t]), lock)
    ensures Locks.Holds(ThreadOf(s.txns[a.t]), lock) || Locks.Free(Threads(s.txns), lock)
  {
    hide KeyOk, Reading.Answer, Reading.Valid, Locks.Coherent, Locks.Free, Locks.CanStep, Clamped, AtLeast, ReadingOf,
         Committed;
    var before, after := ThreadOf(s.txns[a.t]), ThreadOf(s'.txns[a.t]);
    assert TxnOk(place, policyOf, s.db, s.txns[a.t]);
    if a.Commit? { CommitEnds(s, a.t); }
    if a.Lock? { NextIsFree(Threads(s.txns), a.t); }
    var i :| 0 <= i < after.held && after.order[i] == lock;
    if i < before.held { assert before.order[i] == lock; }
  }

  lemma {:induction false} StepKeepsLocks(place: Placement, policyOf: CounterKey -> Policy, s: System, a: Action,
                                          s': System)
    requires Places(place) && GcraPolicies(policyOf) && Inv(place, policyOf, s) && Step(place, policyOf, s, a, s')
    ensures Locks.Coherent(Threads(s'.txns))
  {
    hide KeyOk, TxnOk, Locks.Coherent, Locks.Free, Locks.Holds, Locks.WellFormed, Committed;
    if a.Begin? {
      assert Threads(s'.txns) == Threads(s.txns) + [ThreadOf(s'.txns[|s.txns|])];
      NewThread(a.work, a.order, place, policyOf);
      AddKeepsCoherent(Threads(s.txns), ThreadOf(s'.txns[|s.txns|]));
    } else {
      if a.Commit? {
        CommitEnds(s, a.t);
        EndedIsOk(place, policyOf, s.db);
      } else {
        OwnStepIsOk(place, policyOf, s, a, s');
      }
      ThreadsUpdate(s.txns, a.t, s'.txns[a.t]);
      ThreadIsWellFormed(place, policyOf, s.db, s'.txns[a.t]);
      forall lock: nat | Locks.Holds(ThreadOf(s'.txns[a.t]), lock)
        ensures Locks.Holds(ThreadOf(s.txns[a.t]), lock) || Locks.Free(Threads(s.txns), lock)
      {
        OwnStepLocks(place, policyOf, s, a, s', lock);
      }
      ReplaceKeepsCoherent(Threads(s.txns), a.t, ThreadOf(s'.txns[a.t]));
    }
  }

  lemma {:induction false} NewThread(work: Work, order: seq<nat>, place: Placement, policyOf: CounterKey -> Policy)
    requires WorkOk(work, order, place, policyOf)
    ensures Locks.WellFormed(ThreadOf(Locking(work, order, 0)))
  {
  }

  lemma {:induction false} BeginKeepsTxns(place: Placement, policyOf: CounterKey -> Policy, s: System, a: Action,
                                          s': System)
    requires Places(place) && GcraPolicies(policyOf) && Inv(place, policyOf, s) && Step(place, policyOf, s, a, s')
             && a.Begin?
    ensures s'.db == s.db && s'.logs == s.logs
    ensures forall u | 0 <= u < |s'.txns| :: TxnOk(place, policyOf, s.db, s'.txns[u])
  {
    hide KeyOk, Locks.Coherent, WorkOk;
  }

  /** Every step of every interleaving keeps the invariant. */
  lemma {:induction false} StepKeepsInv(place: Placement, policyOf: CounterKey -> Policy, s: System, a: Action,
                                        s': System)
    requires Places(place) && GcraPolicies(policyOf) && Inv(place, policyOf, s) && Step(place, policyOf, s, a, s')
    ensures Inv(place, policyOf, s')
  {
    hide TxnOk, GcraLane, Committed, Locks.Coherent;
    StepKeepsLocks(place, policyOf, s, a, s');
    if a.Commit? {
      CommitEnds(s, a.t);
      forall key: CounterKey ensures KeyOk(place, policyOf, s', key) { CommitKeepsKey(place, policyOf, s, a.t, key); }
      forall u | 0 <= u < |s'.txns| ensures TxnOk(place, policyOf, s'.db, s'.txns[u]) {
        CommitKeepsTxns(place, policyOf, s, a.t, u);
      }
    } else {
      if a.Begin? { BeginKeepsTxns(place, policyOf, s, a, s'); } else { OwnStepIsOk(place, policyOf, s, a, s'); }
      forall key: CounterKey ensures KeyOk(place, policyOf, s', key) { assert KeyOk(place, policyOf, s, key); }
    }
  }
}

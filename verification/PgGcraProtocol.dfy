/** Concurrent PostgreSQL GCRA transactions: admissions and cleanups lock capacity
    shards, read a clock that may regress, and commit or vanish. */
module PgGcraProtocol {
  import opened Basics
  import opened Policies
  import opened Batches
  import opened GcraHistory
  import opened Counters
  import opened StoreRuns
  import opened GcraRuns
  import opened Topology
  import opened LockOrder
  import opened ExpiryOrder
  import opened PgGcraEvaluation

  /** Committed state: counter rows and each shard's latest observed time. */
  datatype Database = Database(rows: Entries, marks: seq<nat>)

  datatype Work = Admission(checks: seq<Check>, maximum: nat) | Cleanup(limit: nat)

  datatype Txn =
    | Locking(work: Work, order: seq<nat>, held: nat)
    | Timed(work: Work, order: seq<nat>, now: nat)
    | Decided(order: seq<nat>, reading: Reading, answer: Result<PgAdmission, StorageInvariant>)
    | Deleting(order: seq<nat>, now: nat, doomed: set<CounterKey>)
    | Ended

  /** `logs` remembers every committed charge, for the proofs alone. */
  datatype System = System(db: Database, txns: seq<Txn>, logs: CounterKey -> seq<Charge>)

  datatype Action =
    | Begin(work: Work, order: seq<nat>)
    | Lock(t: nat)
    | Grab(t: nat, shard: nat)
    | Sample(t: nat, clock: int)
    | Read(t: nat, answer: Result<PgAdmission, StorageInvariant>)
    | Select(t: nat, doomed: set<CounterKey>)
    | Commit(t: nat)
    | Abort(t: nat)

  /** A transaction as the lock manager sees it. */
  function ThreadOf(txn: Txn): Thread {
    match txn
    case Locking(_, order, held) => Thread(order, held, false)
    case Timed(_, order, _) => Thread(order, |order|, false)
    case Decided(order, _, _) => Thread(order, |order|, false)
    case Deleting(order, _, _) => Thread(order, |order|, false)
    case Ended => Thread([], 0, true)
  }

  function Threads(txns: seq<Txn>): (threads: seq<Thread>)
    ensures |threads| == |txns|
  {
    seq(|txns|, t requires 0 <= t < |txns| => ThreadOf(txns[t]))
  }

  /** The time a transaction decides at: its sample, clamped by every locked shard. */
  function Clamped(marks: seq<nat>, order: seq<nat>, clock: int): nat {
    if order == [] then Max(clock, 0)
    else
      var last, rest := order[|order| - 1], Clamped(marks, order[..|order| - 1], clock);
      if last < |marks| then Max(marks[last], rest) else rest
  }

  function RowsOn(rows: Entries, place: Placement, s: nat): set<CounterKey> { set k | k in rows && place(k) == s }

  /** What an admission holding its shards reads. */
  ghost function ReadingOf(db: Database, place: Placement, checks: seq<Check>, order: seq<nat>, now: nat, maximum: nat):
    Reading {
    Reading(checks, seq(|checks|, i requires 0 <= i < |checks| => Lookup(db.rows, checks[i].key)), now, place,
            seq(SHARDS, s => if s in order then |RowsOn(db.rows, place, s)| else 0), maximum)
  }

  function ExpiredOn(rows: Entries, place: Placement, order: seq<nat>, now: nat): set<CounterKey> {
    set k | k in rows && place(k) in order && rows[k].expiresAt <= now
  }

  /** The rows one cleanup statement deletes: the earliest expired, up to its limit. */
  ghost predicate Dooms(db: Database, place: Placement, order: seq<nat>, now: nat, limit: nat,
                        doomed: set<CounterKey>) {
    Soonest(map k | k in ExpiredOn(db.rows, place, order, now) :: db.rows[k].expiresAt, limit, doomed)
  }

  ghost predicate WorkOk(work: Work, order: seq<nat>, place: Placement, policyOf: CounterKey -> Policy) {
    && StrictlyAscending(order) && (forall s | s in order :: s < SHARDS)
    && (work.Admission? ==>
          && GcraChecks(work.checks) && work.checks != [] && SoundUpTo(work.checks, |work.checks|)
          && forall i | 0 <= i < |work.checks| ::
             policyOf(work.checks[i].key) == work.checks[i].policy && place(work.checks[i].key) in order)
  }

  function Upserted(rows: Entries, checks: seq<Check>, pending: seq<PendingCharge>, n: nat): Entries
    requires n <= |checks| == |pending|
  {
    if n == 0 then rows else Upserted(rows, checks, pending, n - 1)[checks[n - 1].key := pending[n - 1].stored]
  }

  function Raised(marks: seq<nat>, order: seq<nat>, now: nat): (raised: seq<nat>)
    ensures |raised| == |marks|
  {
    seq(|marks|, s requires 0 <= s < |marks| => if s in order then now else marks[s])
  }

  predicate Storable(pending: seq<PendingCharge>)
  {
    forall i | 0 <= i < |pending| :: pending[i].stored.expiresAt <= I64_MAX
  }

  predicate CanCommit(txn: Txn) {
    || txn.Deleting?
    || (txn.Decided? && txn.answer.Ok? && txn.answer.value.Accepted? && Storable(txn.answer.value.pending)
        && |txn.answer.value.pending| == |txn.reading.checks|)
  }

  /** The effect of a commit: rows and watermarks change together. */
  function Committed(s: System, t: nat): System
    requires t < |s.txns| && CanCommit(s.txns[t])
  {
    var txn := s.txns[t];
    var txns := s.txns[t := Ended];
    if txn.Deleting? then
      System(Database(s.db.rows - txn.doomed, Raised(s.db.marks, txn.order, txn.now)), txns, s.logs)
    else
      var checks, pending, now := txn.reading.checks, txn.answer.value.pending, txn.reading.now;
      System(Database(Upserted(s.db.rows, checks, pending, |checks|), Raised(s.db.marks, txn.order, now)), txns,
             (key: CounterKey) => s.logs(key) + ChargesOf(checks, |checks|, key, now))
  }

  /** One step of one transaction. An error, a denial's rollback and a lost commit
      are all `Abort`; a commit whose acknowledgement is lost is `Commit`. */
  ghost predicate Step(place: Placement, policyOf: CounterKey -> Policy, s: System, a: Action, s': System) {
    match a
    case Begin(work, order) =>
      WorkOk(work, order, place, policyOf) && (work.Cleanup? ==> order == [])
      && s' == s.(txns := s.txns + [Locking(work, order, 0)])
    case Lock(t) =>
      t < |s.txns| && s.txns[t].Locking? && s.txns[t].held < |s.txns[t].order| && CanStep(Threads(s.txns), t) &&
      s' == s.(txns := s.txns[t := s.txns[t].(held := s.txns[t].held + 1)])
    case Grab(t, shard) =>
      t < |s.txns| && s.txns[t].Locking? && s.txns[t].work.Cleanup? && shard < SHARDS && Free(Threads(s.txns), shard) &&
      (forall held | held in s.txns[t].order :: held < shard) &&
      s' == s.(txns := s.txns[t := Locking(s.txns[t].work, s.txns[t].order + [shard], s.txns[t].held + 1)])
    case Sample(t, clock) =>
      t < |s.txns| && s.txns[t].Locking? && s.txns[t].held == |s.txns[t].order| &&
      s' == s.(txns := s.txns[t := Timed(s.txns[t].work, s.txns[t].order, Clamped(s.db.marks, s.txns[t].order, clock))])
    case Read(t, answer) =>
      t < |s.txns| && s.txns[t].Timed? && s.txns[t].work.Admission? &&
      var txn := s.txns[t];
      var reading := ReadingOf(s.db, place, txn.work.checks, txn.order, txn.now, txn.work.maximum);
      reading.Valid() && reading.Answer(answer) && s' == s.(txns := s.txns[t := Decided(txn.order, reading, answer)])
    case Select(t, doomed) =>
      t < |s.txns| && s.txns[t].Timed? && s.txns[t].work.Cleanup? &&
      Dooms(s.db, place, s.txns[t].order, s.txns[t].now, s.txns[t].work.limit, doomed) &&
      s' == s.(txns := s.txns[t := Deleting(s.txns[t].order, s.txns[t].now, doomed)])
    case Commit(t) => t < |s.txns| && CanCommit(s.txns[t]) && s' == Committed(s, t)
    case Abort(t) => t < |s.txns| && s' == s.(txns := s.txns[t := Ended])
  }

  ghost predicate GcraPolicies(policyOf: CounterKey -> Policy) {
    forall key: CounterKey :: ValidPolicy(policyOf(key)) && policyOf(key).Gcra?
  }

  function LaneIn(db: Database, place: Placement, key: CounterKey): Lane
    requires place(key) < |db.marks|
  {
    Lane(db.marks[place(key)], Lookup(db.rows, key))
  }

  /** A key's row and its shard's watermark together remember its whole log. */
  ghost predicate KeyOk(place: Placement, policyOf: CounterKey -> Policy, s: System, key: CounterKey)
    requires place(key) < |s.db.marks| && policyOf(key).Gcra? && policyOf(key).quota > 0
  {
    GcraLane(policyOf(key), LaneIn(s.db, place, key), s.logs(key))
  }

  ghost predicate AtLeast(marks: seq<nat>, order: seq<nat>, now: nat) {
    forall s | s in order && s < |marks| :: marks[s] <= now
  }

  /** What a transaction has read is still what is committed. */
  ghost predicate TxnOk(place: Placement, policyOf: CounterKey -> Policy, db: Database, txn: Txn) {
    match txn
    case Locking(work, order, held) =>
      WorkOk(work, order, place, policyOf) && held <= |order| && (work.Cleanup? ==> held == |order|)
    case Timed(work, order, now) => WorkOk(work, order, place, policyOf) && AtLeast(db.marks, order, now)
    case Decided(order, r, answer) =>
      && WorkOk(Admission(r.checks, r.maximum), order, place, policyOf) && AtLeast(db.marks, order, r.now)
      && r.Valid() && r == ReadingOf(db, place, r.checks, order, r.now, r.maximum) && r.Answer(answer)
    case Deleting(order, now, doomed) =>
      && StrictlyAscending(order) && (forall s | s in order :: s < SHARDS) && AtLeast(db.marks, order, now)
      && doomed <= ExpiredOn(db.rows, place, order, now)
    case Ended => true
  }

  ghost predicate Inv(place: Placement, policyOf: CounterKey -> Policy, s: System)
    requires Places(place) && GcraPolicies(policyOf)
  {
    && |s.db.marks| == SHARDS
    && Coherent(Threads(s.txns))
    && (forall key: CounterKey :: KeyOk(place, policyOf, s, key))
    && forall t | 0 <= t < |s.txns| :: TxnOk(place, policyOf, s.db, s.txns[t])
  }
}

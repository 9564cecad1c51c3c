/** PostgreSQL fixed windows: a batch is decided by a capacity pass over missing
    rows and a quota pass over active ones, joined by the smaller index. */
module PgWindows {
  import opened Basics
  import opened Policies
  import opened Batches
  import opened Counters
  import opened PgGcraEvaluation

  const MICROS_PER_MILLI := 1000

  /** The database counts a window in the microseconds its clock resolves. */
  function WindowMicros(p: Policy): nat
    requires p.FixedWindow?
  {
    p.window * MICROS_PER_MILLI
  }

  function JudgeRow(check: Check, now: nat, active: Option<Stored>): Verdict
    requires check.policy.FixedWindow?
  {
    JudgeWindow(check.policy.limit, WindowMicros(check.policy), check.cost, now, active)
  }

  datatype WindowRow = WindowRow(startedAt: nat, expiresAt: nat, used: nat)

  type Rows = map<CounterKey, WindowRow>

  function StoredOf(row: WindowRow): Stored { Stored(row.used, row.expiresAt) }

  function StoredIn(rows: Rows, key: CounterKey): Option<Stored>
  {
    if key in rows then Some(StoredOf(rows[key])) else None
  }

  function Occupants(rows: Rows, place: Placement, s: nat): set<CounterKey> { set k | k in rows && place(k) == s }

  predicate WindowChecks(checks: seq<Check>) {
    forall i | 0 <= i < |checks| :: ValidCheck(checks[i]) && checks[i].policy.FixedWindow?
  }

  /** The reference: one check alone, against the rows as they stand. A missing
      key needs a free slot; a stored key answers from its active window. */
  function SingleCheck(rows: Rows, place: Placement, maximum: nat, check: Check, now: nat):
    Result<(Rows, Allowance), Denial>
    requires ValidCheck(check) && check.policy.FixedWindow?
  {
    if check.key !in rows && |Occupants(rows, place, place(check.key))| >= maximum then Err(StorageCapacity(None))
    else
      match JudgeRow(check, now, Alive(StoredIn(rows, check.key), now))
      case Refuse(d) => Err(QuotaExceeded(d))
      case Overflow => Err(StorageCapacity(None))
      case Admit(stored, allowance) =>
        var startedAt := if Alive(StoredIn(rows, check.key), now).Some? then rows[check.key].startedAt else now;
        Ok((rows[check.key := WindowRow(startedAt, stored.expiresAt, stored.value)], allowance))
  }

  datatype Scan = Scanned(rows: Rows, allowances: seq<Allowance>) | StoppedAt(index: nat, denial: Denial)

  /** The first `n` checks one after another, each seeing the rows the ones before
      it left, up to the first denial. */
  function InOrder(rows: Rows, place: Placement, maximum: nat, checks: seq<Check>, now: nat, n: nat): Scan
    requires n <= |checks| && WindowChecks(checks)
  {
    if n == 0 then Scanned(rows, [])
    else
      match InOrder(rows, place, maximum, checks, now, n - 1)
      case StoppedAt(i, d) => StoppedAt(i, d)
      case Scanned(after, allowances) =>
        match SingleCheck(after, place, maximum, checks[n - 1], now)
        case Err(d) => StoppedAt(n - 1, d)
        case Ok((next, allowance)) => Scanned(next, allowances + [allowance])
  }

  /** Among the first `n` checks, those on shard `s` whose key has no row. */
  function MissingOn(rows: Rows, place: Placement, checks: seq<Check>, n: nat, s: nat): nat
    requires n <= |checks|
  {
    if n == 0 then 0
    else
      MissingOn(rows, place, checks, n - 1, s) +
      if checks[n - 1].key !in rows && place(checks[n - 1].key) == s then 1 else 0
  }

  /** The capacity pass stops a check: its new row would exceed the maximum. */
  predicate LacksSlot(rows: Rows, place: Placement, maximum: nat, checks: seq<Check>, i: nat)
    requires i < |checks|
  {
    var s := place(checks[i].key);
    checks[i].key !in rows && |Occupants(rows, place, s)| + MissingOn(rows, place, checks, i, s) + 1 > maximum
  }

  /** The quota pass stops a check: its active row has too little left. */
  predicate LacksQuota(rows: Rows, checks: seq<Check>, now: nat, i: nat)
    requires i < |checks| && checks[i].policy.FixedWindow?
  {
    checks[i].key in rows && rows[checks[i].key].expiresAt > now
    && rows[checks[i].key].used > checks[i].policy.limit - checks[i].cost
  }

  /** Counts pending insertions per shard and stops at the first that does not fit. */
  method FirstCapacityDenial(rows: Rows, place: Placement, maximum: nat, checks: seq<Check>)
    returns (index: Option<nat>)
    requires Places(place)
    ensures match index
            case Some(i) =>
              i < |checks| && LacksSlot(rows, place, maximum, checks, i)
              && forall j | 0 <= j < i :: !LacksSlot(rows, place, maximum, checks, j)
            case None => forall j | 0 <= j < |checks| :: !LacksSlot(rows, place, maximum, checks, j)
  {
    hide Occupants;
    var pendingInsertions := new nat[SHARDS](_ => 0);
    for i := 0 to |checks|
      invariant forall s: nat | s < SHARDS :: pendingInsertions[s] == MissingOn(rows, place, checks, i, s)
      invariant forall j | 0 <= j < i :: !LacksSlot(rows, place, maximum, checks, j)
    {
      if checks[i].key !in rows {
        var shard := place(checks[i].key);
        var projected := |Occupants(rows, place, shard)| + pendingInsertions[shard] + 1;
        if projected > maximum { return Some(i); }
        pendingInsertions[shard] := pendingInsertions[shard] + 1;
      }
    }
    index := None;
  }

  method FirstQuotaDenial(rows: Rows, checks: seq<Check>, now: nat) returns (index: Option<nat>)
    requires WindowChecks(checks)
    ensures match index
            case Some(i) =>
              i < |checks| && LacksQuota(rows, checks, now, i)
              && forall j | 0 <= j < i :: !LacksQuota(rows, checks, now, j)
            case None => forall j | 0 <= j < |checks| :: !LacksQuota(rows, checks, now, j)
  {
    for i := 0 to |checks|
      invariant forall j | 0 <= j < i :: !LacksQuota(rows, checks, now, j)
    {
      if LacksQuota(rows, checks, now, i) { return Some(i); }
    }
    index := None;
  }

  /** The upsert statement on one row. */
  function UpsertedRow(rows: Rows, check: Check, now: nat): WindowRow
    requires check.policy.FixedWindow?
  {
    if check.key !in rows then WindowRow(now, now + WindowMicros(check.policy), check.cost)
    else
      var row := rows[check.key];
      if row.expiresAt <= now then WindowRow(now, now + WindowMicros(check.policy), check.cost)
      else row.(used := row.used + check.cost)
  }

  /** After `n` sequential checks, all admitted: which rows changed. */
  lemma {:induction false} ScannedRows(rows: Rows, place: Placement, maximum: nat, checks: seq<Check>, now: nat, n: nat,
                                       key: CounterKey)
    requires n <= |checks| && WindowChecks(checks) && SoundUpTo(checks, |checks|)
    requires InOrder(rows, place, maximum, checks, now, n).Scanned?
    ensures var after := InOrder(rows, place, maximum, checks, now, n).rows;
            && ((forall i | 0 <= i < n :: checks[i].key != key) ==> StoredRow(after, key) == StoredRow(rows, key))
            && (forall i | 0 <= i < n && checks[i].key == key ::
                StoredRow(after, key) == Some(UpsertedRow(rows, checks[i], now)))
    ensures |InOrder(rows, place, maximum, checks, now, n).allowances| == n
  {
    hide JudgeRow, Alive;
    if n > 0 {
      ScannedRows(rows, place, maximum, checks, now, n - 1, key);
      ScannedRows(rows, place, maximum, checks, now, n - 1, checks[n - 1].key);
      SingleAdmits(InOrder(rows, place, maximum, checks, now, n - 1).rows, place, maximum, checks[n - 1], now);
    }
  }

  function StoredRow(rows: Rows, key: CounterKey): Option<WindowRow> { if key in rows then Some(rows[key]) else None }

  /** What one check does, in the terms of the two passes. */
  lemma {:induction false} SingleAdmits(rows: Rows, place: Placement, maximum: nat, check: Check, now: nat)
    requires ValidCheck(check) && check.policy.FixedWindow?
    ensures var r := SingleCheck(rows, place, maximum, check, now);
            if check.key !in rows && |Occupants(rows, place, place(check.key))| >= maximum
            then r == Err(StorageCapacity(None))
            else if LacksQuota(rows, [check], now, 0) then
              r == Err(QuotaExceeded(QuotaDenial(check.policy.limit, rows[check.key].expiresAt - now)))
            else
              var row := UpsertedRow(rows, check, now);
              r == Ok((rows[check.key := row],
                       Allowance(check.policy.limit, Monus(check.policy.limit, row.used), Monus(row.expiresAt, now))))
  {
  }

  lemma {:induction false} InsertGrows(rows: Rows, place: Placement, key: CounterKey, row: WindowRow, s: nat)
    ensures |Occupants(rows[key := row], place, s)| == |Occupants(rows, place, s)| +
            if place(key) == s && key !in rows then 1 else 0
  {
    assert Occupants(rows[key := row], place, s) == Occupants(rows, place, s) + if place(key) == s then {key} else {};
  }

  /** Sequential insertions fill a shard as the capacity pass counts them. */
  lemma {:induction false} ScannedOccupancy(rows: Rows, place: Placement, maximum: nat, checks: seq<Check>, now: nat,
                                            n: nat, s: nat)
    requires n <= |checks| && WindowChecks(checks) && SoundUpTo(checks, |checks|)
    requires InOrder(rows, place, maximum, checks, now, n).Scanned?
    ensures |Occupants(InOrder(rows, place, maximum, checks, now, n).rows, place, s)|
            == |Occupants(rows, place, s)| + MissingOn(rows, place, checks, n, s)
            <= Max(|Occupants(rows, place, s)|, maximum)
  {
    hide Occupants, JudgeRow, SingleCheck;
    if n > 0 {
      var before, check := InOrder(rows, place, maximum, checks, now, n - 1).rows, checks[n - 1];
      ScannedOccupancy(rows, place, maximum, checks, now, n - 1, s);
      ScannedRows(rows, place, maximum, checks, now, n - 1, check.key);
      SingleAdmits(before, place, maximum, check, now);
      InsertGrows(before, place, check.key, UpsertedRow(before, check, now), s);
    }
  }

  /** The `n`-th check stops the sequential scan exactly when one of the passes
      stops it, and no earlier one. */
  lemma {:induction false} ScanStep(rows: Rows, place: Placement, maximum: nat, checks: seq<Check>, now: nat, n: nat)
    requires n < |checks| && WindowChecks(checks) && SoundUpTo(checks, |checks|)
    requires InOrder(rows, place, maximum, checks, now, n).Scanned?
    ensures InOrder(rows, place, maximum, checks, now, n + 1) ==
            if LacksSlot(rows, place, maximum, checks, n) then StoppedAt(n, StorageCapacity(None))
            else if LacksQuota(rows, checks, now, n) then
              StoppedAt(n, QuotaExceeded(QuotaDenial(checks[n].policy.limit, rows[checks[n].key].expiresAt - now)))
            else
              var before := InOrder(rows, place, maximum, checks, now, n);
              var row := UpsertedRow(rows, checks[n], now);
              Scanned(before.rows[checks[n].key := row],
                      before.allowances
                        + [Allowance(checks[n].policy.limit, Monus(checks[n].policy.limit, row.used),
                                     Monus(row.expiresAt, now))])
  {
    hide Occupants, JudgeRow, SingleCheck;
    var before := InOrder(rows, place, maximum, checks, now, n).rows;
    ScannedRows(rows, place, maximum, checks, now, n, checks[n].key);
    assert StoredRow(before, checks[n].key) == StoredRow(rows, checks[n].key);
    ScannedOccupancy(rows, place, maximum, checks, now, n, place(checks[n].key));
    SingleAdmits(before, place, maximum, checks[n], now);
  }

  /** The sequential scan stops at `n` exactly when the two passes, joined by the
      smaller index, do. */
  lemma {:induction false} ScanIsTwoPasses(rows: Rows, place: Placement, maximum: nat, checks: seq<Check>, now: nat,
                                           n: nat)
    requires n <= |checks| && WindowChecks(checks) && SoundUpTo(checks, |checks|)
    ensures match InOrder(rows, place, maximum, checks, now, n)
            case Scanned(_, _) =>
              forall j | 0 <= j < n :: !LacksSlot(rows, place, maximum, checks, j) && !LacksQuota(rows, checks, now, j)
            case StoppedAt(i, denial) =>
              && i < n && (forall j | 0 <= j < i ::
                           !LacksSlot(rows, place, maximum, checks, j) && !LacksQuota(rows, checks, now, j))
              && if LacksSlot(rows, place, maximum, checks, i) then denial == StorageCapacity(None)
                 else LacksQuota(rows, checks, now, i) &&
                      denial == QuotaExceeded(QuotaDenial(checks[i].policy.limit, rows[checks[i].key].expiresAt - now))
  {
    hide LacksSlot, LacksQuota, SingleCheck;
    if n > 0 {
      ScanIsTwoPasses(rows, place, maximum, checks, now, n - 1);
      if InOrder(rows, place, maximum, checks, now, n - 1).Scanned? {
        ScanStep(rows, place, maximum, checks, now, n - 1);
      }
    }
  }
}

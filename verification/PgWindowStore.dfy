/** The PostgreSQL fixed-window transaction, run against the sequential scan, and
    the order in which it locks its counters. */
module PgWindowStore {
  import opened Basics
  import opened Policies
  import opened Batches
  import opened Topology
  import opened LockOrder
  import opened ExpiryOrder
  import opened PgGcraEvaluation
  import opened PgWindows

  /** Delays are counted from the sample; the response is that much later. */
  function Elapsed(sample: nat, responded: nat): nat { Monus(responded, sample) }

  function LaterQuota(d: QuotaDenial, elapsed: nat): QuotaDenial { d.(retryAfter := Monus(d.retryAfter, elapsed)) }

  function LaterAllowance(a: Allowance, elapsed: nat): Allowance
  {
    a.(replenishesAfter := Monus(a.replenishesAfter, elapsed))
  }

  function LaterAllowances(allowances: seq<Allowance>, elapsed: nat): (later: seq<Allowance>)
    ensures |later| == |allowances|
  {
    seq(|allowances|, i requires 0 <= i < |allowances| => LaterAllowance(allowances[i], elapsed))
  }

  /** The decision a sequential scan makes, as the caller sees it. */
  function DecisionOf(scan: Scan, mode: QuotaMode, size: nat, elapsed: nat): BatchDecision {
    match scan
    case Scanned(_, allowances) => AllAllowed(LaterAllowances(allowances, elapsed))
    case StoppedAt(i, StorageCapacity(retry)) => BatchDenied(i, size, StorageCapacity(retry))
    case StoppedAt(i, QuotaExceeded(d)) =>
      if mode == Shadow then BatchShadowDenied(i, size, LaterQuota(d, elapsed))
         else BatchDenied(i, size, QuotaExceeded(LaterQuota(d, elapsed)))
  }

  /** What becomes of a commit: acknowledged, or not, and then landed or not. */
  datatype CommitFate = Acknowledged | Unacknowledged(landed: bool)

  datatype CommitFailure = OutcomeUnknown

  /** Rows whose window is over. */
  function ExpiredAmong(rows: Rows, found: set<CounterKey>, at: nat): set<CounterKey> {
    set k | k in found && k in rows && rows[k].expiresAt <= at
  }

  function WindowExpiries(rows: Rows, found: set<CounterKey>, at: nat): (expiries: Expiries)
    ensures expiries.Keys == ExpiredAmong(rows, found, at)
  {
    map k | k in ExpiredAmong(rows, found, at) :: rows[k].expiresAt
  }

  class WindowTable {
    var rows: Rows
    ghost const policyOf: CounterKey -> Policy

    /** No stored usage exceeds its limit, and windows keep their length. */
    ghost predicate Valid()
      reads this
    {
      forall k | k in rows ::
        && policyOf(k).FixedWindow? && rows[k].used <= policyOf(k).limit
        && rows[k].expiresAt == rows[k].startedAt + WindowMicros(policyOf(k))
    }

    constructor (ghost policyOf: CounterKey -> Policy)
      ensures Valid() && rows == map[] && this.policyOf == policyOf
    {
      this.policyOf := policyOf;
      rows := map[];
    }

    /** One admission transaction on locked counters. The two passes decide what a
        sequential caller-order scan decides; a denial leaves the rows alone; a commit
        without acknowledgement has landed or has not, all of it; no shard is filled above the maximum. */
    method CheckBatch(checks: seq<Check>, place: Placement, maximum: nat, sample: nat, responded: nat, fate: CommitFate)
      returns (r: Result<BatchDecision, CommitFailure>)
      requires Valid() && Places(place)
      requires checks != [] && WindowChecks(checks) && SoundUpTo(checks, |checks|)
      requires forall i | 0 <= i < |checks| :: policyOf(checks[i].key) == checks[i].policy
      modifies this
      ensures Valid()
      ensures var scan := InOrder(old(rows), place, maximum, checks, sample, |checks|);
              && rows == (if scan.Scanned? && (fate.Acknowledged? || fate.landed) then scan.rows else old(rows))
              && r == (if scan.Scanned? && fate.Unacknowledged? then Err(OutcomeUnknown)
                       else Ok(DecisionOf(scan, checks[0].mode, |checks|, Elapsed(sample, responded))))
      ensures forall s :: |Occupants(rows, place, s)| <= Max(|Occupants(old(rows), place, s)|, maximum)
      ensures var from := if responded >= sample then responded else sample;
              match r
              case Err(_) => fate.Unacknowledged?
              case Ok(AllAllowed(allowances)) =>
                && fate.Acknowledged? && |allowances| == |checks|
                && forall i | 0 <= i < |checks| ::
                     var key, limit := checks[i].key, checks[i].policy.limit;
                     && key in rows && rows[key].used <= limit && rows[key].expiresAt > sample
                     && allowances[i].capacity == limit && allowances[i].available == limit - rows[key].used
                     && from + allowances[i].replenishesAfter == Max(from, rows[key].expiresAt)
              case Ok(BatchDenied(i, size, QuotaExceeded(d))) =>
                && i < |checks| == size && checks[i].mode == Enforce && checks[i].key in old(rows)
                && d.capacity == checks[i].policy.limit
                && from + d.retryAfter == Max(from, old(rows)[checks[i].key].expiresAt)
              case Ok(BatchShadowDenied(i, size, d)) =>
                && i < |checks| == size && checks[i].mode == Shadow && checks[i].key in old(rows)
                && d.capacity == checks[i].policy.limit
                && from + d.retryAfter == Max(from, old(rows)[checks[i].key].expiresAt)
              case Ok(BatchDenied(i, size, StorageCapacity(retry))) =>
                i < |checks| == size && checks[i].key !in old(rows) && retry == None
    {
      hide JudgeRow, SingleCheck, LacksSlot, LacksQuota, Occupants, InOrder, Elapsed, LaterQuota, LaterAllowance,
           MissingOn, UpsertedRow;
      ReplySpelled(rows, place, maximum, checks, sample, responded);
      var capacity := FirstCapacityDenial(rows, place, maximum, checks);
      var quota := FirstQuotaDenial(rows, checks, sample);
      var elapsed := Elapsed(sample, responded);
      ScanIsTwoPasses(rows, place, maximum, checks, sample, |checks|);
      if capacity.Some? && (quota.None? || capacity.value < quota.value) {
        return Ok(BatchDenied(capacity.value, |checks|, StorageCapacity(None)));
      }
      if quota.Some? {
        NeverBoth(rows, place, maximum, checks, sample, quota.value);
        var i := quota.value;
        var retry := rows[checks[i].key].expiresAt - sample;
        var denial := LaterQuota(QuotaDenial(checks[i].policy.limit, retry), elapsed);
        return Ok(if checks[0].mode == Shadow then BatchShadowDenied(i, |checks|, denial)
                  else BatchDenied(i, |checks|, QuotaExceeded(denial)));
      }
      forall s
        ensures |Occupants(InOrder(rows, place, maximum, checks, sample, |checks|).rows, place, s)|
                <= Max(|Occupants(rows, place, s)|, maximum)
      {
        ScannedOccupancy(rows, place, maximum, checks, sample, |checks|, s);
      }
      var after, allowances := UpsertBatch(rows, checks, sample, place, maximum);
      UpsertKeepsLimits(rows, checks, place, maximum, sample, policyOf);
      if fate.Acknowledged? || fate.landed { rows := after; }
      if fate.Unacknowledged? { return Err(OutcomeUnknown); }
      return Ok(AllAllowed(LaterAllowances(allowances, elapsed)));
    }

    /** One cleanup transaction: the rows that expired first go, up to the caller's
        limit, except those another transaction has locked. */
    method Cleanup(limit: nat, locked: set<CounterKey>, at: nat) returns (removed: nat)
      requires Valid()
      modifies this
      ensures Valid() && rows.Keys <= old(rows).Keys
      ensures var gone := old(rows).Keys - rows.Keys;
              && rows == old(rows) - ExpiredAmong(old(rows), gone, at) && removed == |gone|
              && Soonest(WindowExpiries(old(rows), old(rows).Keys - locked, at), limit, gone)
    {
      var gone := TakeSoonest(WindowExpiries(rows, rows.Keys - locked, at), limit);
      assert gone == ExpiredAmong(rows, gone, at);
      rows := rows - gone;
      assert old(rows).Keys - rows.Keys == gone;
      removed := |gone|;
    }
  }

  /** What a cleanup deletes, row by row. */
  lemma {:induction false} CleanupSpelled(rows: Rows, locked: set<CounterKey>, at: nat, limit: nat,
                                          gone: set<CounterKey>)
    requires Soonest(WindowExpiries(rows, rows.Keys - locked, at), limit, gone)
    ensures |gone| <= limit && gone <= rows.Keys
    ensures forall k | k in gone :: k !in locked && rows[k].expiresAt <= at
    ensures |gone| < limit ==> forall k | k in rows && k !in gone :: k in locked || rows[k].expiresAt > at
    ensures forall k, left | k in gone && left in rows && left !in gone && left !in locked ::
              rows[k].expiresAt <= rows[left].expiresAt
  {
    var due := WindowExpiries(rows, rows.Keys - locked, at);
    assert forall k | k in rows :: k in due <==> k !in locked && rows[k].expiresAt <= at;
    if |gone| < limit { SoonestTakesAll(due, limit, gone); }
  }

  /** What the sequential scan does, spelled out from the rows alone: an open window
      takes a charge that stays within its limit, anything else starts a window of
      the policy's length, and a new row needs a free slot. */
  lemma {:induction false} ScanSpelled(rows: Rows, place: Placement, maximum: nat, checks: seq<Check>, sample: nat)
    requires WindowChecks(checks) && SoundUpTo(checks, |checks|)
    ensures match InOrder(rows, place, maximum, checks, sample, |checks|)
            case Scanned(after, allowances) =>
              && |allowances| == |checks|
              && (forall k | forall i | 0 <= i < |checks| :: checks[i].key != k ::
                    StoredRow(after, k) == StoredRow(rows, k))
              && forall i | 0 <= i < |checks| ::
                   var Check(key, FixedWindow(limit, window), _, cost) := checks[i];
                   && key in after && after[key].used <= limit
                   && (if key in rows && rows[key].expiresAt > sample then
                         after[key] == WindowRow(rows[key].startedAt, rows[key].expiresAt, rows[key].used + cost)
                       else after[key] == WindowRow(sample, sample + 1000 * window, cost))
                   && allowances[i] == Allowance(limit, limit - after[key].used, after[key].expiresAt - sample)
            case StoppedAt(i, denial) =>
              && i < |checks|
              && var Check(key, FixedWindow(limit, window), _, cost) := checks[i];
              && (forall j | 0 <= j < i && checks[j].key in rows && rows[checks[j].key].expiresAt > sample ::
                    rows[checks[j].key].used + checks[j].cost <= checks[j].policy.limit)
              && match denial
                 case QuotaExceeded(d) =>
                   && key in rows && rows[key].expiresAt > sample && rows[key].used + cost > limit
                   && d == QuotaDenial(limit, rows[key].expiresAt - sample)
                 case StorageCapacity(retry) =>
                   && retry == None && key !in rows
                   && |set k | k in rows
                      && place(k) == place(key)| + MissingOn(rows, place, checks, i, place(key)) >= maximum
  {
    hide JudgeRow, SingleCheck, InOrder, LacksSlot, LacksQuota;
    var n := |checks|;
    ScanIsTwoPasses(rows, place, maximum, checks, sample, n);
    match InOrder(rows, place, maximum, checks, sample, n)
    case Scanned(after, allowances) =>
      ScannedAllowances(rows, place, maximum, checks, sample, n);
      forall i | 0 <= i < n ensures StoredRow(after, checks[i].key) == Some(UpsertedRow(rows, checks[i], sample)) {
        ScannedRows(rows, place, maximum, checks, sample, n, checks[i].key);
      }
      forall k | forall i | 0 <= i < n :: checks[i].key != k ensures StoredRow(after, k) == StoredRow(rows, k) {
        ScannedRows(rows, place, maximum, checks, sample, n, k);
      }
      forall i | 0 <= i < n
        ensures UpsertedRow(rows, checks[i], sample).used <= checks[i].policy.limit
        ensures UpsertedRow(rows, checks[i], sample).expiresAt > sample
      {
        UpsertWithinLimit(rows, checks, sample, i);
      }
    case StoppedAt(i, denial) =>
      forall j | 0 <= j <= i
        ensures LacksQuota(rows, checks, sample, j) <==>
                checks[j].key in rows && rows[checks[j].key].expiresAt > sample
                && rows[checks[j].key].used + checks[j].cost > checks[j].policy.limit
      {
        LackingSpelled(rows, place, maximum, checks, sample, j);
      }
      LackingSpelled(rows, place, maximum, checks, sample, i);
  }

  lemma {:induction false} ScannedAllowances(rows: Rows, place: Placement, maximum: nat, checks: seq<Check>, now: nat,
                                             n: nat)
    requires n <= |checks| && WindowChecks(checks) && SoundUpTo(checks, |checks|)
    requires InOrder(rows, place, maximum, checks, now, n).Scanned?
    ensures |InOrder(rows, place, maximum, checks, now, n).allowances| == n
    ensures forall i | 0 <= i < n ::
              var limit, row := checks[i].policy.limit, UpsertedRow(rows, checks[i], now);
              InOrder(rows, place, maximum, checks, now, n).allowances[i] ==
              Allowance(limit, Monus(limit, row.used), Monus(row.expiresAt, now))
  {
    hide JudgeRow, SingleCheck, LacksSlot, LacksQuota, Occupants, UpsertedRow;
    if n > 0 {
      ScannedAllowances(rows, place, maximum, checks, now, n - 1);
      ScanStep(rows, place, maximum, checks, now, n - 1);
    }
  }

  lemma {:induction false} UpsertWithinLimit(rows: Rows, checks: seq<Check>, now: nat, i: nat)
    requires WindowChecks(checks) && i < |checks| && !LacksQuota(rows, checks, now, i)
    ensures var row := UpsertedRow(rows, checks[i], now);
            row.used <= checks[i].policy.limit && row.expiresAt > now
  {
  }

  lemma {:induction false} LackingSpelled(rows: Rows, place: Placement, maximum: nat, checks: seq<Check>, now: nat,
                                          i: nat)
    requires WindowChecks(checks) && i < |checks|
    ensures var Check(key, FixedWindow(limit, window), _, cost) := checks[i];
            && (LacksQuota(rows, checks, now, i) <==>
                key in rows && rows[key].expiresAt > now && rows[key].used + cost > limit)
            && (LacksSlot(rows, place, maximum, checks, i) <==>
                key !in rows &&
                |set k | k in rows
                && place(k) == place(key)| + MissingOn(rows, place, checks, i, place(key)) >= maximum)
  {
    var s := place(checks[i].key);
    assert Occupants(rows, place, s) == set k | k in rows && place(k) == s;
  }

  /** The reply counts every delay from the response, or from the sample if the
      response is stamped before it. */
  lemma {:induction false} ReplySpelled(rows: Rows, place: Placement, maximum: nat, checks: seq<Check>, sample: nat,
                                        responded: nat)
    requires checks != [] && WindowChecks(checks) && SoundUpTo(checks, |checks|)
    ensures var from := if responded >= sample then responded else sample;
            var scan := InOrder(rows, place, maximum, checks, sample, |checks|);
            match DecisionOf(scan, checks[0].mode, |checks|, Elapsed(sample, responded))
            case AllAllowed(allowances) =>
              && scan.Scanned? && |allowances| == |checks|
              && forall i | 0 <= i < |checks| ::
                   var key, limit := checks[i].key, checks[i].policy.limit;
                   && key in scan.rows && scan.rows[key].used <= limit && scan.rows[key].expiresAt > sample
                   && allowances[i].capacity == limit && allowances[i].available == limit - scan.rows[key].used
                   && from + allowances[i].replenishesAfter == Max(from, scan.rows[key].expiresAt)
            case BatchDenied(i, size, QuotaExceeded(d)) =>
              && i < |checks| == size && checks[i].mode == Enforce && checks[i].key in rows
              && d.capacity == checks[i].policy.limit
              && from + d.retryAfter == Max(from, rows[checks[i].key].expiresAt)
            case BatchShadowDenied(i, size, d) =>
              && i < |checks| == size && checks[i].mode == Shadow && checks[i].key in rows
              && d.capacity == checks[i].policy.limit
              && from + d.retryAfter == Max(from, rows[checks[i].key].expiresAt)
            case BatchDenied(i, size, StorageCapacity(retry)) =>
              i < |checks| == size && checks[i].key !in rows && retry == None
  {
    hide InOrder, MissingOn;
    ScanSpelled(rows, place, maximum, checks, sample);
  }

  lemma {:induction false} NeverBoth(rows: Rows, place: Placement, maximum: nat, checks: seq<Check>, now: nat, i: nat)
    requires i < |checks| && WindowChecks(checks)
    ensures !(LacksSlot(rows, place, maximum, checks, i) && LacksQuota(rows, checks, now, i))
    ensures LacksQuota(rows, checks, now, i) ==> checks[i].key in rows && rows[checks[i].key].expiresAt > now
  {
  }

  /** The upsert statement and the allowances built from the rows it returns. */
  method UpsertBatch(rows: Rows, checks: seq<Check>, now: nat, ghost place: Placement, ghost maximum: nat)
    returns (after: Rows, allowances: seq<Allowance>)
    requires WindowChecks(checks) && SoundUpTo(checks, |checks|)
    requires InOrder(rows, place, maximum, checks, now, |checks|).Scanned?
    ensures InOrder(rows, place, maximum, checks, now, |checks|) == Scanned(after, allowances)
  {
    hide JudgeRow, SingleCheck, LacksSlot, LacksQuota, Occupants, UpsertedRow;
    after, allowances := rows, [];
    ScanIsTwoPasses(rows, place, maximum, checks, now, |checks|);
    for i := 0 to |checks|
      invariant InOrder(rows, place, maximum, checks, now, i) == Scanned(after, allowances)
    {
      ScanStep(rows, place, maximum, checks, now, i);
      var row := UpsertedRow(rows, checks[i], now);
      after := after[checks[i].key := row];
      allowances := allowances
        + [Allowance(checks[i].policy.limit, Monus(checks[i].policy.limit, row.used), Monus(row.expiresAt, now))];
    }
  }

  lemma {:induction false} UpsertKeepsLimits(rows: Rows, checks: seq<Check>, place: Placement, maximum: nat, now: nat,
                          policyOf: CounterKey -> Policy)
    requires WindowChecks(checks) && SoundUpTo(checks, |checks|)
    requires InOrder(rows, place, maximum, checks, now, |checks|).Scanned?
    requires forall k | k in rows ::
               policyOf(k).FixedWindow? && rows[k].used <= policyOf(k).limit
               && rows[k].expiresAt == rows[k].startedAt + WindowMicros(policyOf(k))
    requires forall i | 0 <= i < |checks| :: policyOf(checks[i].key) == checks[i].policy
    ensures forall k | k in InOrder(rows, place, maximum, checks, now, |checks|).rows ::
              var row := InOrder(rows, place, maximum, checks, now, |checks|).rows[k];
              policyOf(k).FixedWindow? && row.used <= policyOf(k).limit
              && row.expiresAt == row.startedAt + WindowMicros(policyOf(k))
  {
    hide InOrder, LacksSlot, JudgeRow, WindowMicros;
    ScanIsTwoPasses(rows, place, maximum, checks, now, |checks|);
    var after := InOrder(rows, place, maximum, checks, now, |checks|).rows;
    forall k | k in after
      ensures policyOf(k).FixedWindow? && after[k].used <= policyOf(k).limit
              && after[k].expiresAt == after[k].startedAt + WindowMicros(policyOf(k))
    {
      ScannedRows(rows, place, maximum, checks, now, |checks|, k);
      if i :| 0 <= i < |checks| && checks[i].key == k {
        assert !LacksQuota(rows, checks, now, i);
        assert StoredRow(after, k) == Some(UpsertedRow(rows, checks[i], now));
      } else {
        assert StoredRow(after, k) == StoredRow(rows, k);
      }
    }
  }

  function KeysAt(checks: seq<Check>, order: seq<nat>): (keys: seq<nat>)
    requires forall i | 0 <= i < |order| :: order[i] < |checks|
    ensures |keys| == |order|
  {
    seq(|order|, i requires 0 <= i < |order| && order[i] < |checks| => checks[order[i]].key)
  }

  /** Every input once, in ascending key order: batches lock the counters they
      share in the same relative order. */
  ghost predicate IsLockOrder(checks: seq<Check>, order: seq<nat>) {
    && (forall i | 0 <= i < |order| :: order[i] < |checks|)
    && (forall i | 0 <= i < |checks| :: i in order)
    && StrictlyAscending(KeysAt(checks, order))
  }

  /** Batches that lock their counters in these orders never deadlock: under every
      schedule some transaction can go on until all have finished. */
  lemma {:induction false} BatchesNeverDeadlock(batches: seq<seq<Check>>, orders: seq<seq<nat>>, schedule: seq<nat>,
                                                after: seq<Thread>)
    requires |batches| == |orders| && forall b | 0 <= b < |batches| :: IsLockOrder(batches[b], orders[b])
    requires Reaches(Starting(LockKeys(batches, orders)), schedule, after)
    ensures |after| == |batches| && Coherent(after)
    ensures (exists t | 0 <= t < |after| :: !after[t].finished) ==> exists u | 0 <= u < |after| :: CanStep(after, u)
    ensures |schedule| <= TotalRemaining(Starting(LockKeys(batches, orders)))
  {
    SchedulesComplete(LockKeys(batches, orders), schedule, after);
  }

  function LockKeys(batches: seq<seq<Check>>, orders: seq<seq<nat>>): (keys: seq<seq<nat>>)
    requires |batches| == |orders| && forall b | 0 <= b < |batches| :: IsLockOrder(batches[b], orders[b])
    ensures |keys| == |batches|
    ensures forall b | 0 <= b < |batches| ::
              IsLockOrder(batches[b], orders[b]) && keys[b] == KeysAt(batches[b], orders[b])
  {
    seq(|batches|, b requires 0 <= b < |batches| && IsLockOrder(batches[b], orders[b]) => KeysAt(batches[b], orders[b]))
  }

  predicate OrderedByKey(checks: seq<Check>, order: seq<nat>) {
    && (forall i | 0 <= i < |order| :: order[i] < |checks|)
    && forall i, j | 0 <= i < j < |order| :: checks[order[i]].key < checks[order[j]].key
  }

  method InsertByKey(checks: seq<Check>, order: seq<nat>, n: nat) returns (inserted: seq<nat>)
    requires n < |checks| && OrderedByKey(checks, order)
             && forall i | 0 <= i < |order| :: checks[order[i]].key != checks[n].key
    ensures OrderedByKey(checks, inserted) && |inserted| == |order| + 1
    ensures forall x :: x in inserted <==> x == n || x in order
  {
    var p := 0;
    while p < |order| && checks[order[p]].key < checks[n].key
      invariant p <= |order| && forall i | 0 <= i < p :: checks[order[i]].key < checks[n].key
    {
      p := p + 1;
    }
    forall i | p <= i < |order| ensures checks[n].key < checks[order[i]].key {
      assert checks[order[p]].key <= checks[order[i]].key;
    }
    InsertedAt(checks, order, n, p);
    inserted := order[..p] + [n] + order[p..];
  }

  lemma {:induction false} InsertedAt(checks: seq<Check>, order: seq<nat>, n: nat, p: nat)
    requires n < |checks| && OrderedByKey(checks, order) && p <= |order|
    requires forall i | 0 <= i < p :: checks[order[i]].key < checks[n].key
    requires forall i | p <= i < |order| :: checks[n].key < checks[order[i]].key
    ensures OrderedByKey(checks, order[..p] + [n] + order[p..])
    ensures forall x :: x in order[..p] + [n] + order[p..] <==> x == n || x in order
  {
    InsertedMembers(order, n, p);
    var inserted := order[..p] + [n] + order[p..];
    forall i | 0 <= i < |inserted|
      ensures inserted[i] == if i < p then order[i] else if i == p then n else order[i - 1] {}
    forall i, j | 0 <= i < j < |inserted| ensures checks[inserted[i]].key < checks[inserted[j]].key {
      var a, b := if i < p then i else i - 1, if j < p then j else j - 1;
      if i != p && j != p { assert checks[order[a]].key < checks[order[b]].key; }
    }
  }

  lemma {:induction false} InsertedMembers(order: seq<nat>, n: nat, p: nat)
    requires p <= |order|
    ensures forall x :: x in order[..p] + [n] + order[p..] <==> x == n || x in order
  {
    assert order == order[..p] + order[p..];
  }

  /** Sorts the input positions by counter key; distinct keys make the order strict. */
  method LockOrderOf(checks: seq<Check>) returns (order: seq<nat>)
    requires SoundUpTo(checks, |checks|)
    ensures IsLockOrder(checks, order) && |order| == |checks|
  {
    order := [];
    for n := 0 to |checks|
      invariant |order| == n && OrderedByKey(checks, order) && forall x: nat :: x in order <==> x < n
    {
      assert forall i | 0 <= i < |order| :: order[i] in order;
      order := InsertByKey(checks, order, n);
    }
  }
}

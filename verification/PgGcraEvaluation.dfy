/** How one PostgreSQL GCRA transaction decides its batch from the rows it read. */
module PgGcraEvaluation {
  import opened Basics
  import opened Policies
  import opened Counters

  const SHARDS: nat := 256

  /** The capacity shard of every key, fixed by the storage protocol. */
  type Placement = CounterKey -> nat

  ghost predicate Places(place: Placement) { forall key: CounterKey :: place(key) < SHARDS }

  predicate GcraChecks(checks: seq<Check>) {
    forall i | 0 <= i < |checks| :: ValidCheck(checks[i]) && checks[i].policy.Gcra?
  }

  datatype PendingCharge = PendingCharge(stored: Stored, allowance: Allowance)

  datatype PgAdmission =
    | Accepted(pending: seq<PendingCharge>)
    | Rejected(index: nat, denial: Denial)
    | ShadowRejected(index: nat, quota: QuotaDenial)

  datatype StorageInvariant = ExpiryDisagrees | ArithmeticExceeded

  /** What a transaction read before it decides: the clamped clock, each check's
      row and every shard's row count. */
  datatype Reading = Reading(checks: seq<Check>, rows: seq<Option<Stored>>, now: nat, place: Placement,
                             counts: seq<nat>, maximum: nat) {
    ghost predicate Valid() { GcraChecks(checks) && |rows| == |checks| && |counts| == SHARDS && Places(place) }

    /** The stored expiry is the instant of full replenishment. */
    predicate Sound(i: nat)
      requires GcraChecks(checks) && |rows| == |checks| && i < |checks|
    {
      rows[i].Some? ==> DivCeil(rows[i].value.value, checks[i].policy.quota) == rows[i].value.expiresAt
    }

    function Assess(i: nat): Verdict
      requires GcraChecks(checks) && |rows| == |checks| && i < |checks|
    {
      Judge(checks[i], now, Alive(rows[i], now))
    }

    /** Among the first `n` checks, the admissible ones on shard `s` without a row. */
    function Missing(n: nat, s: nat): nat
      requires GcraChecks(checks) && |rows| == |checks| && n <= |checks|
    {
      if n == 0 then 0
      else
        Missing(n - 1, s) +
        if rows[n - 1].None? && Assess(n - 1).Admit? && place(checks[n - 1].key) == s then 1 else 0
    }

    /** Why the check at index `i` stops the batch, if it does: its quota, or no
        room for its new row after those the checks before it insert. */
    ghost function FailureAt(i: nat): Option<Failure>
      requires Valid() && i < |checks|
    {
      match Assess(i)
      case Overflow => None
      case Refuse(denial) => Some(QuotaFailure(denial))
      case Admit(_, _) =>
        if rows[i].None? && counts[place(checks[i].key)] + Missing(i, place(checks[i].key)) >= maximum
        then Some(StorageFailure(None)) else None
    }

    function Refusal(i: nat, failure: Failure): PgAdmission
      requires i < |checks|
    {
      match failure
      case StorageFailure(retry) => Rejected(i, StorageCapacity(retry))
      case QuotaFailure(denial) =>
        if checks[i].mode == Shadow then ShadowRejected(i, denial) else Rejected(i, QuotaExceeded(denial))
    }

    ghost predicate NoFailureBefore(n: nat)
      requires Valid() && n <= |checks|
    {
      forall i | 0 <= i < n :: FailureAt(i).None?
    }

    ghost predicate Trusted()
      requires Valid()
    {
      forall i | 0 <= i < |checks| :: Sound(i) && !Assess(i).Overflow?
    }

    /** The first failing index in caller order decides; a reading that disagrees
        with itself decides nothing. */
    ghost predicate Answer(r: Result<PgAdmission, StorageInvariant>)
      requires Valid()
    {
      if !Trusted() then r.Err?
      else if NoFailureBefore(|checks|) then
        && r.Ok? && r.value.Accepted? && |r.value.pending| == |checks|
        && forall i | 0 <= i < |checks| :: Assess(i) == Admit(r.value.pending[i].stored, r.value.pending[i].allowance)
      else
        exists i | 0 <= i < |checks| ::
               NoFailureBefore(i) && FailureAt(i).Some? && r == Ok(Refusal(i, FailureAt(i).value))
    }

    /** A reading has one answer. */
    lemma {:induction false} AnswersAgree(a: Result<PgAdmission, StorageInvariant>,
                                          b: Result<PgAdmission, StorageInvariant>)
      requires Valid() && Answer(a) && Answer(b)
      ensures a.Ok? <==> b.Ok?
      ensures a.Ok? ==> a == b
    {
      hide FailureAt, Assess, Sound;
      if a.Ok? && a.value.Accepted? {
        assert a.value.pending == b.value.pending;
      }
    }
  }

  /** The evaluation loop: counts grow with every admissible missing row, and the
      first denial is kept while later rows are still examined. */
  method EvaluateBatch(reading: Reading, counts: array<nat>) returns (r: Result<PgAdmission, StorageInvariant>)
    requires reading.Valid() && counts[..] == reading.counts
    modifies counts
    ensures reading.Answer(r)
  {
    hide Judge, Alive, DivCeil, Reading.FailureAt;
    var checks, rows := reading.checks, reading.rows;
    var pending: seq<PendingCharge> := [];
    var denial: Option<PgAdmission> := None;
    ghost var first := 0;
    for i := 0 to |checks|
      invariant counts.Length == SHARDS
      invariant forall s: nat | s < SHARDS :: counts[s] == reading.counts[s] + reading.Missing(i, s)
      invariant forall j | 0 <= j < i :: reading.Sound(j) && !reading.Assess(j).Overflow?
      invariant if denial.None? then
                  && reading.NoFailureBefore(i) && |pending| == i
                  && forall j | 0 <= j < i :: reading.Assess(j) == Admit(pending[j].stored, pending[j].allowance)
                else
                  && first < i && reading.NoFailureBefore(first) && reading.FailureAt(first).Some?
                  && denial.value == reading.Refusal(first, reading.FailureAt(first).value)
    {
      if rows[i].Some? && DivCeil(rows[i].value.value, checks[i].policy.quota) != rows[i].value.expiresAt {
        assert !reading.Sound(i);
        return Err(ExpiryDisagrees);
      }
      FailureCases(reading, i);
      var active := if rows[i].Some? && rows[i].value.expiresAt > reading.now then rows[i] else None;
      assert active == Alive(rows[i], reading.now) by { AliveFilters(rows[i], reading.now); }
      match Judge(checks[i], reading.now, active) {
        case Overflow =>
          assert reading.Assess(i).Overflow?;
          return Err(ArithmeticExceeded);
        case Refuse(quota) =>
          if denial.None? {
            denial := Some(if checks[i].mode == Shadow then ShadowRejected(i, quota)
                           else Rejected(i, QuotaExceeded(quota)));
            first := i;
          }
        case Admit(stored, allowance) =>
          if rows[i].None? {
            var shard := reading.place(checks[i].key);
            if counts[shard] >= reading.maximum && denial.None? {
              denial := Some(Rejected(i, StorageCapacity(None)));
              first := i;
            }
            counts[shard] := counts[shard] + 1;
          }
          pending := pending + [PendingCharge(stored, allowance)];
      }
    }
    r := Ok(if denial.Some? then denial.value else Accepted(pending));
    assert reading.Trusted();
    assert denial.Some? ==> !reading.NoFailureBefore(|checks|);
  }

  lemma {:induction false} AliveFilters(row: Option<Stored>, now: nat)
    ensures Alive(row, now) == if row.Some? && row.value.expiresAt > now then row else None
  {
  }

  lemma {:induction false} FailureCases(reading: Reading, i: nat)
    requires reading.Valid() && i < |reading.checks|
    ensures var s := reading.place(reading.checks[i].key);
            reading.FailureAt(i) ==
            match reading.Assess(i)
            case Overflow => None
            case Refuse(denial) => Some(QuotaFailure(denial))
            case Admit(_, _) =>
              if reading.rows[i].None? && reading.counts[s] + reading.Missing(i, s) >= reading.maximum
              then Some(StorageFailure(None)) else None
  {
    hide Judge, Alive;
  }
}

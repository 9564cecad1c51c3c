/** When the server clock runs back: a run of the PostgreSQL attempt store for each
    way an answer can then depart from the key's history, and how far back the
    clock may run before it does. */
module PgClockRegress {
  import opened Basics
  import opened AttemptPolicies
  import opened AttemptLedger
  import opened MemoryAttempts
  import opened PgAttempts

  ghost predicate Brief(shard: AttemptShard)
    reads shard
  {
    shard.Valid() && forall k: Key :: shard.policyOf(k) == BRIEF
  }

  /** Key 0 was admitted at time zero and holds the only row. */
  ghost predicate OneLease(shard: AttemptShard)
    reads shard
  {
    && Brief(shard) && shard.latest == 0 && shard.used <= {0} && shard.rows.Keys == {0}
    && shard.HistoryOf(0) == [Attempt(0, 2, Open)] && shard.TokensOf(0) == [0]
    && shard.HistoryOf(1) == [] && shard.TokensOf(1) == []
  }

  method Begin() returns (shard: AttemptShard, receipt: RowReceipt)
    ensures fresh(shard) && OneLease(shard) && receipt == RowReceipt(BRIEF, 0, 0)
  {
    hide AttemptShard.Valid, SweptBut, Earliest, Expired;
    shard := new AttemptShard(_ => BRIEF);
    assert |shard.rows| == 0;
    var r, found := shard.Admit(0, BRIEF, 2, {}, 0, 0, 0);
    assert shard.rows.Keys <= {0} by { assert forall k | k in shard.rows :: k == 0; }
    SmallRows(shard.rows);
    assert r.RowAdmitted?;
    receipt := r.receipt;
  }

  lemma {:induction false} SmallRows(rows: map<Key, Row>)
    requires rows.Keys <= {0} || rows.Keys <= {1}
    ensures |rows| <= 1
  {
    assert |rows| == |rows.Keys|;
    SubsetSize(rows.Keys, if rows.Keys <= {0} then {0} else {1});
  }

  lemma {:induction false} NoMoreThan(before: map<Key, Row>, after: map<Key, Row>)
    ensures after.Keys <= before.Keys ==> |after| <= |before|
  {
    if after.Keys <= before.Keys { SmallerMap(after, before); }
  }

  /** An open lease until two expires, with its quiet period, at three. */
  lemma {:induction false} LeaseExpiry(shard: AttemptShard)
    requires Brief(shard) && shard.HistoryOf(0) == [Attempt(0, 2, Open)] && 0 in shard.rows
    ensures ExpiryOf(shard.rows[0]) == 3
  {
    hide Streak, Delay;
    assert shard.KeyValid(0);
  }

  lemma {:induction false} OnlyOneDue(rows: map<Key, Row>, swept: set<Key>)
    requires rows.Keys == {0} && ExpiryOf(rows[0]) == 3 && Earliest(rows, Expired(rows, {}, 3), swept)
    ensures swept == {0}
  {
    assert Expired(rows, {}, 3) == {0};
    assert |{0}| == 1;
  }

  /** The row of key 0 is gone since the clock read three, while its history still
      ends with the lease that ran out at two. */
  ghost predicate Reclaimed(shard: AttemptShard)
    reads shard
  {
    && Brief(shard) && shard.latest == 3 && shard.used <= {0, 1} && shard.rows.Keys <= {1}
    && shard.HistoryOf(0) == [Attempt(0, 2, Open)] && shard.TokensOf(0) == [0]
  }

  /** Another key's admission at three reclaims the row of key 0. */
  method Reclaim() returns (shard: AttemptShard, receipt: RowReceipt)
    ensures fresh(shard) && Reclaimed(shard) && receipt == RowReceipt(BRIEF, 0, 0)
  {
    hide AttemptShard.Valid, Earliest, Expired, ExpiryOf, Outcomes, Faithful;
    shard, receipt := Begin();
    LeaseExpiry(shard);
    ghost var before := shard.rows;
    var r, found := shard.Admit(1, BRIEF, 2, {}, 3, 3, 1);
    NotWaiting(BRIEF, r, found, 3, shard.HistoryOf(1), shard.TokensOf(1));
    NoMoreThan(before, shard.rows);
    SmallRows(before);
    assert r.RowAdmitted?;
    ghost var swept :| Earliest(before, Expired(before, {}, 3), swept) && shard.rows.Keys == before.Keys - swept + {1};
    OnlyOneDue(before, swept);
  }

  /** A key without a history is never told to wait. */
  lemma {:induction false} NotWaiting(p: AttemptPolicy, r: RowAdmission, found: bool, clock: nat, after: History,
                                      afterTokens: seq<nat>)
    ensures !found && Outcomes(p, 1, [], [], clock, 1, found, r, after, afterTokens) ==>
            r.RowAdmitted? || r.denial.StorageCapacity?
  {
  }

  /** The lease runs to two and the backoff after it to three. */
  lemma {:induction false} WaitsUntilThree(clock: nat)
    requires clock < 3
    ensures Judge(BRIEF, [Attempt(0, 2, Open)], clock) == if clock < 2 then Busy(2 - clock) else Backoff(1)
  {
    assert Streak(BRIEF, [Attempt(0, 2, Open)]) == 1;
    assert Delay(BRIEF, 1) == 1;
  }

  /** Early admission: the clock runs back and the key whose row is gone is
      admitted although its history has it wait: at two for the backoff, before
      that for the lease, so that two attempts of one key are in flight. */
  method EarlyAdmission(shard: AttemptShard, clock: nat) returns (r: RowAdmission)
    requires Reclaimed(shard) && clock < 3
    modifies shard
    ensures clock < old(shard.latest)
    ensures Judge(BRIEF, old(shard.HistoryOf(0)), clock) == if clock < 2 then Busy(2 - clock) else Backoff(1)
    ensures r == RowAdmitted(RowReceipt(BRIEF, 0, 2))
    ensures shard.HistoryOf(0) == [Attempt(clock, clock + 2, Open)] && shard.TokensOf(0) == [2]
  {
    hide AttemptShard.Valid, SweptBut, Earliest, Expired, Judge, Faithful, AsDemanded;
    WaitsUntilThree(clock);
    ghost var before := shard.rows;
    SmallRows(before);
    ghost var found;
    r, found := shard.Admit(0, BRIEF, 2, {}, clock, clock, 2);
    NoMoreThan(before, shard.rows);
  }

  /** Key 0 succeeded at one, and its row says so. */
  ghost predicate SucceededAtOne(shard: AttemptShard)
    reads shard
  {
    && Brief(shard) && shard.latest == 1 && shard.used <= {0} && 0 in shard.rows
    && shard.HistoryOf(0) == [Attempt(0, 1, Succeeded)] && shard.TokensOf(0) == [0]
  }

  method Succeed() returns (shard: AttemptShard)
    ensures fresh(shard) && SucceededAtOne(shard)
  {
    hide AttemptShard.Valid;
    var receipt;
    shard, receipt := Begin();
    assert shard.TokensOf(0)[0] == 0;
    var done := shard.Complete(receipt, Success, 1);
  }

  /** Late backoff: a success at one, then a clock back at zero: the history
      admits, the row makes the caller wait until the success. */
  method LateBackoff(shard: AttemptShard) returns (r: RowAdmission)
    requires SucceededAtOne(shard)
    modifies shard
    ensures 0 < old(shard.latest) && Judge(BRIEF, old(shard.HistoryOf(0)), 0) == AttemptLedger.Verdict.Admit
    ensures r == RowDenied(DeniedBackoff(1)) && shard.HistoryOf(0) == old(shard.HistoryOf(0))
  {
    hide AttemptShard.Valid, SweptBut, Earliest;
    SuccessExpiry(shard);
    ghost var found;
    r, found := shard.Admit(0, BRIEF, 2, {}, 0, 0, 1);
  }

  lemma {:induction false} SuccessExpiry(shard: AttemptShard)
    requires Brief(shard) && shard.HistoryOf(0) == [Attempt(0, 1, Succeeded)] && 0 in shard.rows
    ensures ExpiryOf(shard.rows[0]) == 2
  {
    hide Streak, Delay;
    assert shard.KeyValid(0);
  }

  /** Stale lease: the clock runs back into the lease of the reclaimed row, and its
      completion is refused although the history would apply it. */
  method StaleLease(shard: AttemptShard, receipt: RowReceipt, clock: nat) returns (completion: Completion)
    requires Reclaimed(shard) && receipt == RowReceipt(BRIEF, 0, 0) && clock < 2
    modifies shard
    ensures clock < old(shard.latest)
    ensures AttemptLedger.Complete(BRIEF, old(shard.HistoryOf(0)), 0, Failure, clock).1.Applied?
    ensures completion == Stale && shard.HistoryOf(0) == old(shard.HistoryOf(0))
  {
    hide AttemptShard.Valid;
    AppliesWhileLive(BRIEF, shard.HistoryOf(0), 0, Failure, clock);
    completion := shard.Complete(receipt, Failure, clock);
  }

  /** Whatever history a missing row stands for, an admission at `clock` answers
      as that history demands. */
  ghost predicate MissingRowAnswers(p: AttemptPolicy, latest: nat, clock: nat) {
    forall h: History, tokens: seq<nat> | Stands(p, None, h, tokens, latest) :: Faithful(p, h, clock, false)
  }

  /** The same of every stored row. */
  ghost predicate StoredRowAnswers(p: AttemptPolicy, latest: nat, clock: nat) {
    forall row: Row, h: History, tokens: seq<nat> | Stands(p, Some(row), h, tokens, latest) ::
           Faithful(p, h, clock, true)
  }

  /** No receipt whose row is missing is live. */
  ghost predicate MissingRowIsDead(p: AttemptPolicy, latest: nat, clock: nat) {
    forall h: History, tokens: seq<nat> | Stands(p, None, h, tokens, latest) :: !Live(h, clock)
  }

  /** No failure whose row is missing still counts. */
  ghost predicate MissingRowForgets(p: AttemptPolicy, latest: nat, clock: nat) {
    forall h: History, tokens: seq<nat> | Stands(p, None, h, tokens, latest) :: !Recalled(p, h, clock)
  }

  /** Exactly which clock readings make no answer depart from a history, when the
      latest reading was `latest`. A row goes missing at the earliest one quiet
      period after its last failure, and no delay is longer than the maximum. */
  lemma {:induction false} SafeClocks(p: AttemptPolicy, latest: nat, clock: nat)
    requires ValidAttemptPolicy(p)
    ensures MissingRowAnswers(p, latest, clock) <==> latest < p.quiet || latest + p.maximum <= clock + p.quiet
    ensures StoredRowAnswers(p, latest, clock) <==> latest <= clock
    ensures MissingRowIsDead(p, latest, clock) <==> latest <= clock + p.quiet
    ensures MissingRowForgets(p, latest, clock) <==> latest < p.quiet || latest <= clock
  {
    MissingRowNeedsDelays(p, latest, clock);
    StoredRowNeedsLatest(p, latest, clock);
    hide Streak, Delay;
    if latest >= p.quiet {
      var finish := latest - p.quiet;
      assert Stands(p, None, [Attempt(0, finish, Open)], [0], latest);
      assert MissingRowIsDead(p, latest, clock) ==> !Live([Attempt(0, finish, Open)], clock);
      assert MissingRowForgets(p, latest, clock) ==> !Recalled(p, [Attempt(0, finish, Open)], clock);
    }
  }

  lemma {:induction false} StoredRowNeedsLatest(p: AttemptPolicy, latest: nat, clock: nat)
    ensures StoredRowAnswers(p, latest, clock) <==> latest <= clock
  {
    hide Delay;
    NoFailuresNoDelay(p);
    assert Stands(p, Some(Row(0, 0, latest, latest, p.quiet, None)), [Attempt(latest, latest, Succeeded)], [0], latest);
    assert StoredRowAnswers(p, latest, clock) ==> Faithful(p, [Attempt(latest, latest, Succeeded)], clock, true);
  }

  lemma {:induction false} MissingRowNeedsDelays(p: AttemptPolicy, latest: nat, clock: nat)
    requires ValidAttemptPolicy(p)
    ensures MissingRowAnswers(p, latest, clock) <==> latest < p.quiet || latest + p.maximum <= clock + p.quiet
  {
    hide Streak, Delay;
    forall h: History, tokens: seq<nat> |
        Stands(p, None, h, tokens, latest)
        && (latest < p.quiet || latest + p.maximum <= clock + p.quiet)
      ensures Faithful(p, h, clock, false)
    {
      RecentClockIsFaithful(p, None, h, tokens, latest, clock);
    }
    if latest >= p.quiet {
      var h := Failing(p, latest - p.quiet, p.maximum);
      assert Stands(p, None, h, seq(|h|, i => i), latest);
      assert MissingRowAnswers(p, latest, clock) ==> Faithful(p, h, clock, false);
    }
  }

  /** A delay of `wanted` becomes one of `wanted + 1`, up to the maximum. */
  lemma {:induction false} OneMoreFailure(p: AttemptPolicy, failures: nat, wanted: nat)
    requires ValidAttemptPolicy(p) && wanted < p.maximum
    ensures Delay(p, 1) >= 1
    ensures wanted >= 1 && Delay(p, failures) >= wanted ==> Delay(p, failures + 1) >= wanted + 1
  {
    hide Delay;
    DelayGrows(p, 0, 1);
    NoFailuresNoDelay(p);
    DelayGrows(p, failures, failures + 1);
    if failures >= 1 {
      DelayIsCappedDoubling(p, failures);
      DelayIsCappedDoubling(p, failures + 1);
    }
  }

  /** Failures up to one at `finish`, enough of them for a delay of `wanted`. */
  lemma {:induction false} Failing(p: AttemptPolicy, finish: nat, wanted: nat) returns (h: History)
    requires ValidAttemptPolicy(p) && 1 <= wanted <= p.maximum
    ensures h != [] && Last(h) == Attempt(0, finish, Failed) && Delay(p, Streak(p, h)) >= wanted
  {
    hide Delay;
    OneMoreFailure(p, 0, 0);
    if wanted == 1 {
      h := [Attempt(0, finish, Failed)];
    } else {
      var rest := Failing(p, finish, wanted - 1);
      OneMoreFailure(p, Streak(p, rest), wanted - 1);
      h := rest + [Attempt(0, finish, Failed)];
      assert h[..|rest|] == rest;
    }
  }

  /** The same as a history a store with a steady clock produces: every attempt
      fails at once, and the next comes when its delay is over. */
  lemma {:induction false} FailingLawfully(p: AttemptPolicy, start: nat, wanted: nat) returns (h: History)
    requires ValidAttemptPolicy(p) && 1 <= wanted <= p.maximum
    ensures h != [] && Last(h).ending == Failed && Last(h).finish >= start && Lawful(p, h, Last(h).finish)
    ensures Delay(p, Streak(p, h)) >= wanted
  {
    hide Delay, Streak, Lawful;
    OneMoreFailure(p, 0, 0);
    if wanted == 1 {
      NoAttemptsAreLegal(p);
      LawfulLater(p, [], 0, start);
      h := FailAgain(p, [], start);
    } else {
      var rest := FailingLawfully(p, start, wanted - 1);
      DelayGrows(p, 0, Streak(p, rest));
      if Delay(p, Streak(p, rest)) >= wanted { return rest; }
      OneMoreFailure(p, Streak(p, rest), wanted - 1);
      h := FailAgain(p, rest, Last(rest).finish + Delay(p, Streak(p, rest)));
    }
  }

  /** Admits an attempt at `now` and fails it at once. */
  lemma {:induction false} FailAgain(p: AttemptPolicy, rest: History, now: nat) returns (h: History)
    requires ValidAttemptPolicy(p) && Lawful(p, rest, if rest == [] then now else Last(rest).finish)
    requires rest != [] ==> Last(rest).finish <= now < Last(rest).finish + p.quiet
    requires now >= WaitEnd(p, rest)
    ensures h != [] && Last(h).ending == Failed && Last(h).finish == now && Lawful(p, h, now)
    ensures Streak(p, h) == 1 + if rest == [] then 0 else Streak(p, rest)
  {
    hide Delay, Streak, Lawful;
    LawfulLater(p, rest, if rest == [] then now else Last(rest).finish, now);
    AdmitsAfterWait(p, rest, now);
    AdmissionIsLawful(p, rest, now);
    AdmittedStreak(p, rest, now);
    ClosingIsLawful(p, Admitted(p, rest, now), now, Failure);
    ClosedStreak(p, Admitted(p, rest, now), now, Failure);
    h := Closed(Admitted(p, rest, now), now, Failure);
  }

  /** Clocks that run back no further than `back` admit nothing early, in any state
      that a lawful history leads to. */
  ghost predicate NoEarlyAdmission(p: AttemptPolicy, back: nat) {
    forall h: History, tokens: seq<nat>, latest: nat, clock: nat |
      Stands(p, None, h, tokens, latest) && Lawful(p, h, latest) && latest <= clock + back ::
      Faithful(p, h, clock, false)
  }

  /** The same of receipts: none is refused while its lease is live. */
  ghost predicate NoStaleLease(p: AttemptPolicy, back: nat) {
    forall h: History, tokens: seq<nat>, latest: nat, clock: nat |
      Stands(p, None, h, tokens, latest) && Lawful(p, h, latest) && latest <= clock + back :: !Live(h, clock)
  }

  /** How far a clock may run back: to admit nothing early, by what the quiet period
      is longer than the maximum delay; to refuse no live receipt, by the quiet
      period. */
  lemma {:induction false} SafeRegress(p: AttemptPolicy, back: nat)
    requires ValidAttemptPolicy(p)
    ensures NoEarlyAdmission(p, back) <==> back + p.maximum <= p.quiet
    ensures NoStaleLease(p, back) <==> back <= p.quiet
  {
    hide Delay, Streak, Lawful;
    NoEarlyAdmissionWithin(p, back);
    var h := FailingLawfully(p, back, p.maximum);
    var latest := Last(h).finish + p.quiet;
    assert Stands(p, None, h, seq(|h|, i => i), latest);
    LawfulLater(p, h, Last(h).finish, latest);
    assert NoEarlyAdmission(p, back) ==> Faithful(p, h, latest - back, false);
    if back > p.quiet {
      var finish := back - p.quiet;
      OneLeaseIsLawful(p, finish, back);
      var lease := [Attempt(if finish < p.lease then 0 else finish - p.lease, finish, Open)];
      assert Stands(p, None, lease, [0], back);
      assert NoStaleLease(p, back) ==> !Live(lease, 0);
    }
  }

  lemma {:induction false} NoEarlyAdmissionWithin(p: AttemptPolicy, back: nat)
    requires ValidAttemptPolicy(p)
    ensures back + p.maximum <= p.quiet ==> NoEarlyAdmission(p, back)
  {
    hide Lawful;
    forall h: History, tokens: seq<nat>, latest: nat, clock: nat |
        Stands(p, None, h, tokens, latest) && latest <= clock + back && back + p.maximum <= p.quiet
      ensures Faithful(p, h, clock, false)
    {
      RecentClockIsFaithful(p, None, h, tokens, latest, clock);
    }
  }

  lemma {:induction false} OneLeaseIsLawful(p: AttemptPolicy, finish: nat, now: nat)
    requires finish <= now
    ensures Lawful(p, [Attempt(if finish < p.lease then 0 else finish - p.lease, finish, Open)], now)
  {
  }
}

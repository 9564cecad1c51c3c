/** A caller who was told to wait and comes back: on both attempt stores the delays
    that denials report are exact. */
module AttemptRetries {
  import opened Basics
  import opened AttemptPolicies
  import opened AttemptLedger
  import opened MemoryAttempts
  import opened PgAttempts
  import opened AttemptSimulation

  /** Two admissions of one key on the process-local store, with nothing between:
      told to wait, the caller is told the rest of that wait until it is over, and
      not again after a backoff. */
  method RetryMemory(limiter: MemoryAttemptLimiter, key: Key, policy: AttemptPolicy, clock: nat, later: nat)
    returns (first: Result<Admission, AttemptError>, second: Result<Admission, AttemptError>)
    requires limiter.Valid() && policy == limiter.policyOf(key) && limiter.now <= clock <= later
    modifies limiter
    ensures limiter.Valid()
    ensures match first
            case Ok(Denial(DeniedBackoff(d))) =>
              d > 0 && if later < clock + d then second == Ok(Denial(DeniedBackoff(clock + d - later)))
                       else second.Ok? && second.value.Denial? ==> second.value.denial.StorageCapacity?
            case Ok(Denial(DeniedBusy(d))) =>
              d > 0 && if later < clock + d then second == Ok(Denial(DeniedBusy(clock + d - later)))
                       else second.Ok? && second.value.Denial? ==> !second.value.denial.DeniedBusy?
            case Ok(Admission(_)) =>
              if later < clock + policy.lease then second == Ok(Denial(DeniedBusy(clock + policy.lease - later)))
              else second.Ok? && second.value.Denial? ==> !second.value.denial.DeniedBusy?
            case _ => second.Ok? && second.value.Denial? ==> second.value.denial.StorageCapacity?
  {
    hide Judge, Live, Admitted, SweptAround, MemoryAttemptLimiter.Valid;
    ghost var h := limiter.HistoryOf(key);
    first := limiter.Admit(key, policy, clock);
    AnswersFollow(policy, h, clock, later);
    second := limiter.Admit(key, policy, later);
  }

  /** What an untouched history, or one just admitted, answers later. */
  lemma {:induction false} AnswersFollow(p: AttemptPolicy, h: History, now: nat, later: nat)
    requires now <= later
    ensures match Judge(p, h, now)
            case Admit =>
              && Judge(p, h, later) == AttemptLedger.Verdict.Admit
              && if later < now + p.lease then Judge(p, Admitted(p, h, now), later) == Busy(now + p.lease - later)
                 else !Judge(p, Admitted(p, h, now), later).Busy?
            case Backoff(d) =>
              d > 0 && Judge(p, h, later) == if later < now + d then Backoff(now + d - later)
                                             else AttemptLedger.Verdict.Admit
            case Busy(d) =>
              d > 0 && if later < now + d then Judge(p, h, later) == Busy(now + d - later)
              else !Judge(p, h, later).Busy?
  {
    hide Judge, Live, Admitted;
    DelaysAreExact(p, h, now, later);
    AdmissionOpensLease(p, h, now, later);
    BusyWhileLive(p, h, later);
    BusyWhileLive(p, Admitted(p, h, now), later);
  }

  /** The same of two transactions on the PostgreSQL store, on a clock that does not
      run back. */
  method RetryRows(shard: AttemptShard, key: Key, policy: AttemptPolicy, choice: Choice, clock: nat, token: nat,
                   next: Choice, later: nat, nextToken: nat)
    returns (first: RowAdmission, second: RowAdmission)
    requires shard.Valid() && policy == shard.policyOf(key)
    requires shard.latest <= choice.cleanedAt <= clock <= next.cleanedAt <= later
    requires token !in shard.used && nextToken !in shard.used && token != nextToken
    modifies shard
    ensures shard.Valid()
    ensures match first
            case RowDenied(DeniedBackoff(d)) =>
              d > 0 && if later < clock + d then second == RowDenied(DeniedBackoff(clock + d - later))
                       else second.RowDenied? ==> second.denial.StorageCapacity?
            case RowDenied(DeniedBusy(d)) =>
              d > 0 && if later < clock + d then second == RowDenied(DeniedBusy(clock + d - later))
                       else second.RowDenied? ==> !second.denial.DeniedBusy?
            case RowAdmitted(_) =>
              if later < clock + policy.lease then second == RowDenied(DeniedBusy(clock + policy.lease - later))
              else second.RowDenied? ==> !second.denial.DeniedBusy?
            case RowDenied(StorageCapacity) => second.RowDenied? ==> second.denial.StorageCapacity?
  {
    hide Judge, Live, Admitted, AttemptShard.Valid;
    ghost var h := shard.HistoryOf(key);
    first := AskRows(shard, key, policy, choice, clock, token);
    AnswersFollow(policy, h, clock, later);
    second := AskRows(shard, key, policy, next, later, nextToken);
  }

  /** A completion and an admission after it: the completion's own delay is the one
      the next admission waits for, and a success leaves none. */
  method AskAfterMemory(limiter: MemoryAttemptLimiter, receipt: Receipt, policy: AttemptPolicy, outcome: Outcome,
                        clock: nat, later: nat)
    returns (completion: Completion, answer: Result<Admission, AttemptError>)
    requires limiter.Valid() && policy == limiter.policyOf(receipt.key) && limiter.now <= clock <= later
    modifies limiter
    ensures limiter.Valid()
    ensures match completion
            case Applied(reported, failures, d) =>
              && reported == outcome && (outcome == Success <==> failures == 0) && (outcome == Success <==> d == 0)
              && if later < clock + d then answer == Ok(Denial(DeniedBackoff(clock + d - later)))
                 else answer.Ok? && answer.value.Denial? ==> answer.value.denial.StorageCapacity?
            case Stale => true
  {
    hide Judge, Live, Admitted, SweptAround, MemoryAttemptLimiter.Valid, AttemptLedger.Complete;
    ghost var h := limiter.HistoryOf(receipt.key);
    CompletionLasts(policy, h, outcome, clock, later);
    KeyHasPolicy(limiter, receipt.key);
    completion := limiter.Complete(receipt, outcome, clock);
    answer := limiter.Admit(receipt.key, policy, later);
  }

  lemma {:induction false} KeyHasPolicy(limiter: MemoryAttemptLimiter, key: Key)
    requires limiter.Valid()
    ensures ValidAttemptPolicy(limiter.policyOf(key)) && |limiter.IssuedTo(key)| == |limiter.HistoryOf(key)|
  {
    hide Streak, Delay, Numbered, Lawful;
    assert limiter.KeyValid(key);
  }

  /** What a history answers once its last attempt was completed. */
  lemma {:induction false} CompletionLasts(p: AttemptPolicy, h: History, outcome: Outcome, now: nat, later: nat)
    requires now <= later
    ensures ValidAttemptPolicy(p) ==>
              forall index: nat | index < |h| ::
                var (after, completion) := AttemptLedger.Complete(p, h, index, outcome, now);
                completion.Applied? ==>
                  && completion.outcome == outcome
                  && (outcome == Success <==> completion.failures == 0)
                  && (outcome == Success <==> completion.retryAfter == 0)
                  && Judge(p, after, later) == if later < now + completion.retryAfter
                                               then Backoff(now + completion.retryAfter - later)
                                               else AttemptLedger.Verdict.Admit
  {
    hide Delay, Streak, Judge, AttemptLedger.Complete;
    if ValidAttemptPolicy(p) {
      forall index: nat | index < |h|
        ensures var (after, completion) := AttemptLedger.Complete(p, h, index, outcome, now);
                completion.Applied? ==>
                  && completion.outcome == outcome
                  && (outcome == Success <==> completion.failures == 0)
                  && (outcome == Success <==> completion.retryAfter == 0)
                  && Judge(p, after, later) == if later < now + completion.retryAfter
                                               then Backoff(now + completion.retryAfter - later)
                                               else AttemptLedger.Verdict.Admit
      {
        CompletionIsExact(p, h, index, outcome, now, later);
        SuccessHasNoStreak(p, h);
        DelayGrows(p, 0, Streak(p, h));
      }
    }
  }

  /** The same on the PostgreSQL store. */
  method AskAfterRows(shard: AttemptShard, receipt: RowReceipt, outcome: Outcome, clock: nat, choice: Choice,
                      later: nat, token: nat)
    returns (completion: Completion, answer: RowAdmission)
    requires shard.Valid() && receipt.policy == shard.policyOf(receipt.key)
    requires shard.latest <= clock <= choice.cleanedAt <= later && token !in shard.used
    modifies shard
    ensures shard.Valid()
    ensures match completion
            case Applied(reported, failures, d) =>
              && reported == outcome && (outcome == Success <==> failures == 0) && (outcome == Success <==> d == 0)
              && if later < clock + d then answer == RowDenied(DeniedBackoff(clock + d - later))
                 else answer.RowDenied? ==> answer.denial.StorageCapacity?
            case Stale => true
  {
    hide Judge, Live, Admitted, Stands, AttemptShard.Valid, AttemptLedger.Complete;
    ghost var h := shard.HistoryOf(receipt.key);
    CompletionLasts(receipt.policy, h, outcome, clock, later);
    shard.KeyStands(receipt.key);
    TokensCount(receipt.policy, shard.RowOf(receipt.key), h, shard.TokensOf(receipt.key), shard.latest);
    completion := shard.Complete(receipt, outcome, clock);
    answer := AskRows(shard, receipt.key, receipt.policy, choice, later, token);
  }

  lemma {:induction false} TokensCount(p: AttemptPolicy, row: Option<Row>, h: History, tokens: seq<nat>, latest: nat)
    requires Stands(p, row, h, tokens, latest)
    ensures |tokens| == |h|
  {
    hide Streak, Delay;
  }
}

/** The eager specification of outcome-aware attempts: for one key, everything
    is computed from the whole history of its admitted attempts. */
module AttemptLedger {
  import opened Basics
  import opened AttemptPolicies

  datatype Ending = Open | Failed | Succeeded

  /** An admitted attempt. While open, `finish` is the deadline of its lease, at
      which it counts as a failure. */
  datatype Attempt = Attempt(start: nat, finish: nat, ending: Ending)

  type History = seq<Attempt>

  datatype Outcome = Success | Failure | Abandoned

  datatype Verdict = Admit | Busy(retryAfter: nat) | Backoff(retryAfter: nat)

  datatype Completion = Applied(outcome: Outcome, failures: nat, retryAfter: nat) | Stale

  function Last(h: History): Attempt
    requires h != []
  {
    h[|h| - 1]
  }

  /** Consecutive failures ending with the last attempt: a success, or a quiet
      gap before an attempt, cuts everything earlier off. */
  function Streak(p: AttemptPolicy, h: History): nat {
    if h == [] || Last(h).ending == Succeeded then 0
    else
      var rest := h[..|h| - 1];
      1 + if rest != [] && Last(h).start < Last(rest).finish + p.quiet then Streak(p, rest) else 0
  }

  predicate Live(h: History, now: nat) {
    h != [] && Last(h).ending == Open && now < Last(h).finish
  }

  /** When the wait a history demands is over. */
  function WaitEnd(p: AttemptPolicy, h: History): nat {
    if h == [] || Last(h).ending == Succeeded then 0 else Last(h).finish + Delay(p, Streak(p, h))
  }

  /** What an admission at `now` must be told. */
  function Judge(p: AttemptPolicy, h: History, now: nat): Verdict {
    if h == [] || Last(h).ending == Succeeded then Admit
    else if Live(h, now) then Busy(Last(h).finish - now)
    else
      var retryAt := Last(h).finish + Delay(p, Streak(p, h));
      if now < retryAt then Backoff(retryAt - now) else Admit
  }

  /** An admission needs nothing but the wait to be over. */
  lemma {:induction false} AdmitsAfterWait(p: AttemptPolicy, h: History, now: nat)
    ensures Judge(p, h, now) == Admit <==> now >= WaitEnd(p, h)
    ensures Judge(p, h, now) == Admit <==>
            h == [] || Last(h).ending == Succeeded || now >= Last(h).finish + Delay(p, Streak(p, h))
  {
    hide Delay, Streak;
  }

  /** Reported delays are exact: while nobody touches the history, a caller told to
      back off is admitted from the end of the delay on and not before, and one told
      that the key is busy finds the attempt live until then and no longer. */
  lemma {:induction false} DelaysAreExact(p: AttemptPolicy, h: History, now: nat, later: nat)
    requires now <= later
    ensures match Judge(p, h, now)
            case Admit => Judge(p, h, later) == Admit
            case Backoff(d) =>
              && d > 0 && !Live(h, later)
              && (Judge(p, h, later) == Admit <==> later >= now + d)
              && (later < now + d ==> Judge(p, h, later) == Backoff(now + d - later))
            case Busy(d) =>
              && d > 0 && h != [] && Last(h).ending == Open && Last(h).finish == now + d
              && (Live(h, later) <==> later < now + d)
              && (later < now + d ==> Judge(p, h, later) == Busy(now + d - later))
  {
    hide Delay, Streak;
  }

  function Admitted(p: AttemptPolicy, h: History, now: nat): History {
    h + [Attempt(now, now + p.lease, Open)]
  }

  function Closed(h: History, now: nat, outcome: Outcome): History
    requires h != []
  {
    h[..|h| - 1] + [Last(h).(finish := now, ending := if outcome == Success then Succeeded else Failed)]
  }

  /** Completing the `index`-th attempt of the key: it applies only to the live
      last one, and reports the streak its failure makes. */
  function Complete(p: AttemptPolicy, h: History, index: nat, outcome: Outcome, now: nat): (History, Completion) {
    if Live(h, now) && index == |h| - 1 then
      var after := Closed(h, now, outcome);
      (after, Applied(outcome, Min(Streak(p, after), U32_MAX), Delay(p, Streak(p, after))))
    else (h, Stale)
  }

  /** An admission opens a lease of the policy's length, and the key is busy for
      exactly that long unless the attempt is completed. */
  lemma {:induction false} AdmissionOpensLease(p: AttemptPolicy, h: History, now: nat, later: nat)
    requires now <= later
    ensures Admitted(p, h, now) == h + [Attempt(now, now + p.lease, Open)]
    ensures later < now + p.lease ==> Judge(p, Admitted(p, h, now), later) == Busy(now + p.lease - later)
    ensures later >= now + p.lease ==> !Live(Admitted(p, h, now), later)
  {
    hide Delay, Streak;
  }

  /** A completion is applied exactly to the last attempt while its lease is live;
      it ends that attempt now, reports the failures it makes, and the delay it
      reports is the one the next admission waits for. */
  lemma {:induction false} CompletionIsExact(p: AttemptPolicy, h: History, index: nat, outcome: Outcome, now: nat,
                                             later: nat)
    requires now <= later
    ensures var (after, completion) := Complete(p, h, index, outcome, now);
            if h != [] && index == |h| - 1 && Last(h).ending == Open && now < Last(h).finish then
              && completion.Applied? && completion.outcome == outcome
              && after == h[..|h| - 1] + [Attempt(Last(h).start, now, if outcome == Success then Succeeded else Failed)]
              && completion.failures == (if outcome == Success then 0 else Min(Streak(p, h), 0xFFFF_FFFF))
              && completion.retryAfter == (if outcome == Success then 0 else Delay(p, Streak(p, h)))
              && Judge(p, after, later) == if later < now + completion.retryAfter
                                           then Backoff(now + completion.retryAfter - later) else Admit
            else completion == Stale && after == h
  {
    hide Delay, Streak;
    NoFailuresNoDelay(p);
    if h != [] && index == |h| - 1 && Last(h).ending == Open && now < Last(h).finish {
      ClosedStreak(p, h, now, outcome);
    }
  }

  /** The history applies a receipt exactly while its attempt is the live last one. */
  lemma {:induction false} AppliesWhileLive(p: AttemptPolicy, h: History, index: nat, outcome: Outcome, now: nat)
    ensures Complete(p, h, index, outcome, now).1.Applied? <==> Live(h, now) && index == |h| - 1
    ensures Complete(p, h, index, outcome, now).1 == Stale ==> Complete(p, h, index, outcome, now).0 == h
  {
    hide Streak, Delay, Closed;
  }

  /** `n` consecutive failures end the history: all of the last `n` attempts
      failed, with no quiet gap among them. */
  predicate FailuresAtEnd(p: AttemptPolicy, h: History, n: nat) {
    && n <= |h|
    && (forall i | |h| - n <= i < |h| :: h[i].ending != Succeeded)
    && (forall i | |h| - n < i < |h| :: h[i].start < h[i - 1].finish + p.quiet)
  }

  /** The streak is the largest such `n`. */
  lemma {:induction false} StreakIsLargest(p: AttemptPolicy, h: History, n: nat)
    ensures FailuresAtEnd(p, h, Streak(p, h))
    ensures FailuresAtEnd(p, h, n) ==> n <= Streak(p, h)
  {
    if h != [] && Last(h).ending != Succeeded {
      var rest := h[..|h| - 1];
      if rest != [] && Last(h).start < Last(rest).finish + p.quiet {
        StreakIsLargest(p, rest, if n > 0 then n - 1 else 0);
        assert forall i | 0 <= i < |rest| :: rest[i] == h[i];
      }
    }
  }

  /** Closing keeps the earlier part of the streak: a failure reports one more
      than the streak the attempt was admitted after, a success reports none. */
  lemma {:induction false} ClosedStreak(p: AttemptPolicy, h: History, now: nat, outcome: Outcome)
    requires h != [] && Last(h).ending == Open
    ensures Streak(p, Closed(h, now, outcome)) == if outcome == Success then 0 else Streak(p, h)
  {
    assert Closed(h, now, outcome)[..|h| - 1] == h[..|h| - 1];
  }

  lemma {:induction false} AdmittedStreak(p: AttemptPolicy, h: History, now: nat)
    ensures Streak(p, Admitted(p, h, now)) ==
            1 + if h != [] && now < Last(h).finish + p.quiet then Streak(p, h) else 0
  {
    assert Admitted(p, h, now)[..|h|] == h;
  }

  /** A history the ledger itself produced: one attempt at a time, none before
      the delay its predecessor's streak demands. */
  predicate Legal(p: AttemptPolicy, h: History) {
    && (forall i | 0 <= i < |h| :: h[i].start <= h[i].finish <= h[i].start + p.lease)
    && (forall i | 0 < i < |h| :: h[i - 1].finish <= h[i].start)
    && forall i | 0 < i < |h| && h[i - 1].ending != Succeeded ::
         h[i].start >= h[i - 1].finish + Delay(p, Streak(p, h[..i]))
  }

  /** A legal history as of `now`: nothing in it has yet to happen. */
  predicate Lawful(p: AttemptPolicy, h: History, now: nat) {
    && Legal(p, h)
    && (h != [] ==> Last(h).start <= now)
    && (h != [] && Last(h).ending != Open ==> Last(h).finish <= now)
  }

  lemma {:induction false} LawfulLater(p: AttemptPolicy, h: History, now: nat, later: nat)
    requires Lawful(p, h, now) && now <= later
    ensures Lawful(p, h, later)
  {
    hide Legal;
  }

  lemma {:induction false} AdmissionIsLawful(p: AttemptPolicy, h: History, now: nat)
    requires Lawful(p, h, now) && Judge(p, h, now) == Admit
    ensures Lawful(p, Admitted(p, h, now), now)
  {
    hide Legal, Judge;
    AdmissionIsLegal(p, h, now);
  }

  lemma {:induction false} ClosingIsLawful(p: AttemptPolicy, h: History, now: nat, outcome: Outcome)
    requires Lawful(p, h, now) && Live(h, now)
    ensures Lawful(p, Closed(h, now, outcome), now)
  {
    hide Legal, Streak, Delay;
    CompletionIsLegal(p, h, |h| - 1, outcome, now);
  }

  lemma {:induction false} AdmissionIsLegal(p: AttemptPolicy, h: History, now: nat)
    requires Legal(p, h) && Judge(p, h, now) == Admit && (h != [] && Last(h).ending != Open ==> Last(h).finish <= now)
    ensures Legal(p, Admitted(p, h, now))
  {
    hide Streak, Delay;
    var after := Admitted(p, h, now);
    forall i | 0 < i < |after| && after[i - 1].ending != Succeeded
      ensures after[i].start >= after[i - 1].finish + Delay(p, Streak(p, after[..i]))
    {
      assert after[..i] == h[..i];
      if i == |h| { assert h[..i] == h; }
    }
  }

  lemma {:induction false} CompletionIsLegal(p: AttemptPolicy, h: History, index: nat, outcome: Outcome, now: nat)
    requires Legal(p, h) && (h != [] ==> Last(h).start <= now)
    ensures Legal(p, Complete(p, h, index, outcome, now).0)
  {
    if Live(h, now) && index == |h| - 1 {
      var after := Closed(h, now, outcome);
      assert forall i | 0 <= i < |h| :: after[..i] == h[..i];
    }
  }

  datatype Op = Arrive(now: nat) | Finish(index: nat, outcome: Outcome, now: nat)

  datatype Answer = Asked(verdict: Verdict) | Finished(completion: Completion)

  function Step(p: AttemptPolicy, h: History, op: Op): (History, Answer) {
    match op
    case Arrive(now) =>
      var verdict := Judge(p, h, now);
      (if verdict == Admit then Admitted(p, h, now) else h, Asked(verdict))
    case Finish(index, outcome, now) =>
      var (after, completion) := Complete(p, h, index, outcome, now);
      (after, Finished(completion))
  }

  function Run(p: AttemptPolicy, ops: seq<Op>): History {
    if ops == [] then [] else Step(p, Run(p, ops[..|ops| - 1]), ops[|ops| - 1]).0
  }

  /** Clocks never run backwards (each store clamps its own). */
  predicate Forward(ops: seq<Op>) { forall i, j | 0 <= i < j < |ops| :: ops[i].now <= ops[j].now }

  /** Over every run the history stays legal: so no attempt is admitted before
      `Delay(n)` after the n-th consecutive failure. */
  lemma {:induction false} RunsAreLegal(p: AttemptPolicy, ops: seq<Op>)
    requires Forward(ops)
    ensures Lawful(p, Run(p, ops), if ops == [] then 0 else ops[|ops| - 1].now)
  {
    hide Streak, Delay, Judge, Lawful, Legal;
    if ops == [] {
      NoAttemptsAreLegal(p);
    } else {
      var rest, op := ops[..|ops| - 1], ops[|ops| - 1];
      RunsAreLegal(p, rest);
      var h := Run(p, rest);
      match op
      case Arrive(now) =>
        LawfulLater(p, h, if rest == [] then 0 else rest[|rest| - 1].now, now);
        if Judge(p, h, now) == Admit { AdmissionIsLawful(p, h, now); }
      case Finish(index, outcome, now) =>
        LawfulLater(p, h, if rest == [] then 0 else rest[|rest| - 1].now, now);
        if Live(h, now) && index == |h| - 1 { ClosingIsLawful(p, h, now, outcome); }
    }
  }

  lemma {:induction false} NoAttemptsAreLegal(p: AttemptPolicy)
    ensures Lawful(p, [], 0)
  {
  }

  /** An attempt that has been completed, or superseded by a later one. */
  predicate Dead(h: History, index: nat) {
    index < |h| && (index < |h| - 1 || Last(h).ending != Open)
  }

  /** Once completed or superseded, an attempt's receipt is stale for ever, and
      presenting it changes nothing. */
  lemma {:induction false} DeadReceiptsStayDead(p: AttemptPolicy, before: seq<Op>, more: seq<Op>, index: nat,
                                                outcome: Outcome, now: nat)
    requires Dead(Run(p, before), index)
    ensures Dead(Run(p, before + more), index)
    ensures Complete(p, Run(p, before + more), index, outcome, now) == (Run(p, before + more), Stale)
  {
    if more == [] {
      assert before + more == before;
    } else {
      var rest := more[..|more| - 1];
      DeadReceiptsStayDead(p, before, rest, index, outcome, now);
      assert (before + more)[..|before + more| - 1] == before + rest;
    }
  }

  predicate AppliedAt(p: AttemptPolicy, ops: seq<Op>, i: nat, index: nat)
    requires i < |ops|
  {
    ops[i].Finish? && ops[i].index == index && Step(p, Run(p, ops[..i]), ops[i]).1.completion.Applied?
  }

  /** In every run a receipt is applied at most once. */
  lemma {:induction false} AppliedAtMostOnce(p: AttemptPolicy, ops: seq<Op>, i: nat, j: nat, index: nat)
    requires i < j < |ops| && AppliedAt(p, ops, i, index)
    ensures !AppliedAt(p, ops, j, index)
  {
    assert ops[..i + 1][..i] == ops[..i] && ops[..i + 1][i] == ops[i];
    assert Dead(Run(p, ops[..i + 1]), index);
    if ops[j].Finish? {
      assert ops[..j] == ops[..i + 1] + ops[i + 1..j];
      DeadReceiptsStayDead(p, ops[..i + 1], ops[i + 1..j], index, ops[j].outcome, ops[j].now);
    }
  }
}

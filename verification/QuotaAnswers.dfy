/** What the memory stores answer, spelled out from the counters alone: which mode a
    refusal takes, who is refused for storage, and what a fixed window grants. */
module QuotaAnswers {
  import opened Basics
  import opened Policies
  import opened Batches
  import opened GcraHistory
  import opened Counters
  import opened StoreTheorems
  import opened StoreRuns
  import opened WindowRuns
  import opened GcraRuns

  /** One check on one shard, given its verdict: an enforced refusal is a denial, a
      shadow refusal only says so, and storage is refused in both modes, exactly when
      the counters still active fill the shard, until the first of them expires. */
  lemma {:induction false} ShardAnswer(c: Counters, check: Check, verdict: Verdict, now: nat)
    ensures var (after, answer) := Settle(c, check, verdict, now);
            var alive := set k | k in c.active && c.active[k].expiresAt > now;
            && (!verdict.Overflow? ==>
                  && after.latest == now && after.capacity == c.capacity
                  && (forall k | k in alive && k != check.key :: k in after.active && after.active[k] == c.active[k])
                  && (forall k | k in after.active && k != check.key :: k in alive))
            && match verdict
               case Overflow => answer.Err? && after == c
               case Refuse(d) =>
                 && answer == Ok(if check.mode == Enforce then Denied(QuotaExceeded(d)) else ShadowDenied(d))
                 && (check.key in after.active <==> check.key in alive)
               case Admit(stored, allowance) =>
                 if check.key !in alive && |alive| >= c.capacity then
                   && answer.Ok? && answer.value.Denied? && answer.value.denial.StorageCapacity?
                   && check.key !in after.active
                   && match answer.value.denial.retryAfter
                      case None => alive == {}
                      case Some(d) =>
                        && (exists k | k in alive :: c.active[k].expiresAt == now + d)
                        && forall k | k in alive :: c.active[k].expiresAt >= now + d
                 else
                   && answer == Ok(Allowed(allowance)) && check.key in after.active && after.active[check.key] == stored
  {
    var alive := set k | k in c.active && c.active[k].expiresAt > now;
    var active := Active(c.active, now);
    assert active.Keys == alive && |active| == |alive|;
  }

  /** The same on the store: only the shard of the key's hash answers and changes. */
  lemma {:induction false} SingleAnswer(store: Store, hash: Router, check: Check, observed: nat)
    requires |store| > 0 && ValidCheck(check)
    ensures var (after, answer) := CheckIn(store, hash, check, observed);
            var s: nat := hash(check.key) % |store|;
            var now := if observed >= store[s].latest then observed else store[s].latest;
            var entries := store[s].active;
            var active := if check.key in entries && entries[check.key].expiresAt > now then Some(entries[check.key])
                          else None;
            && |after| == |store| && (forall u | 0 <= u < |store| && u != s :: after[u] == store[u])
            && (after[s], answer) == Settle(store[s], check, Judge(check, now, active), now)
  {
    hide Judge, Settle;
  }

  /** A batch: an enforced member's quota refusal denies the batch, a shadow member's
      only says so, storage denies in both modes; what is allowed is what every
      verdict grants. */
  lemma {:induction false} BatchAnswer(store: Store, hash: Router, maximum: nat, checks: seq<Check>, observed: nat,
                                       after: Store, decision: BatchDecision)
    requires |store| > 0 && AllValid(checks)
    requires CheckMany(store, hash, maximum, checks, observed, after, Ok(decision))
    ensures var now := BatchNow(store, hash, checks, |checks|, observed);
            match decision
            case AllAllowed(allowances) =>
              && |allowances| == |checks|
              && forall i | 0 <= i < |checks| ::
                   var verdict := VerdictAt(store, hash, checks[i], now);
                   verdict.Admit? && verdict.allowance == allowances[i]
            case BatchDenied(i, size, QuotaExceeded(d)) =>
              && i < |checks| == size && checks[i].mode == Enforce
                 && VerdictAt(store, hash, checks[i], now) == Refuse(d)
              && forall j | 0 <= j < i :: VerdictAt(store, hash, checks[j], now).Admit?
            case BatchShadowDenied(i, size, d) =>
              && i < |checks| == size && checks[i].mode == Shadow && VerdictAt(store, hash, checks[i], now) == Refuse(d)
              && forall j | 0 <= j < i :: VerdictAt(store, hash, checks[j], now).Admit?
            case BatchDenied(i, size, StorageCapacity(_)) =>
              && i < |checks| == size
              && forall j | 0 <= j <= i :: VerdictAt(store, hash, checks[j], now).Admit?
  {
    hide Judge, Round.Outcome, Round.NoOverflow, ShardOf, AdvanceTouched, BatchNow;
    var r := NewRound(store, hash, checks, observed);
    forall i | 0 <= i < |checks| ensures r.verdicts[i] == VerdictAt(store, hash, checks[i], r.now) {
      VerdictSpelled(store, hash, checks[i], r.now);
    }
    RoundAnswer(r, after, decision);
  }

  lemma {:induction false} RoundAnswer(r: Round, after: Store, decision: BatchDecision)
    requires r.Valid() && r.NoOverflow() && r.Outcome(after, decision)
    ensures match decision
            case AllAllowed(allowances) =>
              && |allowances| == |r.checks|
              && forall i | 0 <= i < |r.checks| :: r.verdicts[i].Admit? && r.verdicts[i].allowance == allowances[i]
            case BatchDenied(i, size, QuotaExceeded(d)) =>
              && i < |r.checks| == size && r.checks[i].mode == Enforce && r.verdicts[i] == Refuse(d)
              && forall j | 0 <= j < i :: r.verdicts[j].Admit?
            case BatchShadowDenied(i, size, d) =>
              && i < |r.checks| == size && r.checks[i].mode == Shadow && r.verdicts[i] == Refuse(d)
              && forall j | 0 <= j < i :: r.verdicts[j].Admit?
            case BatchDenied(i, size, StorageCapacity(_)) =>
              i < |r.checks| == size && forall j | 0 <= j <= i :: r.verdicts[j].Admit?
  {
    hide Round.FailureAt, Round.Charged;
    if !decision.AllAllowed? {
      var i :| 0 <= i < |r.checks| && r.NoFailureBefore(i) && r.FailureAt(i).Some?
          && decision == r.FailureDecision(i, r.FailureAt(i).value);
      NoFailureAdmits(r, i);
      FailureKind(r, i);
    }
  }

  /** The quota verdict of a check against the counter of its key, if still active. */
  function VerdictAt(store: Store, hash: Router, check: Check, now: nat): Verdict
    requires |store| > 0 && ValidCheck(check)
  {
    var entries := store[hash(check.key) % |store|].active;
    Judge(check, now, if check.key in entries && entries[check.key].expiresAt > now then Some(entries[check.key])
          else None)
  }

  lemma {:induction false} VerdictSpelled(store: Store, hash: Router, check: Check, now: nat)
    requires |store| > 0 && ValidCheck(check)
    ensures VerdictAt(store, hash, check, now) ==
            Judge(check, now, Alive(Lookup(store[ShardOf(hash, |store|, check.key)].active, check.key), now))
  {
    hide Judge;
  }

  /** In every step an enforced check is never only shadow-denied, and a shadow check
      is never denied for its quota. */
  lemma {:induction false} StepRespectsModes(hash: Router, maximum: nat, store: Store, op: Op, after: Store,
                                             answer: Answer)
    requires |store| > 0 && Step(hash, maximum, store, op, after, answer)
    ensures match answer
            case Single(Ok(ShadowDenied(_))) => op.One? && op.check.mode == Shadow
            case Single(Ok(Denied(QuotaExceeded(_)))) => op.One? && op.check.mode == Enforce
            case Batch(Ok(BatchShadowDenied(i, _, _))) =>
              op.Many? && i < |op.checks| && op.checks[i].mode == Shadow
              && forall c | c in op.checks :: c.mode == Shadow
            case Batch(Ok(BatchDenied(i, _, QuotaExceeded(_)))) =>
              op.Many? && i < |op.checks| && op.checks[i].mode == Enforce
              && forall c | c in op.checks :: c.mode == Enforce
            case _ => true
  {
    hide Judge, Settle, VerdictAt;
    match op
    case One(check, observed) =>
      SingleAnswer(store, hash, check, observed);
      var s: nat := hash(check.key) % |store|;
      var now := if observed >= store[s].latest then observed else store[s].latest;
      var entries := store[s].active;
      var active := if check.key in entries && entries[check.key].expiresAt > now then Some(entries[check.key])
          else None;
      ShardAnswer(store[s], check, Judge(check, now, active), now);
    case Many(checks, observed) =>
      if answer.batch.Ok? { BatchAnswer(store, hash, maximum, checks, observed, after, answer.batch.value); }
  }

  /** After every run the next fixed-window check is decided by the anchored window
      its key's log left, if that window is still open: admitted exactly while usage
      and cost stay within the limit, with what is left of the limit and the time to
      the end of the window. Only a key without an open window can meet a full
      shard. */
  lemma {:induction false} WindowRunAnswers(hash: Router, maximum: nat, start: Store, run: seq<Event>,
                                            policyOf: CounterKey -> Policy, check: Check, observed: nat)
    requires Run(hash, maximum, start, run) && AllKeyed(run, policyOf)
    requires ValidCheck(check) && check.policy.FixedWindow? && policyOf(check.key) == check.policy
    ensures forall i | 0 <= i < |run| :: |run[i].after| > 0
    ensures var store, log, FixedWindow(limit, window) :=
              StoreAfter(start, run), Log(hash, run, check.key), check.policy;
            var latest := LaneOf(store, hash, check.key).latest;
            var now := if observed >= latest then observed else latest;
            var w := Current(window, log);
            var open := w.Some? && now < w.value.anchor + window;
            var used := if open then w.value.used else 0;
            var end := if open then w.value.anchor + window else now + window;
            var answer := CheckIn(store, hash, check, observed).1;
            if used + check.cost > limit then
              var denial := QuotaDenial(limit, end - now);
              answer == Ok(if check.mode == Enforce then Denied(QuotaExceeded(denial)) else ShadowDenied(denial))
            else
              || answer == Ok(Allowed(Allowance(limit, limit - used - check.cost, end - now)))
              || (!open && answer.Ok? && answer.value.Denied? && answer.value.denial.StorageCapacity?)
  {
    hide Bounded, Settle, Run, AllKeyed, Log, Current;
    WindowLaneHolds(hash, maximum, start, run, policyOf, check.key);
    var store, log := StoreAfter(start, run), Log(hash, run, check.key);
    var lane := LaneOf(store, hash, check.key);
    SingleAnswer(store, hash, check, observed);
    var s: nat := hash(check.key) % |store|;
    var now := Max(observed, lane.latest);
    ShardAnswer(store[s], check, Judge(check, now, Alive(lane.entry, now)), now);
    WindowVerdict(check, lane, log, now);
  }

  lemma {:induction false} WindowVerdict(check: Check, lane: Lane, log: seq<Charge>, now: nat)
    requires ValidCheck(check) && check.policy.FixedWindow? && lane.latest <= now
    requires WindowLane(check.policy.limit, check.policy.window, lane, log)
    ensures var FixedWindow(limit, window) := check.policy;
            var w := Current(window, log);
            var open := w.Some? && now < w.value.anchor + window;
            var used := if open then w.value.used else 0;
            var end := if open then w.value.anchor + window else now + window;
            && (Alive(lane.entry, now).Some? <==> open)
            && match Judge(check, now, Alive(lane.entry, now))
               case Refuse(d) => used + check.cost > limit && d == QuotaDenial(limit, end - now)
               case Admit(_, a) =>
                 used + check.cost <= limit && a == Allowance(limit, limit - used - check.cost, end - now)
               case Overflow => false
  {
    hide Current;
    assert Bounded(check.policy.limit, check.policy.window, log);
  }

  /** Why a batch is not decided at all: a malformed batch, the first shard that could
      never hold its part of it, or arithmetic. None of these changes the store, and
      a batch that is decided has none of them. */
  lemma {:induction false} BatchRejection(store: Store, hash: Router, maximum: nat, checks: seq<Check>, observed: nat,
                                          after: Store, answer: Result<BatchDecision, BatchFailure>)
    requires |store| > 0 && AllValid(checks) && CheckMany(store, hash, maximum, checks, observed, after, answer)
    ensures |after| == |store| && (answer.Err? ==> after == store)
    ensures var formed := 1 <= |checks| <= maximum
                          && (forall i | 0 <= i < |checks| :: checks[i].mode == checks[0].mode)
                          && forall i, j | 0 <= i < j < |checks| :: checks[i].key != checks[j].key;
            var now := BatchNow(store, hash, checks, |checks|, observed);
            match answer
            case Err(InvalidBatch(_)) => !formed
            case Err(BatchExceedsShardCapacity(s, keyCount, capacity)) =>
              && formed && s < |store| && capacity == store[s].capacity < keyCount
              && keyCount == CountOn(hash, |store|, checks, |checks|, s)
              && forall u | 0 <= u < s :: CountOn(hash, |store|, checks, |checks|, u) <= store[u].capacity
            case Err(BatchOverflow) =>
              formed && exists i | 0 <= i < |checks| :: VerdictAt(store, hash, checks[i], now).Overflow?
            case Ok(_) =>
              && formed && (forall s | 0 <= s < |store| ::
                            CountOn(hash, |store|, checks, |checks|, s) <= store[s].capacity)
              && forall i | 0 <= i < |checks| :: !VerdictAt(store, hash, checks[i], now).Overflow?
  {
    hide Judge, Round.Outcome, Round.NoOverflow, ShardOf, AdvanceTouched, BatchNow, CountOn, Explains, VerdictAt;
    OverfullSpelled(store, hash, checks);
    if WellFormedBatch(checks, maximum) {
      var r := NewRound(store, hash, checks, observed);
      forall i | 0 <= i < |checks| ensures r.verdicts[i] == VerdictAt(store, hash, checks[i], r.now) {
        VerdictSpelled(store, hash, checks[i], r.now);
      }
      OverflowSpelled(r);
      if answer.Ok? { OutcomeSize(r, after, answer.value); }
    }
  }

  lemma {:induction false} OverfullSpelled(store: Store, hash: Router, checks: seq<Check>)
    ensures forall s | 0 <= s < |store| ::
              Overfull(store, hash, checks, s) <==> CountOn(hash, |store|, checks, |checks|, s) > store[s].capacity
  {
    hide CountOn;
  }

  lemma {:induction false} OverflowSpelled(r: Round)
    requires r.Valid()
    ensures r.NoOverflow() <==> forall i | 0 <= i < |r.checks| :: !r.verdicts[i].Overflow?
  {
  }

  lemma {:induction false} OutcomeSize(r: Round, after: Store, decision: BatchDecision)
    requires r.Valid() && r.Outcome(after, decision)
    ensures |after| == |r.store|
  {
    hide Round.FailureAt;
  }

  /** A denied batch forgets expired counters at most: every counter active at the
      batch's clock value keeps its place, and nothing comes in. */
  lemma {:induction false} DenialKeepsActive(store: Store, hash: Router, maximum: nat, checks: seq<Check>,
                                             observed: nat, after: Store, decision: BatchDecision)
    requires |store| > 0 && AllValid(checks)
    requires CheckMany(store, hash, maximum, checks, observed, after, Ok(decision)) && !decision.AllAllowed?
    ensures |after| == |store|
    ensures var now := BatchNow(store, hash, checks, |checks|, observed);
            forall s, k | 0 <= s < |store| ::
              && (k in after[s].active ==> k in store[s].active && after[s].active[k] == store[s].active[k])
              && (k in store[s].active && store[s].active[k].expiresAt > now ==> k in after[s].active)
  {
    hide Judge, CheckEach, CheckIn, SameReason, FailureOf;
    DeniedBatchChargesNothing(store, hash, maximum, checks, observed, after, decision);
  }
}

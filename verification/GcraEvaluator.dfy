/** The exact GCRA transition and its equivalence with a rational token bucket. */
module GcraEvaluator {
  import opened Basics
  import opened Policies

  datatype ArithmeticOverflow = ArithmeticOverflow

  datatype PendingAllowance = PendingAllowance(tat: nat, expiresAt: nat, allowance: Allowance)

  datatype Evaluation = Admissible(pending: PendingAllowance) | Refused(denial: QuotaDenial)

  /** Checked 128-bit results: a value that does not fit is an overflow. */
  function Fit128(n: nat): Result<nat, ArithmeticOverflow> {
    if n <= U128_MAX then Ok(n) else Err(ArithmeticOverflow)
  }

  function Fit64(n: nat): Result<nat, ArithmeticOverflow> {
    if n <= U64_MAX then Ok(n) else Err(ArithmeticOverflow)
  }

  /** Evaluates one check against the stored theoretical arrival time. */
  function Evaluate(policy: Policy, cost: nat, now: nat, tat: Option<nat>): Result<Evaluation, ArithmeticOverflow>
    requires policy.Gcra? && policy.quota > 0 && policy.period > 0
  {
    var scaledNow :- Fit128(now * policy.quota);
    var increment :- Fit128(cost * policy.period);
    Decide(policy, now, scaledNow, increment, policy.burst * policy.period, tat)
  }

  /** The rest of the transition, once the clock and the cost are scaled. */
  function Decide(policy: Policy, now: nat, scaledNow: nat, increment: nat, span: nat, tat: Option<nat>)
    : Result<Evaluation, ArithmeticOverflow>
    requires policy.Gcra? && policy.quota > 0 && policy.period > 0
  {
    var active := Max(if tat.Some? then tat.value else scaledNow, scaledNow);
    var candidate :- Fit128(active + increment);
    var burstSpan :- Fit128(span);
    var ceiling :- Fit128(scaledNow + burstSpan);
    if candidate > ceiling then
      var retry :- Fit64(DivCeil(candidate - ceiling, policy.quota));
      Ok(Refused(QuotaDenial(policy.burst, retry)))
    else
      var available :- Fit64(DivFloor(ceiling - candidate, policy.period));
      var replenish := DivCeil(candidate - scaledNow, policy.quota);
      var expiresAt :- Fit128(now + replenish);
      var delay :- Fit64(replenish);
      if available > policy.burst then Err(ArithmeticOverflow)
      else Ok(Admissible(PendingAllowance(candidate, expiresAt, Allowance(policy.burst, available, delay))))
  }

  /** The reference: a bucket of `burst` tokens in units of 1/period, refilled
      by `quota` units per millisecond. */
  datatype Bucket = Bucket(tokens: nat, last: nat)

  datatype BucketAnswer = Granted(available: nat, replenishesAfter: nat) | Short(retryAfter: nat)

  function Full(policy: Policy): nat
    requires policy.Gcra?
  {
    policy.burst * policy.period
  }

  function Refill(policy: Policy, b: Bucket, now: nat): (r: Bucket)
    requires policy.Gcra? && now >= b.last
    ensures r.tokens <= Full(policy) && r.last == now
  {
    Bucket(Min(Full(policy), b.tokens + (now - b.last) * policy.quota), now)
  }

  function Draw(policy: Policy, b: Bucket, now: nat, cost: nat): (r: (Bucket, BucketAnswer))
    requires policy.Gcra? && policy.quota > 0 && policy.period > 0
    requires b.tokens <= Full(policy) && now >= b.last
    ensures r.0.tokens <= Full(policy) && r.0.last == now
  {
    Take(policy, Refill(policy, b, now), cost * policy.period)
  }

  function Take(policy: Policy, b: Bucket, requested: nat): (r: (Bucket, BucketAnswer))
    requires policy.Gcra? && policy.quota > 0 && policy.period > 0 && b.tokens <= Full(policy)
    ensures r.0.tokens <= Full(policy) && r.0.last == b.last
  {
    if requested > b.tokens then
      (b, Short(DivCeil(requested - b.tokens, policy.quota)))
    else
      var left := b.tokens - requested;
      (b.(tokens := left), Granted(DivFloor(left, policy.period), DivCeil(Full(policy) - left, policy.quota)))
  }

  function AnswerOf(e: Evaluation): BucketAnswer {
    match e
    case Admissible(p) => Granted(p.allowance.available, p.allowance.replenishesAfter)
    case Refused(d) => Short(d.retryAfter)
  }

  /** How far past `now` a counter's debt reaches, in scaled units. */
  function Debt(policy: Policy, tat: Option<nat>, now: nat): nat
    requires policy.Gcra?
  {
    if tat.Some? then Monus(tat.value, now * policy.quota) else 0
  }

  /** No transition leaves more debt than a full burst. */
  predicate Reachable(policy: Policy, tat: Option<nat>, now: nat)
    requires policy.Gcra?
  {
    Debt(policy, tat, now) <= Full(policy)
  }

  /** The bucket a counter stands for at `now`. */
  function BucketOf(policy: Policy, tat: Option<nat>, now: nat): Bucket
    requires policy.Gcra? && Reachable(policy, tat, now)
  {
    Bucket(Full(policy) - Debt(policy, tat, now), now)
  }

  /** The debt a further charge would leave. */
  function Owed(policy: Policy, cost: nat, now: nat, tat: Option<nat>): nat
    requires policy.Gcra?
  {
    Debt(policy, tat, now) + cost * policy.period
  }

  function Scaled(policy: Policy, now: nat): nat
    requires policy.Gcra?
  {
    now * policy.quota
  }

  /** What the unbounded arithmetic would answer. */
  predicate Overflows(policy: Policy, cost: nat, now: nat, tat: Option<nat>)
    requires policy.Gcra?
  {
    now * policy.quota + Max(Full(policy), Debt(policy, tat, now) + cost * policy.period) > U128_MAX
  }

  lemma {:induction false} SpansFit(policy: Policy, cost: nat)
    requires ValidPolicy(policy) && policy.Gcra? && 1 <= cost <= policy.burst
    ensures 0 < cost * policy.period <= Full(policy) <= MAX_WINDOW_MILLIS * policy.quota
    ensures Full(policy) + cost * policy.period <= U128_MAX
  {
    MulMonotone(cost, policy.burst, policy.period);
    MulMonotone(1, cost, policy.period);
    DivCeilIff(Full(policy), policy.quota, MAX_WINDOW_MILLIS);
    MulMonotone(policy.quota, MAX_LIMIT, MAX_WINDOW_MILLIS);
  }

  lemma {:induction false} DivFloorWithin(tokens: nat, policy: Policy)
    requires policy.Gcra? && policy.period > 0 && tokens <= Full(policy)
    ensures DivFloor(tokens, policy.period) <= policy.burst
  {
    DivFloorIff(tokens, policy.period, DivFloor(tokens, policy.period));
    if DivFloor(tokens, policy.period) > policy.burst {
      MulMonotone(policy.burst + 1, DivFloor(tokens, policy.period), policy.period);
    }
  }

  /** The bounds that keep every conversion inside its machine type. */
  lemma {:induction false} DecideBounds(policy: Policy, now: nat, increment: nat, debt: nat)
    requires ValidPolicy(policy) && policy.Gcra?
    requires 0 < increment <= Full(policy) && debt <= Full(policy)
    ensures debt + increment > Full(policy) ==>
              DivCeil(debt + increment - Full(policy), policy.quota) <= MAX_WINDOW_MILLIS
    ensures debt + increment <= Full(policy) ==>
              var replenish := DivCeil(debt + increment, policy.quota);
              && DivFloor(Full(policy) - debt - increment, policy.period) <= policy.burst
              && 1 <= replenish <= MAX_WINDOW_MILLIS
              && now + replenish == DivCeil(now * policy.quota + debt + increment, policy.quota)
              && now + replenish <= now * policy.quota + debt + increment
  {
    hide DivCeil, DivFloor;
    DivCeilIff(Full(policy), policy.quota, MAX_WINDOW_MILLIS);
    if debt + increment > Full(policy) {
      DivCeilMonotone(debt + increment - Full(policy), Full(policy), policy.quota);
    } else {
      DivCeilMonotone(debt + increment, Full(policy), policy.quota);
      ReplenishBounds(now, debt + increment, policy.quota);
      DivFloorWithin(Full(policy) - debt - increment, policy);
    }
  }

  lemma {:induction false} ReplenishBounds(now: nat, owed: nat, quota: nat)
    requires quota > 0 && owed > 0
    ensures 1 <= DivCeil(owed, quota)
    ensures now + DivCeil(owed, quota) == DivCeil(now * quota + owed, quota) <= now * quota + owed
  {
    DivCeilShift(owed, now, quota);
    DivCeilIff(now * quota + owed, quota, now * quota + owed);
    MulMonotone(1, quota, now * quota + owed);
  }

  /** The transition on scaled values, with no product left in it. */
  lemma {:induction false} DecideExactly(policy: Policy, now: nat, scaled: nat, increment: nat, span: nat,
                                         tat: Option<nat>, debt: nat)
    requires policy.Gcra? && policy.quota > 0 && policy.period > 0 && policy.burst <= MAX_LIMIT && span <= U128_MAX
    requires debt == (if tat.Some? then Monus(tat.value, scaled) else 0)
    requires debt + increment > span ==> DivCeil(debt + increment - span, policy.quota) <= MAX_WINDOW_MILLIS
    requires debt + increment <= span ==>
               && DivFloor(span - debt - increment, policy.period) <= policy.burst
               && DivCeil(debt + increment, policy.quota) <= MAX_WINDOW_MILLIS
               && now + DivCeil(debt + increment, policy.quota) <= scaled + debt + increment
    ensures Decide(policy, now, scaled, increment, span, tat) ==
            if scaled + Max(span, debt + increment) > U128_MAX then Err(ArithmeticOverflow)
            else if debt + increment > span then
              Ok(Refused(QuotaDenial(policy.burst, DivCeil(debt + increment - span, policy.quota))))
            else
              var replenish := DivCeil(debt + increment, policy.quota);
              Ok(Admissible(PendingAllowance(scaled + debt + increment, now + replenish,
                                             Allowance(policy.burst, DivFloor(span - debt - increment, policy.period),
                                                       replenish))))
  {
    var candidate := scaled + debt + increment;
    assert Max(if tat.Some? then tat.value else scaled, scaled) == scaled + debt;
    if debt + increment > span {
      assert candidate - (scaled + span) == debt + increment - span;
    } else {
      assert candidate - scaled == debt + increment;
      assert scaled + span - candidate == span - debt - increment;
    }
  }

  /** The whole transition in terms of the outstanding debt. */
  lemma {:induction false} EvaluateExactly(policy: Policy, cost: nat, now: nat, tat: Option<nat>)
    requires ValidPolicy(policy) && policy.Gcra? && 1 <= cost <= policy.burst
    requires Reachable(policy, tat, now)
    ensures var owed := Owed(policy, cost, now, tat);
            var tat' := Scaled(policy, now) + owed;
            Evaluate(policy, cost, now, tat) ==
            if Overflows(policy, cost, now, tat) then Err(ArithmeticOverflow)
            else if owed > Full(policy) then
              Ok(Refused(QuotaDenial(policy.burst, DivCeil(owed - Full(policy), policy.quota))))
            else
              Ok(Admissible(PendingAllowance(tat', DivCeil(tat', policy.quota),
                                             Allowance(policy.burst, DivFloor(Full(policy) - owed, policy.period),
                                                       DivCeil(owed, policy.quota)))))
    ensures var owed := Owed(policy, cost, now, tat);
            owed <= Full(policy) ==> now < DivCeil(Scaled(policy, now) + owed, policy.quota) <= now + MAX_WINDOW_MILLIS
  {
    hide Evaluate, Decide, DivCeil, DivFloor;
    SpansFit(policy, cost);
    var scaled, increment, debt := now * policy.quota, cost * policy.period, Debt(policy, tat, now);
    EvaluateDecides(policy, cost, now, tat);
    DecideBounds(policy, now, increment, debt);
    DecideExactly(policy, now, scaled, increment, Full(policy), tat, debt);
  }

  /** The same, spelled out: with the debt beyond now that the counter holds, a check
      is admitted exactly while debt and cost stay within a full burst; a refusal
      waits for what is missing and a grant reports the whole tokens left. */
  lemma {:induction false} EvaluateSpelled(policy: Policy, cost: nat, now: nat, tat: Option<nat>)
    requires ValidPolicy(policy) && policy.Gcra? && 1 <= cost <= policy.burst
    requires tat.Some? ==> tat.value <= now * policy.quota + policy.burst * policy.period
    ensures var Gcra(quota, period, burst) := policy;
            var scaled := now * quota;
            var owed := (if tat.Some? && tat.value > scaled then tat.value - scaled else 0) + cost * period;
            var full := burst * period;
            match Evaluate(policy, cost, now, tat)
            case Err(_) => scaled + Max(full, owed) > 0xFFFF_FFFF_FFFF_FFFF_FFFF_FFFF_FFFF_FFFF
            case Ok(Refused(d)) =>
              && owed > full && d.capacity == burst
              && (d.retryAfter - 1) * quota < owed - full <= d.retryAfter * quota
              && scaled + owed <= 0xFFFF_FFFF_FFFF_FFFF_FFFF_FFFF_FFFF_FFFF
            case Ok(Admissible(p)) =>
              && owed <= full && p.tat == scaled + owed && p.allowance.capacity == burst
              && p.allowance.available * period <= full - owed < (p.allowance.available + 1) * period
              && (p.allowance.replenishesAfter - 1) * quota < owed <= p.allowance.replenishesAfter * quota
              && p.expiresAt == now + p.allowance.replenishesAfter
              && scaled + full <= 0xFFFF_FFFF_FFFF_FFFF_FFFF_FFFF_FFFF_FFFF
  {
    hide Evaluate, DivCeil, DivFloor;
    EvaluateExactly(policy, cost, now, tat);
    var Gcra(quota, period, burst) := policy;
    var owed := Owed(policy, cost, now, tat);
    if owed > Full(policy) {
      Rounded(owed - Full(policy), quota);
    } else {
      Rounded(owed, quota);
      RoundedDown(Full(policy) - owed, period);
      ReplenishSplits(now, owed, quota);
    }
  }

  lemma {:induction false} Rounded(n: nat, d: nat)
    requires d > 0
    ensures (DivCeil(n, d) - 1) * d < n <= DivCeil(n, d) * d || n == 0
    ensures n == 0 ==> DivCeil(n, d) == 0
  {
    DivCeilIff(n, d, DivCeil(n, d));
    DivCeilIff(n, d, DivCeil(n, d) - 1);
  }

  lemma {:induction false} RoundedDown(n: nat, d: nat)
    requires d > 0
    ensures DivFloor(n, d) * d <= n < (DivFloor(n, d) + 1) * d
  {
    DivFloorIff(n, d, DivFloor(n, d));
    DivFloorIff(n, d, DivFloor(n, d) + 1);
  }

  lemma {:induction false} ReplenishSplits(now: nat, owed: nat, quota: nat)
    requires quota > 0
    ensures DivCeil(now * quota + owed, quota) == now + DivCeil(owed, quota)
  {
    DivCeilShift(owed, now, quota);
  }

  lemma {:induction false} EvaluateDecides(policy: Policy, cost: nat, now: nat, tat: Option<nat>)
    requires policy.Gcra? && policy.quota > 0 && policy.period > 0 && cost * policy.period <= U128_MAX
    ensures Evaluate(policy, cost, now, tat) ==
            Decide(policy, now, now * policy.quota, cost * policy.period, Full(policy), tat)
  {
    hide DivCeil, DivFloor;
  }

  lemma {:induction false} DrawExactly(policy: Policy, debt: nat, now: nat, cost: nat)
    requires ValidPolicy(policy) && policy.Gcra? && debt <= Full(policy)
    ensures var owed := debt + cost * policy.period;
            Draw(policy, Bucket(Full(policy) - debt, now), now, cost) ==
            if owed > Full(policy) then
              (Bucket(Full(policy) - debt, now), Short(DivCeil(owed - Full(policy), policy.quota)))
            else
              (Bucket(Full(policy) - owed, now),
               Granted(DivFloor(Full(policy) - owed, policy.period), DivCeil(owed, policy.quota)))
  {
    RefillAtOnce(policy, Bucket(Full(policy) - debt, now));
    TakeExactly(policy, debt, now, cost * policy.period);
  }

  lemma {:induction false} TakeExactly(policy: Policy, debt: nat, now: nat, requested: nat)
    requires ValidPolicy(policy) && policy.Gcra? && debt <= Full(policy)
    ensures Take(policy, Bucket(Full(policy) - debt, now), requested) ==
            if debt + requested > Full(policy) then
              (Bucket(Full(policy) - debt, now), Short(DivCeil(debt + requested - Full(policy), policy.quota)))
            else
              (Bucket(Full(policy) - (debt + requested), now),
               Granted(DivFloor(Full(policy) - (debt + requested), policy.period),
                       DivCeil(debt + requested, policy.quota)))
  {
    hide Full;
    var tokens := Full(policy) - debt;
    if requested > tokens {
      assert requested - tokens == debt + requested - Full(policy);
    } else {
      assert Full(policy) - (tokens - requested) == debt + requested;
    }
  }

  /** Drawing at the bucket's own instant refills nothing. */
  lemma {:induction false} RefillAtOnce(policy: Policy, b: Bucket)
    requires policy.Gcra? && b.tokens <= Full(policy)
    ensures Refill(policy, b, b.last) == b
  {
  }

  /** On reachable state the evaluator fails exactly when the larger of ceiling
      and candidate needs more than 128 bits; otherwise it answers as the token
      bucket does, leaves the bucket's state, and expires exactly at refill. */
  lemma {:induction false} EvaluateIsTokenBucket(policy: Policy, cost: nat, now: nat, tat: Option<nat>)
    requires ValidPolicy(policy) && policy.Gcra? && 1 <= cost <= policy.burst
    requires Reachable(policy, tat, now)
    ensures var e := Evaluate(policy, cost, now, tat);
            var (bucket, answer) := Draw(policy, BucketOf(policy, tat, now), now, cost);
            && (e.Err? <==> Overflows(policy, cost, now, tat))
            && (e.Ok? ==>
                  && AnswerOf(e.value) == answer
                  && (e.value.Refused? ==>
                      e.value.denial.capacity == policy.burst && bucket == BucketOf(policy, tat, now))
                  && (e.value.Admissible? ==>
                        var p := e.value.pending;
                        && p.allowance.capacity == policy.burst
                        && Reachable(policy, Some(p.tat), now)
                        && bucket == BucketOf(policy, Some(p.tat), now)
                        && p.tat == Max(if tat.Some? then tat.value else 0, now * policy.quota) + cost * policy.period
                        && now < p.expiresAt == DivCeil(p.tat, policy.quota) <= now + MAX_WINDOW_MILLIS))
  {
    hide Evaluate, Draw, Full, DivCeil, Overflows;
    EvaluateExactly(policy, cost, now, tat);
    DrawExactly(policy, Debt(policy, tat, now), now, cost);
  }

  /** With a clock below 2^64 milliseconds no reachable state overflows. */
  lemma {:induction false} NoOverflowBelow64Bits(policy: Policy, cost: nat, now: nat, tat: Option<nat>)
    requires ValidPolicy(policy) && policy.Gcra? && 1 <= cost <= policy.burst
    requires Reachable(policy, tat, now) && now <= U64_MAX
    ensures Evaluate(policy, cost, now, tat).Ok?
  {
    hide Evaluate, DivCeil, Overflows, Owed, Scaled, Full, Debt;
    EvaluateExactly(policy, cost, now, tat);
    NoneOverflowBelow64Bits(policy, cost, now, tat);
  }

  lemma {:induction false} NoneOverflowBelow64Bits(policy: Policy, cost: nat, now: nat, tat: Option<nat>)
    requires ValidPolicy(policy) && policy.Gcra? && 1 <= cost <= policy.burst
    requires Reachable(policy, tat, now) && now <= U64_MAX
    ensures !Overflows(policy, cost, now, tat)
  {
    hide Debt, Full;
    SpansFit(policy, cost);
    MulMonotone(now, U64_MAX, policy.quota);
    FitsBelow64Bits(policy.quota, now * policy.quota, Full(policy), Debt(policy, tat, now) + cost * policy.period);
  }

  lemma {:induction false} FitsBelow64Bits(quota: nat, scaled: nat, span: nat, owed: nat)
    requires quota <= MAX_LIMIT && scaled <= U64_MAX * quota
    requires owed <= 2 * span && span <= MAX_WINDOW_MILLIS * quota
    ensures scaled + Max(span, owed) <= U128_MAX
  {
  }

  /** A stored arrival time survives until the instant of full replenishment. */
  function Surviving(policy: Policy, tat: Option<nat>, now: nat): Option<nat>
    requires policy.Gcra? && policy.quota > 0
  {
    if tat.Some? && DivCeil(tat.value, policy.quota) > now then tat else None
  }

  /** Dropping an arrival time at full replenishment changes no answer. */
  lemma {:induction false} ExpiryIsInvisible(policy: Policy, tat: Option<nat>, now: nat)
    requires policy.Gcra? && policy.quota > 0
    ensures Debt(policy, Surviving(policy, tat, now), now) == Debt(policy, tat, now)
    ensures tat.Some? ==>
              Max(tat.value, now * policy.quota) ==
              Max(if Surviving(policy, tat, now).Some? then tat.value else 0, now * policy.quota)
  {
    if tat.Some? { DivCeilIff(tat.value, policy.quota, now); }
  }

  /** A reported retry delay is exact: with the counter otherwise untouched the
      same cost is refused at every millisecond before it and admitted at every
      later one. */
  lemma {:induction false} RetryDelayIsExact(policy: Policy, cost: nat, now: nat, tat: Option<nat>, later: nat)
    requires ValidPolicy(policy) && policy.Gcra? && 1 <= cost <= policy.burst
    requires Reachable(policy, tat, now) && now <= later
    requires Evaluate(policy, cost, now, tat).Ok? && Evaluate(policy, cost, now, tat).value.Refused?
    requires !Overflows(policy, cost, later, tat)
    ensures var e := Evaluate(policy, cost, later, Surviving(policy, tat, later));
            && e.Ok?
            && (e.value.Admissible? <==> later >= now + Evaluate(policy, cost, now, tat).value.denial.retryAfter)
  {
    hide Evaluate, Draw, Full, DivCeil, Overflows, Surviving;
    var q := policy.quota;
    MulMonotone(now, later, q);
    ExpiryIsInvisible(policy, tat, later);
    EvaluateExactly(policy, cost, now, tat);
    EvaluateExactly(policy, cost, later, Surviving(policy, tat, later));
    OverflowsByDebt(policy, cost, later, tat, Surviving(policy, tat, later));
    var missing := Debt(policy, tat, now) + cost * policy.period - Full(policy);
    DivCeilIff(missing, q, later - now);
    assert (later - now) * q == later * q - now * q;
    SpansFit(policy, cost);
  }

  lemma {:induction false} OverflowsByDebt(policy: Policy, cost: nat, now: nat, a: Option<nat>, b: Option<nat>)
    requires policy.Gcra? && Debt(policy, a, now) == Debt(policy, b, now)
    ensures Overflows(policy, cost, now, a) == Overflows(policy, cost, now, b)
  {
  }
}

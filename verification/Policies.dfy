/** Validated policies, checks and decisions of the core crate. */
module Policies {
  import opened Basics

  /** Counter keys are 64-byte strings compared lexicographically, so the model
      reads them as numbers. A key's fingerprint half commits to every policy
      field except the deployment mode. */
  type CounterKey = nat

  const MAX_LIMIT: nat := I64_MAX
  const MAX_WINDOW_MILLIS: nat := 0x20_0000_0000_0000 / 1000
  const NANOS_PER_MILLI: nat := 1_000_000

  datatype QuotaMode = Enforce | Shadow

  datatype Policy =
    | FixedWindow(limit: nat, window: nat)
    | Gcra(quota: nat, period: nat, burst: nat)
  {
    function Capacity(): nat { if FixedWindow? then limit else burst }
  }

  datatype PolicyError =
    | ZeroLimit
    | LimitTooLarge(actual: nat)
    | ZeroQuota
    | QuotaTooLarge(actual: nat)
    | ZeroBurstCapacity
    | BurstCapacityTooLarge(actual: nat)
    | ZeroPeriod
    | PeriodNotWholeMilliseconds
    | PeriodTooLarge(nanos: nat)
    | RefillDurationTooLarge(actualMillis: nat)

  predicate InLimitRange(n: nat) { 1 <= n <= MAX_LIMIT }

  predicate InPeriodRange(millis: nat) { 1 <= millis <= MAX_WINDOW_MILLIS }

  /** What every constructed policy satisfies. */
  predicate ValidPolicy(p: Policy) {
    match p
    case FixedWindow(limit, window) => InLimitRange(limit) && InPeriodRange(window)
    case Gcra(quota, period, burst) =>
      InLimitRange(quota) && InPeriodRange(period) && InLimitRange(burst) &&
      RefillMillis(quota, period, burst) <= MAX_WINDOW_MILLIS
  }

  /** Milliseconds an empty bucket needs to refill, rounded up. */
  function RefillMillis(quota: nat, period: nat, burst: nat): nat
    requires quota > 0
  {
    DivCeil(burst * period, quota)
  }

  function NewCapacity(value: nat, zero: PolicyError, tooLarge: PolicyError): Result<nat, PolicyError> {
    if value == 0 then Err(zero) else if value > MAX_LIMIT then Err(tooLarge) else Ok(value)
  }

  /** `QuotaPeriod::new` on a duration counted in nanoseconds. */
  function NewQuotaPeriod(nanos: nat): Result<nat, PolicyError> {
    if nanos == 0 then Err(ZeroPeriod)
    else if nanos % NANOS_PER_MILLI != 0 then Err(PeriodNotWholeMilliseconds)
    else if nanos > MAX_WINDOW_MILLIS * NANOS_PER_MILLI then Err(PeriodTooLarge(nanos))
    else Ok(nanos / NANOS_PER_MILLI)
  }

  /** `e` is the first thing wrong with a period of so many nanoseconds. */
  predicate BlamesPeriod(e: PolicyError, nanos: nat) {
    match e
    case ZeroPeriod => nanos == 0
    case PeriodNotWholeMilliseconds => nanos % NANOS_PER_MILLI != 0
    case PeriodTooLarge(actual) => actual == nanos > MAX_WINDOW_MILLIS * NANOS_PER_MILLI && nanos % NANOS_PER_MILLI == 0
    case _ => false
  }

  function NewFixedWindow(limit: nat, windowNanos: nat): (r: Result<Policy, PolicyError>)
    ensures r.Ok? <==>
            1 <= limit <= 0x7FFF_FFFF_FFFF_FFFF && windowNanos % 1_000_000 == 0 &&
            1 <= windowNanos / 1_000_000 <= 9_007_199_254_740
    ensures r.Ok? ==>
            ValidPolicy(r.value) && r.value.FixedWindow? && r.value.limit == limit
            && r.value.window * 1_000_000 == windowNanos
    ensures r.Err? ==>
              match r.error
              case ZeroLimit => limit == 0
              case LimitTooLarge(actual) => actual == limit > 0x7FFF_FFFF_FFFF_FFFF
              case PeriodTooLarge(nanos) =>
                nanos == windowNanos > 9_007_199_254_740 * 1_000_000 && windowNanos % 1_000_000 == 0
              case _ => InLimitRange(limit) && BlamesPeriod(r.error, windowNanos)
  {
    var l :- NewCapacity(limit, ZeroLimit, LimitTooLarge(limit));
    var w :- NewQuotaPeriod(windowNanos);
    Ok(FixedWindow(l, w))
  }

  function NewGcra(quota: nat, periodNanos: nat, burst: nat): (r: Result<Policy, PolicyError>)
    ensures r.Ok? <==>
            InLimitRange(quota) && InLimitRange(burst) && periodNanos % NANOS_PER_MILLI == 0 &&
            InPeriodRange(periodNanos / NANOS_PER_MILLI) &&
            RefillMillis(quota, periodNanos / NANOS_PER_MILLI, burst) <= MAX_WINDOW_MILLIS
    ensures r.Ok? ==>
              && ValidPolicy(r.value) && r.value.Gcra? && r.value.quota == quota && r.value.burst == burst
              && r.value.period * NANOS_PER_MILLI == periodNanos
    ensures r.Err? ==>
              match r.error
              case ZeroQuota => quota == 0
              case QuotaTooLarge(actual) => actual == quota > MAX_LIMIT
              case ZeroBurstCapacity => InLimitRange(quota) && burst == 0
              case BurstCapacityTooLarge(actual) => InLimitRange(quota) && actual == burst > MAX_LIMIT
              case RefillDurationTooLarge(millis) =>
                InLimitRange(quota) && InLimitRange(burst) && InPeriodRange(periodNanos / NANOS_PER_MILLI) &&
                millis == RefillMillis(quota, periodNanos / NANOS_PER_MILLI, burst) > MAX_WINDOW_MILLIS
              case _ => InLimitRange(quota) && InLimitRange(burst) && BlamesPeriod(r.error, periodNanos)
  {
    var q :- NewCapacity(quota, ZeroQuota, QuotaTooLarge(quota));
    var b :- NewCapacity(burst, ZeroBurstCapacity, BurstCapacityTooLarge(burst));
    var p :- NewQuotaPeriod(periodNanos);
    var refill := RefillMillis(q, p, b);
    if refill > MAX_WINDOW_MILLIS then Err(RefillDurationTooLarge(refill)) else Ok(Gcra(q, p, b))
  }

  /** A GCRA policy is accepted exactly when its fields are in range and a full burst
      refills within the longest window. */
  lemma {:induction false} GcraAcceptedExactly(quota: nat, periodNanos: nat, burst: nat)
    ensures NewGcra(quota, periodNanos, burst).Ok? <==>
            && 1 <= quota <= 0x7FFF_FFFF_FFFF_FFFF && 1 <= burst <= 0x7FFF_FFFF_FFFF_FFFF
            && periodNanos % 1_000_000 == 0 && 1 <= periodNanos / 1_000_000 <= 9_007_199_254_740
            && burst * (periodNanos / 1_000_000) <= 9_007_199_254_740 * quota
  {
    if quota > 0 { DivCeilIff(burst * (periodNanos / 1_000_000), quota, 9_007_199_254_740); }
  }

  /** A GCRA policy keeps what was asked for; a refill that is refused for being too
      long is reported as the least number of milliseconds that covers it. */
  lemma {:induction false} GcraKeepsRequest(quota: nat, periodNanos: nat, burst: nat, millis: nat)
    ensures var r := NewGcra(quota, periodNanos, burst);
            && (r.Ok? ==>
                  r.value.Gcra? && r.value.quota == quota && r.value.burst == burst
                  && r.value.period * 1_000_000 == periodNanos)
            && (r == Err(RefillDurationTooLarge(millis)) ==>
                  && millis > 9_007_199_254_740
                  && (millis - 1) * quota < burst * (periodNanos / 1_000_000) <= millis * quota)
  {
    if quota > 0 {
      var scaled := burst * (periodNanos / 1_000_000);
      DivCeilIff(scaled, quota, DivCeil(scaled, quota));
      DivCeilIff(scaled, quota, DivCeil(scaled, quota) - 1);
    }
  }

  /** The validity predicate is exactly the image of the two constructors. */
  lemma {:induction false} ValidPoliciesAreConstructed(p: Policy)
    ensures ValidPolicy(p) <==>
            exists n: nat ::
                   (if p.FixedWindow? then NewFixedWindow(p.limit, n) else NewGcra(p.quota, n, p.burst)) == Ok(p)
  {
    var millis := if p.FixedWindow? then p.window else p.period;
    var n := millis * NANOS_PER_MILLI;
    assert n % NANOS_PER_MILLI == 0 && n / NANOS_PER_MILLI == millis;
    if ValidPolicy(p) {
      assert (if p.FixedWindow? then NewFixedWindow(p.limit, n) else NewGcra(p.quota, n, p.burst)) == Ok(p);
    }
  }

  /** One proposed charge. The mode rides on the check because it is not part of
      the counter key. */
  datatype Check = Check(key: CounterKey, policy: Policy, mode: QuotaMode, cost: nat)

  datatype CostError = ZeroCost | CostExceedsCapacity(cost: nat, capacity: nat)

  function WithCost(check: Check, cost: nat): (r: Result<Check, CostError>)
    requires ValidPolicy(check.policy)
    ensures r.Ok? <==> 1 <= cost <= check.policy.Capacity()
    ensures r.Ok? ==> ValidCheck(r.value) && r.value == check.(cost := cost)
  {
    if cost == 0 then Err(ZeroCost)
    else if cost > check.policy.Capacity() then Err(CostExceedsCapacity(cost, check.policy.Capacity()))
    else Ok(check.(cost := cost))
  }

  predicate ValidCheck(c: Check) {
    ValidPolicy(c.policy) && 1 <= c.cost <= c.policy.Capacity()
  }

  datatype Allowance = Allowance(capacity: nat, available: nat, replenishesAfter: nat)

  datatype QuotaDenial = QuotaDenial(capacity: nat, retryAfter: nat)

  datatype Denial = QuotaExceeded(quota: QuotaDenial) | StorageCapacity(retryAfter: Option<nat>)

  datatype Decision = Allowed(allowance: Allowance) | Denied(denial: Denial) | ShadowDenied(quota: QuotaDenial)

  datatype BatchDecision =
    | AllAllowed(allowances: seq<Allowance>)
    | BatchDenied(index: nat, size: nat, denial: Denial)
    | BatchShadowDenied(index: nat, size: nat, quota: QuotaDenial)
}

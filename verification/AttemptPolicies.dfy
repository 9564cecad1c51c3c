/** Exponential-backoff policies for outcome-aware attempts. */
module AttemptPolicies {
  import opened Basics
  import opened Policies

  datatype AttemptPolicy = AttemptPolicy(initial: nat, maximum: nat, quiet: nat, lease: nat)

  datatype AttemptPolicyError = MaximumBelowInitial | QuietBelowMaximum

  /** The shortest delays there are, under a lease of two milliseconds. */
  const BRIEF := AttemptPolicy(1, 1, 1, 2)

  predicate ValidAttemptPolicy(p: AttemptPolicy) {
    && InPeriodRange(p.initial) && InPeriodRange(p.maximum) && InPeriodRange(p.quiet) && InPeriodRange(p.lease)
    && p.initial <= p.maximum <= p.quiet
  }

  function NewAttemptPolicy(initial: nat, maximum: nat, quiet: nat, lease: nat):
    (r: Result<AttemptPolicy, AttemptPolicyError>)
    requires InPeriodRange(initial) && InPeriodRange(maximum) && InPeriodRange(quiet) && InPeriodRange(lease)
    ensures r.Ok? <==> initial <= maximum <= quiet
    ensures r.Ok? ==> ValidAttemptPolicy(r.value) && r.value == AttemptPolicy(initial, maximum, quiet, lease)
    ensures r.Err? ==>
              match r.error
              case MaximumBelowInitial => maximum < initial
              case QuietBelowMaximum => quiet < maximum && initial <= maximum
  {
    if maximum < initial then Err(MaximumBelowInitial)
    else if quiet < maximum then Err(QuietBelowMaximum)
    else Ok(AttemptPolicy(initial, maximum, quiet, lease))
  }

  function Pow2(n: nat): (r: nat)
    ensures r >= 1
  {
    if n == 0 then 1 else 2 * Pow2(n - 1)
  }

  /** `1_u64.checked_shl(n)`, read as the maximum when the shift is too wide. */
  function ShiftedOne(n: nat): nat { if n < 64 then Pow2(n) else U64_MAX }

  function SaturatingMul(a: nat, b: nat): nat { Min(a * b, U64_MAX) }

  /** The delay after a number of consecutive failures, in machine arithmetic. */
  function Delay(p: AttemptPolicy, failures: nat): nat {
    if failures == 0 then 0
    else Min(SaturatingMul(p.initial, ShiftedOne(failures - 1)), p.maximum)
  }

  lemma {:induction false} Pow2Monotone(m: nat, n: nat)
    requires m <= n
    ensures Pow2(m) <= Pow2(n)
  {
    if m < n { Pow2Monotone(m, n - 1); }
  }

  /** Shifts and saturation never show: the delay is the initial one doubled for
      every further failure, up to the maximum. */
  lemma {:induction false} DelayIsCappedDoubling(p: AttemptPolicy, failures: nat)
    requires ValidAttemptPolicy(p) && failures >= 1
    ensures Delay(p, failures) == Min(p.initial * Pow2(failures - 1), p.maximum)
  {
    if failures - 1 >= 64 {
      Pow2Monotone(64, failures - 1);
      assert Pow2(64) == U64_MAX + 1 by { Pow2Of64(); }
      MulMonotone(1, p.initial, U64_MAX);
      MulMonotone(1, p.initial, Pow2(failures - 1));
    }
  }

  lemma {:induction false} Pow2Of64()
    ensures Pow2(64) == U64_MAX + 1
  {
    assert Pow2(8) == 256;
    assert Pow2(16) == 65536;
    assert Pow2(24) == 0x100_0000;
    assert Pow2(32) == 0x1_0000_0000;
    assert Pow2(40) == 0x100_0000_0000;
    assert Pow2(48) == 0x1_0000_0000_0000;
    assert Pow2(56) == 0x100_0000_0000_0000;
  }

  lemma {:induction false} NoFailuresNoDelay(p: AttemptPolicy)
    ensures Delay(p, 0) == 0
  {
  }

  lemma {:induction false} DelayGrows(p: AttemptPolicy, m: nat, n: nat)
    requires ValidAttemptPolicy(p) && m <= n
    ensures Delay(p, m) <= Delay(p, n) <= p.maximum
    ensures n >= 1 ==> Delay(p, n) >= 1
  {
    hide Delay, Pow2;
    if n >= 1 {
      DelayIsCappedDoubling(p, n);
      MulMonotone(1, Pow2(n - 1), p.initial);
    }
    if m >= 1 {
      DelayIsCappedDoubling(p, m);
      Pow2Monotone(m - 1, n - 1);
      MulMonotone(Pow2(m - 1), Pow2(n - 1), p.initial);
    } else {
      NoFailuresNoDelay(p);
    }
  }

  /** Counting failures in 32 bits does not change any delay. */
  lemma {:induction false} SaturatedCountKeepsDelay(p: AttemptPolicy, failures: nat)
    requires ValidAttemptPolicy(p)
    ensures Delay(p, Min(failures, U32_MAX)) == Delay(p, failures)
  {
    if failures > U32_MAX {
      MulMonotone(1, p.initial, U64_MAX);
    }
  }
}

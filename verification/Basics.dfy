/** Shared result types, machine bounds and exact integer arithmetic. */
module Basics {

  datatype Option<+T> = None | Some(value: T)

  datatype Result<+T, +E> = Ok(value: T) | Err(error: E) {
    predicate IsFailure() { Err? }
    function PropagateFailure<U>(): Result<U, E> requires Err? { Err(error) }
    function Extract(): T requires Ok? { value }
  }

  const U32_MAX: nat := 0xFFFF_FFFF
  const U64_MAX: nat := 0xFFFF_FFFF_FFFF_FFFF
  const U128_MAX: nat := 0xFFFF_FFFF_FFFF_FFFF_FFFF_FFFF_FFFF_FFFF
  const I64_MAX: nat := 0x7FFF_FFFF_FFFF_FFFF
  const USIZE_MAX: nat := U64_MAX

  function Min(a: int, b: int): int { if a <= b then a else b }

  function Max(a: int, b: int): int { if a >= b then a else b }

  /** `saturating_sub` on unsigned integers. */
  function Monus(a: nat, b: nat): nat { if a >= b then a - b else 0 }

  /** Whole division, by repeated subtraction so that no product appears. */
  function DivFloor(n: nat, d: nat): nat
    requires d > 0
  {
    if n < d then 0 else 1 + DivFloor(n - d, d)
  }

  lemma {:induction false} DivFloorIff(n: nat, d: nat, x: nat)
    requires d > 0
    ensures x * d <= n <==> x <= DivFloor(n, d)
  {
    if x == 0 {
    } else if n < d {
      MulMonotone(1, x, d);
    } else {
      DivFloorIff(n - d, d, x - 1);
      assert (x - 1) * d == x * d - d;
    }
  }

  /** Rounded-up division: how many times `d` must be taken to cover `n`. */
  function DivCeil(n: nat, d: nat): nat
    requires d > 0
  {
    if n == 0 then 0 else 1 + DivCeil(Monus(n, d), d)
  }

  /** The rounded-up quotient is the least multiplier of `d` that reaches `n`. */
  lemma {:induction false} DivCeilIff(n: nat, d: nat, x: int)
    requires d > 0
    ensures x * d >= n <==> x >= DivCeil(n, d)
  {
    if n > 0 {
      DivCeilIff(Monus(n, d), d, x - 1);
      assert (x - 1) * d == x * d - d;
      if x <= 0 { MulMonotone(x, 0, d); }
    } else if x >= 0 {
      MulMonotone(0, x, d);
    } else {
      MulMonotone(x, -1, d);
    }
  }

  lemma {:induction false} MulMonotone(a: int, b: int, d: nat)
    requires a <= b
    ensures a * d <= b * d
  {
  }

  /** Adding whole multiples of the divisor moves the rounded-up quotient by as much. */
  lemma {:induction false} DivCeilShift(n: nat, a: nat, d: nat)
    requires d > 0
    ensures DivCeil(n + a * d, d) == a + DivCeil(n, d)
  {
    if a > 0 {
      DivCeilShift(n, a - 1, d);
      assert n + a * d == n + (a - 1) * d + d;
    }
  }

  lemma {:induction false} DivCeilMonotone(m: nat, n: nat, d: nat)
    requires d > 0 && m <= n
    ensures DivCeil(m, d) <= DivCeil(n, d)
  {
    DivCeilIff(m, d, DivCeil(n, d));
    DivCeilIff(n, d, DivCeil(n, d));
  }

  lemma {:induction false} SubsetSize<T>(a: set<T>, b: set<T>)
    requires a <= b
    ensures |a| <= |b|
  {
    assert b == a + (b - a);
  }

  lemma {:induction false} SmallerMap<K, V>(small: map<K, V>, big: map<K, V>)
    requires small.Keys <= big.Keys
    ensures |small| <= |big|
  {
    SubsetSize(small.Keys, big.Keys);
    assert |small| == |small.Keys| && |big| == |big.Keys|;
  }
}

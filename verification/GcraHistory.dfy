/** What a log of committed GCRA charges implies, whoever keeps it. */
module GcraHistory {
  import opened Basics
  import opened Policies
  import opened GcraEvaluator

  datatype Charge = Charge(time: nat, cost: nat)

  /** The arrival time an unbounded memory would hold after the log. */
  function VirtualTat(policy: Policy, log: seq<Charge>): nat
    requires policy.Gcra?
  {
    if log == [] then 0
    else
      var last := log[|log| - 1];
      Max(VirtualTat(policy, log[..|log| - 1]), last.time * policy.quota) + last.cost * policy.period
  }

  function EndOf(log: seq<Charge>): nat {
    if log == [] then 0 else log[|log| - 1].time
  }

  /** Every charge was admitted: times never regress and no charge leaves more
      debt than one burst. */
  predicate Conforming(policy: Policy, log: seq<Charge>)
    requires policy.Gcra?
  {
    log != [] ==>
      && Conforming(policy, log[..|log| - 1])
      && EndOf(log[..|log| - 1]) <= EndOf(log)
      && VirtualTat(policy, log) <= EndOf(log) * policy.quota + Full(policy)
  }

  function CostFrom(log: seq<Charge>, from: nat): nat {
    if log == [] then 0
    else
      var last := log[|log| - 1];
      CostFrom(log[..|log| - 1], from) + if last.time >= from then last.cost else 0
  }

  function CostBetween(log: seq<Charge>, from: nat, to: nat): nat {
    if log == [] then 0
    else
      var last := log[|log| - 1];
      CostBetween(log[..|log| - 1], from, to) + if from <= last.time <= to then last.cost else 0
  }

  lemma {:induction false} DebtCoversCost(policy: Policy, log: seq<Charge>, from: nat)
    requires policy.Gcra? && Conforming(policy, log)
    ensures CostFrom(log, from) == 0
            || VirtualTat(policy, log) >= from * policy.quota + CostFrom(log, from) * policy.period
  {
    if log != [] {
      var rest, last := log[..|log| - 1], log[|log| - 1];
      DebtCoversCost(policy, rest, from);
      if last.time >= from {
        MulMonotone(from, last.time, policy.quota);
        assert (CostFrom(rest, from) + last.cost) * policy.period ==
               CostFrom(rest, from) * policy.period + last.cost * policy.period;
      } else {
        NothingLater(policy, log, from);
      }
    }
  }

  lemma {:induction false} NothingLater(policy: Policy, log: seq<Charge>, from: nat)
    requires policy.Gcra? && Conforming(policy, log) && EndOf(log) < from
    ensures CostFrom(log, from) == 0
  {
    if log != [] { NothingLater(policy, log[..|log| - 1], from); }
  }

  lemma {:induction false} AllBefore(policy: Policy, log: seq<Charge>, from: nat, to: nat)
    requires policy.Gcra? && Conforming(policy, log) && EndOf(log) <= to
    ensures CostBetween(log, from, to) == CostFrom(log, from)
  {
    if log != [] { AllBefore(policy, log[..|log| - 1], from, to); }
  }

  /** The quota bound: between any two instants the admitted cost is at most one
      burst plus what the quota replenishes in between. */
  lemma {:induction false} QuotaBound(policy: Policy, log: seq<Charge>, from: nat, to: nat)
    requires policy.Gcra? && Conforming(policy, log) && from <= to
    ensures CostBetween(log, from, to) * policy.period <= policy.burst * policy.period + (to - from) * policy.quota
  {
    assert (to - from) * policy.quota == to * policy.quota - from * policy.quota;
    MulMonotone(from, to, policy.quota);
    if log == [] {
    } else if EndOf(log) > to {
      QuotaBound(policy, log[..|log| - 1], from, to);
    } else {
      AllBefore(policy, log, from, to);
      DebtCoversCost(policy, log, from);
      MulMonotone(EndOf(log), to, policy.quota);
    }
  }

  /** The reference bucket, full at time zero, driven by the log alone. */
  function BucketAfter(policy: Policy, log: seq<Charge>): (b: Bucket)
    requires ValidPolicy(policy) && policy.Gcra? && Conforming(policy, log)
    ensures b.tokens <= Full(policy) && b.last == EndOf(log)
  {
    if log == [] then Bucket(Full(policy), 0)
    else Draw(policy, BucketAfter(policy, log[..|log| - 1]), EndOf(log), log[|log| - 1].cost).0
  }

  lemma {:induction false} RefillFollowsDebt(policy: Policy, tat: nat, at: nat, now: nat)
    requires policy.Gcra? && Reachable(policy, Some(tat), at) && at <= now
    ensures Reachable(policy, Some(tat), now)
    ensures Refill(policy, BucketOf(policy, Some(tat), at), now) == BucketOf(policy, Some(tat), now)
  {
    MulMonotone(at, now, policy.quota);
    assert (now - at) * policy.quota == now * policy.quota - at * policy.quota;
  }

  /** Refilled to any later instant, the bucket of the log is the bucket of the
      log's arrival time. */
  lemma {:induction false} BucketFollowsLog(policy: Policy, log: seq<Charge>, now: nat)
    requires ValidPolicy(policy) && policy.Gcra? && Conforming(policy, log) && EndOf(log) <= now
    ensures Reachable(policy, Some(VirtualTat(policy, log)), now)
    ensures Refill(policy, BucketAfter(policy, log), now) == BucketOf(policy, Some(VirtualTat(policy, log)), now)
    ensures log != [] ==>
            Draw(policy, BucketAfter(policy, log[..|log| - 1]), EndOf(log), log[|log| - 1].cost).1.Granted?
  {
    if log == [] {
      assert Refill(policy, Bucket(Full(policy), 0), now).tokens == Full(policy);
    } else {
      var rest, end, cost := log[..|log| - 1], EndOf(log), log[|log| - 1].cost;
      var before := VirtualTat(policy, rest);
      BucketFollowsLog(policy, rest, end);
      TakeFollowsCharge(policy, before, end, cost);
      RefillFollowsDebt(policy, VirtualTat(policy, log), end, now);
    }
  }

  lemma {:induction false} TakeFollowsCharge(policy: Policy, tat: nat, now: nat, cost: nat)
    requires ValidPolicy(policy) && policy.Gcra? && Reachable(policy, Some(tat), now)
    requires Max(tat, now * policy.quota) + cost * policy.period <= now * policy.quota + Full(policy)
    ensures var after := Max(tat, now * policy.quota) + cost * policy.period;
            var (bucket, answer) := Take(policy, BucketOf(policy, Some(tat), now), cost * policy.period);
            Reachable(policy, Some(after), now) && answer.Granted? && bucket == BucketOf(policy, Some(after), now)
  {
    hide Full, Take;
    TakeExactly(policy, Debt(policy, Some(tat), now), now, cost * policy.period);
  }
}

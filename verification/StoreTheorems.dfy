/** Properties of the simple store: what a storage denial means, and that an
    admitted batch is its checks taken one by one. */
module StoreTheorems {
  import opened Basics
  import opened Policies
  import opened Batches
  import opened GcraEvaluator
  import opened Counters

  predicate AllAdmitted(r: Round, n: nat)
    requires r.Valid() && n <= |r.checks|
  {
    forall i | 0 <= i < n :: r.verdicts[i].Admit?
  }

  lemma {:induction false} KeyAmong(r: Round, n: nat, s: nat, key: CounterKey)
    requires r.Valid() && n <= |r.checks| && key in r.Keys(n, s)
    ensures exists i | 0 <= i < n :: r.Shard(i) == s && r.checks[i].key == key
  {
    if key in r.Keys(n - 1, s) { KeyAmong(r, n - 1, s, key); }
  }

  lemma {:induction false} FreshKey(r: Round, i: nat, s: nat)
    requires r.Valid() && i < |r.checks| && SoundUpTo(r.checks, |r.checks|)
    ensures r.checks[i].key !in r.Keys(i, s)
  {
    if r.checks[i].key in r.Keys(i, s) { KeyAmong(r, i, s, r.checks[i].key); }
  }

  lemma {:induction false} KeysGrow(r: Round, m: nat, n: nat, s: nat)
    requires r.Valid() && m <= n <= |r.checks|
    ensures r.Keys(m, s) <= r.Keys(n, s)
  {
    if m < n { KeysGrow(r, m, n - 1, s); }
  }

  lemma {:induction false} ChargedKeys(r: Round, n: nat, s: nat)
    requires r.Valid() && s < |r.store| && n <= |r.checks| && AllAdmitted(r, n)
    ensures r.ActiveAfter(n, s).Keys == r.store[s].active.Keys + r.Keys(n, s)
  {
    if n > 0 { ChargedKeys(r, n - 1, s); }
  }

  /** Charging writes each member's own counter and no other. */
  lemma {:induction false} ChargedElsewhere(r: Round, n: nat, s: nat, key: CounterKey)
    requires r.Valid() && s < |r.store| && n <= |r.checks| && key !in r.Keys(n, s)
    ensures Lookup(r.ActiveAfter(n, s), key) == Lookup(r.store[s].active, key)
  {
    if n > 0 { ChargedElsewhere(r, n - 1, s, key); }
  }

  lemma {:induction false} ChargedOwn(r: Round, n: nat, i: nat)
    requires r.Valid() && i < n <= |r.checks| && AllAdmitted(r, n) && SoundUpTo(r.checks, |r.checks|)
    ensures Lookup(r.ActiveAfter(n, r.Shard(i)), r.checks[i].key) == Some(r.verdicts[i].stored)
  {
    if i < n - 1 { ChargedOwn(r, n - 1, i); }
  }

  lemma {:induction false} AddingOne(keys: set<CounterKey>, more: set<CounterKey>, key: CounterKey)
    ensures key in keys ==> keys + (more + {key}) == keys + more
    ensures |keys + (more + {key})| <= |keys + more| + 1
    ensures key !in keys && key !in more ==> |keys + (more + {key})| == |keys + more| + 1
  {
    assert keys + (more + {key}) == (keys + more) + {key};
    if key in keys { assert keys + (more + {key}) == keys + more; }
  }

  lemma {:induction false} OneMoreThanFull(keys: set<CounterKey>, before: set<CounterKey>, all: set<CounterKey>,
                                           key: CounterKey)
    requires key !in keys && key !in before && before + {key} <= all
    ensures |keys + all| > |keys + before|
  {
    AddingOne(keys, before, key);
    SubsetSize(keys + (before + {key}), keys + all);
  }

  /** A batch whose quotas all pass is stopped for storage exactly when, on some
      shard, the active counters and the batch's keys together exceed capacity. */
  lemma {:induction false} StorageDenialIsExact(r: Round)
    requires r.Valid() && SoundUpTo(r.checks, |r.checks|) && AllAdmitted(r, |r.checks|)
    requires forall s | 0 <= s < |r.store| :: |r.store[s].active| <= r.store[s].capacity
    ensures r.NoFailureBefore(|r.checks|) <==>
            forall s | 0 <= s < |r.store| :: |r.store[s].active.Keys + r.Keys(|r.checks|, s)| <= r.store[s].capacity
  {
    if i :| 0 <= i < |r.checks| && r.FailureAt(i).Some? {
      NoRoom(r, i);
    }
    if r.NoFailureBefore(|r.checks|) {
      forall s | 0 <= s < |r.store|
        ensures |r.store[s].active.Keys + r.Keys(|r.checks|, s)| <= r.store[s].capacity
      {
        RoomForAll(r, |r.checks|, s);
      }
    }
  }

  /** The slots shard `s` needs for its active counters and the first `n` checks. */
  function Needed(r: Round, n: nat, s: nat): nat
    requires r.Valid() && n <= |r.checks| && s < |r.store|
  {
    |r.store[s].active.Keys + r.Keys(n, s)|
  }

  lemma {:induction false} StorageFailureMeans(r: Round, i: nat)
    requires r.Valid() && i < |r.checks| && r.verdicts[i].Admit?
    ensures var s := r.Shard(i);
            r.FailureAt(i).Some? <==> r.checks[i].key !in r.store[s].active && Needed(r, i, s) >= r.store[s].capacity
  {
    hide RoomAfter, ShardOf, Round.Keys;
  }

  lemma {:induction false} NextKeys(r: Round, i: nat)
    requires r.Valid() && i < |r.checks|
    ensures r.Keys(i + 1, r.Shard(i)) == r.Keys(i, r.Shard(i)) + {r.checks[i].key}
  {
    hide ShardOf;
  }

  lemma {:induction false} NewKeyNeedsRoom(r: Round, i: nat)
    requires r.Valid() && i < |r.checks| && SoundUpTo(r.checks, |r.checks|)
             && r.checks[i].key !in r.store[r.Shard(i)].active
    ensures Needed(r, |r.checks|, r.Shard(i)) > Needed(r, i, r.Shard(i))
  {
    hide Round.Keys, ShardOf;
    var s := r.Shard(i);
    FreshKey(r, i, s);
    NextKeys(r, i);
    KeysGrow(r, i + 1, |r.checks|, s);
    OneMoreThanFull(r.store[s].active.Keys, r.Keys(i, s), r.Keys(|r.checks|, s), r.checks[i].key);
  }

  lemma {:induction false} NoRoom(r: Round, i: nat)
    requires r.Valid() && i < |r.checks| && SoundUpTo(r.checks, |r.checks|)
    requires r.verdicts[i].Admit? && r.FailureAt(i).Some?
    ensures var s := r.Shard(i);
            |r.store[s].active.Keys + r.Keys(|r.checks|, s)| > r.store[s].capacity
  {
    hide Round.FailureAt, Round.Keys, ShardOf, Needed;
    StorageFailureMeans(r, i);
    NewKeyNeedsRoom(r, i);
    NeededMeans(r, |r.checks|, r.Shard(i));
  }

  lemma {:induction false} NeededMeans(r: Round, n: nat, s: nat)
    requires r.Valid() && n <= |r.checks| && s < |r.store|
    ensures Needed(r, n, s) == |r.store[s].active.Keys + r.Keys(n, s)|
  {
  }

  lemma {:induction false} OneMoreFits(keys: set<CounterKey>, before: set<CounterKey>, key: CounterKey, capacity: nat)
    requires |keys + before| <= capacity && (key in keys || |keys + before| < capacity)
    ensures |keys + (before + {key})| <= capacity
  {
    AddingOne(keys, before, key);
  }

  lemma {:induction false} OtherShardKeys(r: Round, i: nat, s: nat)
    requires r.Valid() && i < |r.checks|
    ensures r.Shard(i) != s ==> r.Keys(i + 1, s) == r.Keys(i, s)
  {
    hide ShardOf;
  }

  lemma {:induction false} RoomForAll(r: Round, n: nat, s: nat)
    requires r.Valid() && s < |r.store| && n <= |r.checks| && AllAdmitted(r, n) && r.NoFailureBefore(n)
    requires |r.store[s].active| <= r.store[s].capacity
    ensures |r.store[s].active.Keys + r.Keys(n, s)| <= r.store[s].capacity
  {
    hide Round.FailureAt, Round.Keys, ShardOf, Needed;
    var keys := r.store[s].active.Keys;
    if n == 0 {
      NoKeysYet(r, s);
      assert keys + {} == keys;
    } else {
      RoomForAll(r, n - 1, s);
      assert r.FailureAt(n - 1).None?;
      StorageFailureMeans(r, n - 1);
      NeededMeans(r, n - 1, s);
      OtherShardKeys(r, n - 1, s);
      NextKeys(r, n - 1);
      if r.Shard(n - 1) == s { OneMoreFits(keys, r.Keys(n - 1, s), r.checks[n - 1].key, r.store[s].capacity); }
    }
  }

  lemma {:induction false} NoKeysYet(r: Round, s: nat)
    requires r.Valid()
    ensures r.Keys(0, s) == {}
  {
  }

  /** One check against the store that owns its shard. */
  ghost function CheckIn(store: Store, hash: Router, check: Check, observed: nat):
    (Store, Result<Decision, ArithmeticOverflow>)
    requires |store| > 0 && ValidCheck(check)
  {
    var s := ShardOf(hash, |store|, check.key);
    var (c, answer) := CheckOne(store[s], check, observed);
    (store[s := c], answer)
  }

  ghost function CheckEach(store: Store, hash: Router, checks: seq<Check>, observed: nat, n: nat)
    : (r: (Store, seq<Result<Decision, ArithmeticOverflow>>))
    requires |store| > 0 && n <= |checks| && AllValid(checks)
    ensures |r.0| == |store| && |r.1| == n
  {
    if n == 0 then (store, [])
    else
      var (t, answers) := CheckEach(store, hash, checks, observed, n - 1);
      var (u, answer) := CheckIn(t, hash, checks[n - 1], observed);
      (u, answers + [answer])
  }

  lemma {:induction false} AdmittedOutlives(check: Check, now: nat, active: Option<Stored>)
    requires ValidCheck(check) && active == Alive(active, now)
    requires Judge(check, now, active).Admit?
    ensures Judge(check, now, active).stored.expiresAt > now
  {
    if check.policy.Gcra? {
      MulMonotone(1, check.cost, check.policy.period);
      GcraOutlives(check.policy, check.cost * check.policy.period, now,
                   if active.Some? then Some(active.value.value) else None, check.cost);
    }
  }

  lemma {:induction false} GcraOutlives(policy: Policy, increment: nat, now: nat, tat: Option<nat>, cost: nat)
    requires policy.Gcra? && policy.quota > 0 && policy.period > 0
    requires increment == cost * policy.period > 0
    ensures var e := Evaluate(policy, cost, now, tat);
            e.Ok? && e.value.Admissible? ==> e.value.pending.expiresAt > now
  {
    var scaled := now * policy.quota;
    var e := Decide(policy, now, scaled, increment, policy.burst * policy.period, tat);
    if e.Ok? && e.value.Admissible? {
      DivCeilIff(e.value.pending.tat - scaled, policy.quota, 0);
    }
  }

  ghost predicate Fresh(c: Counters) {
    forall k | k in c.active :: c.active[k].expiresAt > c.latest
  }

  lemma {:induction false} NowCoversTouched(store: Store, hash: Router, checks: seq<Check>, n: nat, observed: nat,
                                            s: nat)
    requires |store| > 0 && n <= |checks| && s < |store| && CountOn(hash, |store|, checks, n, s) > 0
    ensures BatchNow(store, hash, checks, n, observed) >= store[s].latest
  {
    if CountOn(hash, |store|, checks, n - 1, s) > 0 { NowCoversTouched(store, hash, checks, n - 1, observed, s); }
  }

  lemma {:induction false} TargetIsCounted(hash: Router, shards: nat, checks: seq<Check>, n: nat, i: nat)
    requires shards > 0 && i < n <= |checks|
    ensures CountOn(hash, shards, checks, n, ShardOf(hash, shards, checks[i].key)) > 0
  {
    if i < n - 1 { TargetIsCounted(hash, shards, checks, n - 1, i); }
  }

  predicate Touched(r: Round, n: nat, s: nat)
    requires r.Valid() && n <= |r.checks|
  {
    CountOn(r.hash, |r.store|, r.checks, n, s) > 0
  }

  /** The round's shards are the store's touched shards at the round's clock
      value, and what it admits outlives that instant. */
  ghost predicate Prepared(r: Round, store: Store) {
    && r.Valid() && |store| == |r.store| && SoundUpTo(r.checks, |r.checks|) && AllValid(r.checks)
    && (forall s | 0 <= s < |store| && Touched(r, |r.checks|, s) ::
          r.store[s] == Advance(store[s], r.now) && store[s].latest <= r.now)
    && (forall i | 0 <= i < |r.checks| && r.verdicts[i].Admit? :: r.verdicts[i].stored.expiresAt > r.now)
  }

  ghost predicate Judged(r: Round, store: Store) {
    && r.Valid() && |store| == |r.store| && AllValid(r.checks)
    && forall i | 0 <= i < |r.checks| ::
         r.verdicts[i] == Judge(r.checks[i], r.now, Alive(Lookup(store[r.Shard(i)].active, r.checks[i].key), r.now))
  }

  lemma {:induction false} NewRoundIsPrepared(store: Store, hash: Router, checks: seq<Check>, observed: nat)
    requires |store| > 0 && AllValid(checks) && SoundUpTo(checks, |checks|)
    ensures Prepared(NewRound(store, hash, checks, observed), store)
    ensures Judged(NewRound(store, hash, checks, observed), store)
  {
    hide Judge;
    var r := NewRound(store, hash, checks, observed);
    forall s | 0 <= s < |store| && Touched(r, |checks|, s) ensures store[s].latest <= r.now {
      NowCoversTouched(store, hash, checks, |checks|, observed, s);
    }
    forall i | 0 <= i < |checks| && r.verdicts[i].Admit? ensures r.verdicts[i].stored.expiresAt > r.now {
      AdmittedOutlives(checks[i], r.now, Alive(Lookup(store[r.Shard(i)].active, checks[i].key), r.now));
    }
  }

  /** A touched shard of a round holds only counters alive at its clock value. */
  lemma {:induction false} ChargedFresh(r: Round, store: Store, n: nat, s: nat)
    requires Prepared(r, store) && n <= |r.checks| && s < |store| && Touched(r, |r.checks|, s)
    ensures Fresh(r.ShardAfter(n, s)) && r.ShardAfter(n, s).latest == r.now
  {
    if n > 0 { ChargedFresh(r, store, n - 1, s); }
  }

  lemma {:induction false} ChargedUntouched(r: Round, n: nat, s: nat)
    requires r.Valid() && s < |r.store| && n <= |r.checks| && !Touched(r, n, s)
    ensures r.ActiveAfter(n, s) == r.store[s].active
  {
    if n > 0 { ChargedUntouched(r, n - 1, s); }
  }

  lemma {:induction false} NoFailureAdmits(r: Round, n: nat)
    requires r.Valid() && n <= |r.checks| && r.NoOverflow() && r.NoFailureBefore(n)
    ensures AllAdmitted(r, n)
  {
    forall i | 0 <= i < n ensures r.verdicts[i].Admit? {
      assert r.FailureAt(i).None?;
    }
  }

  /** `t` is the store in which only the first `n` checks of the round were taken. */
  ghost predicate TakenSoFar(r: Round, store: Store, n: nat, t: Store)
    requires r.Valid() && |store| == |r.store| && n <= |r.checks|
  {
    && |t| == |store|
    && forall s | 0 <= s < |store| :: t[s] == if Touched(r, n, s) then r.ShardAfter(n, s) else store[s]
  }

  /** How a single answer corresponds to a batch failure. */
  predicate SameReason(check: Check, failure: Failure, answer: Result<Decision, ArithmeticOverflow>) {
    match failure
    case QuotaFailure(denial) => answer == Ok(QuotaDecision(check, denial))
    case StorageFailure(_) => answer.Ok? && answer.value.Denied? && answer.value.denial.StorageCapacity?
  }

  lemma {:induction false} SettleMatches(r: Round, i: nat, before: Counters)
    requires r.Valid() && i < |r.checks| && r.NoOverflow() && SoundUpTo(r.checks, |r.checks|) && AllAdmitted(r, i)
    requires Advance(before, r.now) == r.ShardAfter(i, r.Shard(i))
    ensures var (d, answer) := Settle(before, r.checks[i], r.verdicts[i], r.now);
            match r.FailureAt(i)
            case None => answer == Ok(Allowed(r.verdicts[i].allowance)) && d == r.ShardAfter(i + 1, r.Shard(i))
            case Some(failure) => SameReason(r.checks[i], failure, answer)
  {
    var c := r.ShardAfter(i, r.Shard(i));
    ChargedKeys(r, i, r.Shard(i));
    FreshKey(r, i, r.Shard(i));
    assert |c.active| == |c.active.Keys|;
  }

  /** The single check at index `i`, after the `i` before it were taken. */
  lemma {:induction false} SingleStep(r: Round, store: Store, i: nat, t: Store)
    requires Prepared(r, store) && Judged(r, store) && i < |r.checks| && r.NoOverflow() && r.NoFailureBefore(i)
    requires TakenSoFar(r, store, i, t)
    ensures var (u, answer) := CheckIn(t, r.hash, r.checks[i], r.now);
            match r.FailureAt(i)
            case None =>
              && answer == Ok(Allowed(r.verdicts[i].allowance))
              && u == t[r.Shard(i) := r.ShardAfter(i + 1, r.Shard(i))]
              && TakenSoFar(r, store, i + 1, u)
            case Some(failure) => SameReason(r.checks[i], failure, answer)
  {
    hide Judge, Settle;
    var s, key := r.Shard(i), r.checks[i].key;
    NoFailureAdmits(r, i);
    TargetIsCounted(r.hash, |r.store|, r.checks, |r.checks|, i);
    ChargedFresh(r, store, i, s);
    FreshKey(r, i, s);
    ChargedElsewhere(r, i, s, key);
    if !Touched(r, i, s) { ChargedUntouched(r, i, s); }
    assert Advance(t[s], r.now) == r.ShardAfter(i, s) by {
      if Touched(r, i, s) { assert Active(t[s].active, r.now) == t[s].active; }
    }
    assert Max(r.now, t[s].latest) == r.now;
    AliveInBoth(store[s].active, t[s].active, key, r.now, r.store[s].active);
    SettleMatches(r, i, t[s]);
    TakenStep(r, store, i, t);
  }

  lemma {:induction false} AliveInBoth(before: Entries, after: Entries, key: CounterKey, now: nat, active: Entries)
    requires active == Active(before, now) && Lookup(Active(after, now), key) == Lookup(active, key)
    ensures Alive(Lookup(after, key), now) == Alive(Lookup(before, key), now)
  {
    assert Lookup(Active(after, now), key) == Alive(Lookup(after, key), now);
    assert Lookup(Active(before, now), key) == Alive(Lookup(before, key), now);
  }

  lemma {:induction false} TakenStep(r: Round, store: Store, i: nat, t: Store)
    requires r.Valid() && |store| == |r.store| && i < |r.checks| && TakenSoFar(r, store, i, t)
    ensures TakenSoFar(r, store, i + 1, t[r.Shard(i) := r.ShardAfter(i + 1, r.Shard(i))])
  {
  }

  /** Taken singly at the batch's clock value, the checks before the first
      failure are allowed with the same allowances and leave the same store, and
      the first failing check is denied for the same reason. */
  lemma {:induction false} BatchIsSequential(r: Round, store: Store, n: nat)
    requires Prepared(r, store) && Judged(r, store) && n <= |r.checks| && r.NoOverflow() && r.NoFailureBefore(n)
    ensures var (t, answers) := CheckEach(store, r.hash, r.checks, r.now, n);
            && (forall i | 0 <= i < n :: r.verdicts[i].Admit? && answers[i] == Ok(Allowed(r.verdicts[i].allowance)))
            && TakenSoFar(r, store, n, t)
            && (n < |r.checks| && r.FailureAt(n).Some? ==>
                  SameReason(r.checks[n], r.FailureAt(n).value, CheckIn(t, r.hash, r.checks[n], r.now).1))
  {
    hide Judge, CheckIn, TakenSoFar, SameReason, Judged, Round.FailureAt, Round.NoOverflow;
    NoFailureAdmits(r, n);
    var t := CheckEach(store, r.hash, r.checks, r.now, n).0;
    if n == 0 {
      StartsUntouched(r, store);
    } else {
      BatchIsSequential(r, store, n - 1);
      assert r.FailureAt(n - 1).None?;
      SingleStep(r, store, n - 1, CheckEach(store, r.hash, r.checks, r.now, n - 1).0);
    }
    if n < |r.checks| { SingleStep(r, store, n, t); }
  }

  lemma {:induction false} StartsUntouched(r: Round, store: Store)
    requires r.Valid() && |store| == |r.store|
    ensures TakenSoFar(r, store, 0, store)
  {
  }

  lemma {:induction false} AllTaken(r: Round, store: Store, t: Store)
    requires r.Valid() && |store| == |r.store| && TakenSoFar(r, store, |r.checks|, t)
    requires forall s | 0 <= s < |store| && !Touched(r, |r.checks|, s) :: r.store[s] == store[s]
    ensures t == r.Charged(|r.checks|)
  {
    forall s | 0 <= s < |store| ensures t[s] == r.ShardAfter(|r.checks|, s) {
      if !Touched(r, |r.checks|, s) { ChargedUntouched(r, |r.checks|, s); }
    }
  }

  /** An allowed batch is its checks taken singly in caller order at the batch's
      clock value: the same allowances and the same store. */
  lemma {:induction false} AllowedBatchIsSingles(store: Store, hash: Router, maximum: nat, checks: seq<Check>,
                                                 observed: nat, after: Store, decision: BatchDecision)
    requires |store| > 0 && AllValid(checks)
    requires CheckMany(store, hash, maximum, checks, observed, after, Ok(decision)) && decision.AllAllowed?
    ensures var now := BatchNow(store, hash, checks, |checks|, observed);
            var (t, answers) := CheckEach(store, hash, checks, now, |checks|);
            && t == after && |decision.allowances| == |checks|
            && forall i | 0 <= i < |checks| :: answers[i] == Ok(Allowed(decision.allowances[i]))
  {
    hide Judge, CheckIn, Judged, Prepared, CheckEach;
    var r := NewRound(store, hash, checks, observed);
    NewRoundIsPrepared(store, hash, checks, observed);
    BatchIsSequential(r, store, |checks|);
    AllTaken(r, store, CheckEach(store, hash, checks, r.now, |checks|).0);
  }

  /** The failure a denied batch reports. */
  function FailureOf(decision: BatchDecision): Failure
    requires !decision.AllAllowed?
  {
    match decision
    case BatchShadowDenied(_, _, quota) => QuotaFailure(quota)
    case BatchDenied(_, _, QuotaExceeded(quota)) => QuotaFailure(quota)
    case BatchDenied(_, _, StorageCapacity(retry)) => StorageFailure(retry)
  }

  lemma {:induction false} DeniedRound(store: Store, hash: Router, checks: seq<Check>, observed: nat, after: Store,
                    decision: BatchDecision)
    returns (r: Round)
    requires |store| > 0 && AllValid(checks) && NewRound(store, hash, checks, observed).Outcome(after, decision)
    requires !decision.AllAllowed?
    ensures r == NewRound(store, hash, checks, observed) && after == r.store
    ensures decision.index < |checks| && decision.size == |checks|
    ensures r.NoFailureBefore(decision.index) && r.FailureAt(decision.index) == Some(FailureOf(decision))
  {
    hide NewRound;
    r := NewRound(store, hash, checks, observed);
  }

  /** A denied batch charges nothing, and its index is where the singles would
      first be denied, for the same reason. */
  lemma {:induction false} DeniedBatchChargesNothing(store: Store, hash: Router, maximum: nat, checks: seq<Check>,
                                                     observed: nat, after: Store, decision: BatchDecision)
    requires |store| > 0 && AllValid(checks)
    requires CheckMany(store, hash, maximum, checks, observed, after, Ok(decision)) && !decision.AllAllowed?
    ensures var now := BatchNow(store, hash, checks, |checks|, observed);
            && decision.index < |checks| && decision.size == |checks|
            && after == AdvanceTouched(store, hash, checks, now)
            && var (t, answers) := CheckEach(store, hash, checks, now, decision.index);
            && (forall i | 0 <= i < decision.index :: answers[i].Ok? && answers[i].value.Allowed?)
            && SameReason(checks[decision.index], FailureOf(decision), CheckIn(t, hash, checks[decision.index], now).1)
  {
    hide Judge, CheckIn, Judged, Prepared, CheckEach, SameReason, TakenSoFar, FailureOf;
    var r := DeniedRound(store, hash, checks, observed, after, decision);
    NewRoundIsPrepared(store, hash, checks, observed);
    BatchIsSequential(r, store, decision.index);
  }

  lemma {:induction false} FirstSettles(r: Round, before: Counters)
    requires r.Valid() && |r.checks| > 0 && r.NoOverflow() && Advance(before, r.now) == r.store[r.Shard(0)]
    ensures Settle(before, r.checks[0], r.verdicts[0], r.now) ==
            match r.FailureAt(0)
            case None => (r.ShardAfter(1, r.Shard(0)), Ok(Allowed(r.verdicts[0].allowance)))
            case Some(QuotaFailure(denial)) => (r.store[r.Shard(0)], Ok(QuotaDecision(r.checks[0], denial)))
            case Some(StorageFailure(retry)) => (r.store[r.Shard(0)], Ok(Denied(StorageCapacity(retry))))
  {
    var active := r.store[r.Shard(0)].active;
    assert active.Keys + r.Keys(0, r.Shard(0)) == active.Keys && |active| == |active.Keys|;
    assert r.ActiveAfter(0, r.Shard(0)) == active;
  }

  lemma {:induction false} RoundOfOne(store: Store, hash: Router, check: Check, observed: nat)
    requires |store| > 0 && ValidCheck(check)
    ensures var r := NewRound(store, hash, [check], observed);
            var s := ShardOf(hash, |store|, check.key);
            && r.Shard(0) == s && r.now == Max(observed, store[s].latest)
            && r.store == store[s := Advance(store[s], r.now)]
            && r.Charged(1) == store[s := r.ShardAfter(1, s)]
  {
    hide Judge;
    var r := NewRound(store, hash, [check], observed);
    var s := ShardOf(hash, |store|, check.key);
    assert BatchNow(store, hash, [check], 0, observed) == observed;
    forall u | 0 <= u < |store|
      ensures r.store[u] == if u == s then Advance(store[s], r.now) else store[u]
      ensures u != s ==> r.ShardAfter(1, u) == store[u]
    {
      assert CountOn(hash, |store|, [check], 0, u) == 0;
      assert r.ActiveAfter(0, u) == r.store[u].active;
    }
  }

  /** A batch of one is the single check, to the last delay. */
  lemma {:induction false} BatchOfOneIsSingle(store: Store, hash: Router, maximum: nat, check: Check, observed: nat,
                                              after: Store, decision: BatchDecision)
    requires |store| > 0 && ValidCheck(check)
    requires CheckMany(store, hash, maximum, [check], observed, after, Ok(decision))
    ensures CheckIn(store, hash, check, observed) ==
            (after, Ok(match decision
                       case AllAllowed(allowances) =>
                         if |allowances| == 1 then Allowed(allowances[0]) else Denied(StorageCapacity(None))
                       case BatchDenied(_, _, denial) => Denied(denial)
                       case BatchShadowDenied(_, _, quota) => ShadowDenied(quota)))
  {
    hide Judge, Settle;
    var r := NewRound(store, hash, [check], observed);
    RoundOfOne(store, hash, check, observed);
    FirstSettles(r, store[r.Shard(0)]);
    assert r.NoFailureBefore(1) <==> r.FailureAt(0).None?;
  }
}

/** The simple store both memory backends refine: each shard is a map of exactly
    the active counters, with no expiry index and no bounded cleanup. */
module Counters {
  import opened Basics
  import opened Policies
  import opened Batches
  import opened GcraEvaluator

  /** A stored counter: usage for a fixed window, scaled arrival time for GCRA. */
  datatype Stored = Stored(value: nat, expiresAt: nat)

  type Entries = map<CounterKey, Stored>

  datatype Counters = Counters(capacity: nat, latest: nat, active: Entries)

  datatype Verdict = Admit(stored: Stored, allowance: Allowance) | Refuse(denial: QuotaDenial) | Overflow

  function Lookup(entries: Entries, key: CounterKey): Option<Stored> {
    if key in entries then Some(entries[key]) else None
  }

  function Alive(stored: Option<Stored>, now: nat): Option<Stored> {
    if stored.Some? && stored.value.expiresAt > now then stored else None
  }

  function Active(entries: Entries, now: nat): Entries {
    map k | k in entries && entries[k].expiresAt > now :: entries[k]
  }

  lemma {:induction false} ActiveTwice(entries: Entries, earlier: nat, later: nat)
    requires earlier <= later
    ensures Active(Active(entries, earlier), later) == Active(entries, later)
  {
  }

  /** The quota decision of one check against its active counter. */
  function Judge(check: Check, now: nat, active: Option<Stored>): Verdict
    requires ValidCheck(check)
  {
    match check.policy
    case FixedWindow(limit, window) => JudgeWindow(limit, window, check.cost, now, active)
    case Gcra(_, _, _) => JudgeGcra(check.policy, check.cost, now, active)
  }

  function JudgeWindow(limit: nat, window: nat, cost: nat, now: nat, active: Option<Stored>): Verdict {
    match active
    case None => Admit(Stored(cost, now + window), Allowance(limit, Monus(limit, cost), window))
    case Some(entry) =>
      var remaining := Monus(limit, entry.value);
      if cost > remaining then Refuse(QuotaDenial(limit, Monus(entry.expiresAt, now)))
      else Admit(entry.(value := entry.value + cost), Allowance(limit, remaining - cost, Monus(entry.expiresAt, now)))
  }

  function JudgeGcra(policy: Policy, cost: nat, now: nat, active: Option<Stored>): Verdict
    requires policy.Gcra? && policy.quota > 0 && policy.period > 0
  {
    match Evaluate(policy, cost, now, if active.Some? then Some(active.value.value) else None)
    case Err(_) => Overflow
    case Ok(Refused(denial)) => Refuse(denial)
    case Ok(Admissible(p)) => Admit(Stored(p.tat, p.expiresAt), p.allowance)
  }

  function QuotaDecision(check: Check, denial: QuotaDenial): Decision {
    if check.mode == Shadow then ShadowDenied(denial) else Denied(QuotaExceeded(denial))
  }

  ghost predicate IsEarliest(entries: Entries, t: nat) {
    && (exists k | k in entries :: entries[k].expiresAt == t)
    && (forall k | k in entries :: t <= entries[k].expiresAt)
  }

  lemma {:induction false} EarliestExists(entries: Entries)
    requires entries != map[]
    ensures exists t: nat :: IsEarliest(entries, t)
  {
    var k :| k in entries;
    var rest := entries - {k};
    if rest == map[] {
      assert forall j | j in entries :: j != k ==> j in rest;
      assert IsEarliest(entries, entries[k].expiresAt);
    } else {
      EarliestExists(rest);
      var t: nat :| IsEarliest(rest, t);
      var least: nat := Min(t, entries[k].expiresAt);
      assert exists j | j in entries :: entries[j].expiresAt == least by {
        var j :| j in rest && rest[j].expiresAt == t;
        assert entries[j].expiresAt == t;
      }
      forall j | j in entries ensures least <= entries[j].expiresAt {
        if j != k { assert j in rest; }
      }
      assert IsEarliest(entries, least);
    }
  }

  /** Time until the earliest of the counters that fill a shard expires. */
  ghost function RoomAfter(entries: Entries, now: nat): (delay: Option<nat>)
    ensures delay.None? <==> entries == map[]
    ensures delay.Some? ==> exists t: nat :: IsEarliest(entries, t) && delay.value == Monus(t, now)
  {
    if entries == map[] then None
    else
      EarliestExists(entries);
      var t: nat :| IsEarliest(entries, t);
      Some(Monus(t, now))
  }

  function Advance(c: Counters, now: nat): Counters {
    c.(latest := now, active := Active(c.active, now))
  }

  /** One check against one shard, given its verdict at `now`. */
  ghost function Settle(c: Counters, check: Check, verdict: Verdict, now: nat):
    (Counters, Result<Decision, ArithmeticOverflow>) {
    var t := Advance(c, now);
    match verdict
    case Overflow => (c, Err(ArithmeticOverflow))
    case Refuse(denial) => (t, Ok(QuotaDecision(check, denial)))
    case Admit(stored, allowance) =>
      if check.key !in t.active && |t.active| >= t.capacity then
        (t, Ok(Denied(StorageCapacity(RoomAfter(t.active, now)))))
      else
        (t.(active := t.active[check.key := stored]), Ok(Allowed(allowance)))
  }

  ghost function CheckOne(c: Counters, check: Check, observed: nat): (Counters, Result<Decision, ArithmeticOverflow>)
    requires ValidCheck(check)
  {
    var now := Max(observed, c.latest);
    Settle(c, check, Judge(check, now, Alive(Lookup(c.active, check.key), now)), now)
  }

  type Router = CounterKey -> nat

  type Store = seq<Counters>

  function ShardOf(hash: Router, n: nat, key: CounterKey): (s: nat)
    requires n > 0
    ensures s < n
  {
    hash(key) % n
  }

  predicate AllValid(checks: seq<Check>) { forall i | 0 <= i < |checks| :: ValidCheck(checks[i]) }

  datatype Failure = QuotaFailure(denial: QuotaDenial) | StorageFailure(retryAfter: Option<nat>)

  /** A batch on its touched shards, advanced to one clock value, with the quota
      verdict of every check. */
  datatype Round = Round(hash: Router, store: Store, checks: seq<Check>, verdicts: seq<Verdict>, now: nat) {
    predicate Valid() { |store| > 0 && |verdicts| == |checks| }

    function Shard(i: nat): (s: nat)
      requires Valid() && i < |checks|
      ensures s < |store|
    {
      ShardOf(hash, |store|, checks[i].key)
    }

    /** The keys of the first `n` checks that live on shard `s`. */
    function Keys(n: nat, s: nat): set<CounterKey>
      requires Valid() && n <= |checks|
    {
      if n == 0 then {}
      else Keys(n - 1, s) + if Shard(n - 1) == s then {checks[n - 1].key} else {}
    }

    /** Why the check at index `i` stops the batch, if it does: its quota, or the
        room left on its shard by the active counters and the batch before it. */
    ghost function FailureAt(i: nat): Option<Failure>
      requires Valid() && i < |checks|
    {
      var c := store[Shard(i)];
      match verdicts[i]
      case Overflow => None
      case Refuse(denial) => Some(QuotaFailure(denial))
      case Admit(_, _) =>
        if checks[i].key !in c.active && |c.active.Keys + Keys(i, Shard(i))| >= c.capacity
        then Some(StorageFailure(RoomAfter(c.active, now)))
        else None
    }

    ghost predicate NoFailureBefore(n: nat)
      requires Valid() && n <= |checks|
    {
      forall i | 0 <= i < n :: FailureAt(i).None?
    }

    predicate NoOverflow()
      requires Valid()
    {
      forall i | 0 <= i < |checks| :: !verdicts[i].Overflow?
    }

    /** Shard `s` after the first `n` checks have been charged. */
    function ActiveAfter(n: nat, s: nat): Entries
      requires Valid() && n <= |checks| && s < |store|
    {
      if n == 0 then store[s].active
      else if Shard(n - 1) == s && verdicts[n - 1].Admit? then
        ActiveAfter(n - 1, s)[checks[n - 1].key := verdicts[n - 1].stored]
      else ActiveAfter(n - 1, s)
    }

    function ShardAfter(n: nat, s: nat): Counters
      requires Valid() && n <= |checks| && s < |store|
    {
      store[s].(active := ActiveAfter(n, s))
    }

    function Charged(n: nat): (t: Store)
      requires Valid() && n <= |checks|
      ensures |t| == |store|
    {
      seq(|store|, s requires 0 <= s < |store| => ShardAfter(n, s))
    }

    function FailureDecision(i: nat, failure: Failure): BatchDecision
      requires i < |checks|
    {
      match failure
      case StorageFailure(retry) => BatchDenied(i, |checks|, StorageCapacity(retry))
      case QuotaFailure(denial) =>
        if checks[i].mode == Shadow then BatchShadowDenied(i, |checks|, denial)
        else BatchDenied(i, |checks|, QuotaExceeded(denial))
    }

    /** The first failing index decides; otherwise every check is charged. */
    ghost predicate Outcome(after: Store, answer: BatchDecision)
      requires Valid()
    {
      if NoFailureBefore(|checks|) then
        && after == Charged(|checks|)
        && answer.AllAllowed? && |answer.allowances| == |checks|
        && forall i | 0 <= i < |checks| :: verdicts[i].Admit? && answer.allowances[i] == verdicts[i].allowance
      else
        && after == store
        && exists i | 0 <= i < |checks| ::
             && NoFailureBefore(i)
             && FailureAt(i).Some?
             && answer == FailureDecision(i, FailureAt(i).value)
    }
  }

  /** The number of the first `upTo` checks that target shard `s`. */
  function CountOn(hash: Router, n: nat, checks: seq<Check>, upTo: nat, s: nat): nat
    requires n > 0 && upTo <= |checks|
  {
    if upTo == 0 then 0
    else CountOn(hash, n, checks, upTo - 1, s) + if ShardOf(hash, n, checks[upTo - 1].key) == s then 1 else 0
  }

  /** One clock reading for the batch, clamped by every touched shard. */
  function BatchNow(store: Store, hash: Router, checks: seq<Check>, upTo: nat, observed: nat): nat
    requires |store| > 0 && upTo <= |checks|
  {
    if upTo == 0 then observed
    else Max(store[ShardOf(hash, |store|, checks[upTo - 1].key)].latest,
             BatchNow(store, hash, checks, upTo - 1, observed))
  }

  function AdvanceTouched(store: Store, hash: Router, checks: seq<Check>, now: nat): (t: Store)
    requires |store| > 0
    ensures |t| == |store|
  {
    seq(|store|, s requires 0 <= s < |store| =>
      if CountOn(hash, |store|, checks, |checks|, s) > 0 then Advance(store[s], now) else store[s])
  }

  function Verdicts(store: Store, hash: Router, checks: seq<Check>, now: nat): (v: seq<Verdict>)
    requires |store| > 0 && AllValid(checks)
    ensures |v| == |checks|
    ensures forall i | 0 <= i < |v| ::
              v[i] == Judge(checks[i], now,
                            Alive(Lookup(store[ShardOf(hash, |store|, checks[i].key)].active, checks[i].key), now))
  {
    seq(|checks|, i requires 0 <= i < |checks| =>
      Judge(checks[i], now, Alive(Lookup(store[ShardOf(hash, |store|, checks[i].key)].active, checks[i].key), now)))
  }

  function NewRound(store: Store, hash: Router, checks: seq<Check>, observed: nat): (r: Round)
    requires |store| > 0 && AllValid(checks)
    ensures r.Valid() && r.checks == checks && r.hash == hash && |r.store| == |store|
    ensures r.now == BatchNow(store, hash, checks, |checks|, observed)
  {
    var now := BatchNow(store, hash, checks, |checks|, observed);
    Round(hash, AdvanceTouched(store, hash, checks, now), checks, Verdicts(store, hash, checks, now), now)
  }

  datatype BatchFailure =
    | InvalidBatch(error: BatchError)
    | BatchExceedsShardCapacity(shard: nat, keyCount: nat, capacity: nat)
    | BatchOverflow

  predicate Overfull(store: Store, hash: Router, checks: seq<Check>, s: nat)
    requires s < |store|
  {
    CountOn(hash, |store|, checks, |checks|, s) > store[s].capacity
  }

  predicate FirstOverfull(store: Store, hash: Router, checks: seq<Check>, s: nat) {
    s < |store| && Overfull(store, hash, checks, s) && forall r | 0 <= r < s :: !Overfull(store, hash, checks, r)
  }

  /** What a batch does to the simple store, and what it answers. */
  ghost predicate CheckMany(store: Store, hash: Router, maximum: nat, checks: seq<Check>, observed: nat,
                            after: Store, answer: Result<BatchDecision, BatchFailure>)
    requires |store| > 0 && AllValid(checks)
  {
    if !WellFormedBatch(checks, maximum) then
      after == store && answer.Err? && answer.error.InvalidBatch? && Explains(answer.error.error, checks, maximum)
    else if exists s | 0 <= s < |store| :: Overfull(store, hash, checks, s) then
      && after == store
      && answer.Err? && answer.error.BatchExceedsShardCapacity?
      && var BatchExceedsShardCapacity(s, keyCount, capacity) := answer.error;
      && FirstOverfull(store, hash, checks, s)
      && keyCount == CountOn(hash, |store|, checks, |checks|, s) && capacity == store[s].capacity
    else
      var round := NewRound(store, hash, checks, observed);
      if !round.NoOverflow() then after == store && answer == Err(BatchOverflow)
      else answer.Ok? && round.Outcome(after, answer.value)
  }
}

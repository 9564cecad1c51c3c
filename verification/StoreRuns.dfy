/** Whole runs of the simple store, followed one counter at a time. */
module StoreRuns {
  import opened Basics
  import opened Policies
  import opened Batches
  import opened GcraEvaluator
  import opened GcraHistory
  import opened Counters
  import opened StoreTheorems

  datatype Op = One(check: Check, observed: nat) | Many(checks: seq<Check>, observed: nat) {
    function Checks(): seq<Check> { if One? then [check] else checks }

    predicate Valid() { if One? then ValidCheck(check) else AllValid(checks) }
  }

  datatype Answer = Single(single: Result<Decision, ArithmeticOverflow>)
    | Batch(batch: Result<BatchDecision, BatchFailure>)

  /** One public call, with whatever the clock reads. */
  ghost predicate Step(hash: Router, maximum: nat, store: Store, op: Op, after: Store, answer: Answer)
    requires |store| > 0
  {
    && op.Valid()
    && match op
       case One(check, observed) => answer.Single? && (after, answer.single) == CheckIn(store, hash, check, observed)
       case Many(checks, observed) =>
         answer.Batch? && CheckMany(store, hash, maximum, checks, observed, after, answer.batch)
  }

  predicate Admitted(answer: Answer) {
    match answer
    case Single(a) => a.Ok? && a.value.Allowed?
    case Batch(a) => a.Ok? && a.value.AllAllowed?
  }

  /** What the first `n` of some admitted checks charge to `key`. */
  function ChargesOf(checks: seq<Check>, n: nat, key: CounterKey, time: nat): seq<Charge>
    requires n <= |checks|
  {
    if n == 0 then []
    else
      ChargesOf(checks, n - 1, key, time) +
      if checks[n - 1].key == key then [Charge(time, checks[n - 1].cost)] else []
  }

  function ChargesIn(op: Op, answer: Answer, key: CounterKey, time: nat): seq<Charge> {
    if Admitted(answer) then ChargesOf(op.Checks(), |op.Checks()|, key, time) else []
  }

  /** One counter, seen from its shard. */
  datatype Lane = Lane(latest: nat, entry: Option<Stored>)

  function LaneOf(store: Store, hash: Router, key: CounterKey): Lane
    requires |store| > 0
  {
    var c := store[ShardOf(hash, |store|, key)];
    Lane(c.latest, Lookup(c.active, key))
  }

  /** What any step can do to one counter: at most drop it once expired, or
      charge it with a check its quota admitted at the new clock value. */
  ghost predicate LaneStep(op: Op, key: CounterKey, before: Lane, after: Lane, charges: seq<Charge>) {
    && before.latest <= after.latest
    && if charges == [] then after.entry == before.entry || after.entry == Alive(before.entry, after.latest)
       else
         exists i | 0 <= i < |op.Checks()| ::
           var check := op.Checks()[i];
           && check.key == key && ValidCheck(check)
           && charges == [Charge(after.latest, check.cost)]
           && var verdict := Judge(check, after.latest, Alive(before.entry, after.latest));
           && verdict.Admit? && after.entry == Some(verdict.stored)
  }

  lemma {:induction false} ChargesOfDistinct(checks: seq<Check>, n: nat, key: CounterKey, time: nat)
    requires n <= |checks| && SoundUpTo(checks, |checks|)
    ensures (forall i | 0 <= i < n :: checks[i].key != key) ==> ChargesOf(checks, n, key, time) == []
    ensures forall i | 0 <= i < n && checks[i].key == key ::
            ChargesOf(checks, n, key, time) == [Charge(time, checks[i].cost)]
  {
    if n > 0 { ChargesOfDistinct(checks, n - 1, key, time); }
  }

  lemma {:induction false} LaneFollowsSingle(hash: Router, store: Store, check: Check, observed: nat, key: CounterKey)
    requires |store| > 0 && ValidCheck(check)
    ensures var (after, answer) := CheckIn(store, hash, check, observed);
            var lane := LaneOf(after, hash, key);
            LaneStep(One(check, observed), key, LaneOf(store, hash, key), lane,
                     ChargesIn(One(check, observed), Single(answer), key, lane.latest))
  {
    hide Judge;
    var (after, answer) := CheckIn(store, hash, check, observed);
    var charges := ChargesIn(One(check, observed), Single(answer), key, LaneOf(after, hash, key).latest);
    assert ChargesOf([check], 0, key, LaneOf(after, hash, key).latest) == [];
    assert One(check, observed).Checks()[0] == check;
  }

  lemma {:induction false} LaneFollowsRound(r: Round, store: Store, op: Op, key: CounterKey)
    requires Prepared(r, store) && Judged(r, store) && AllAdmitted(r, |r.checks|) && op.Checks() == r.checks
    requires forall s | 0 <= s < |store| && !Touched(r, |r.checks|, s) :: r.store[s] == store[s]
    ensures var lane := LaneOf(r.Charged(|r.checks|), r.hash, key);
            LaneStep(op, key, LaneOf(store, r.hash, key), lane, ChargesOf(r.checks, |r.checks|, key, lane.latest))
  {
    hide Judge;
    var n, s := |r.checks|, ShardOf(r.hash, |store|, key);
    var lane := LaneOf(r.Charged(n), r.hash, key);
    ChargesOfDistinct(r.checks, n, key, lane.latest);
    if i :| 0 <= i < n && r.checks[i].key == key {
      TargetIsCounted(r.hash, |store|, r.checks, n, i);
      ChargedOwn(r, n, i);
    } else {
      if key in r.Keys(n, s) { KeyAmong(r, n, s, key); }
      ChargedElsewhere(r, n, s, key);
    }
  }

  lemma {:induction false} LaneFollowsDenial(r: Round, store: Store, op: Op, key: CounterKey)
    requires Prepared(r, store)
    requires forall s | 0 <= s < |store| && !Touched(r, |r.checks|, s) :: r.store[s] == store[s]
    ensures LaneStep(op, key, LaneOf(store, r.hash, key), LaneOf(r.store, r.hash, key), [])
  {
    var s := ShardOf(r.hash, |store|, key);
    assert Lookup(Active(store[s].active, r.now), key) == Alive(Lookup(store[s].active, key), r.now);
  }

  lemma {:induction false} LaneFollowsStep(hash: Router, maximum: nat, store: Store, op: Op, after: Store,
                                           answer: Answer, key: CounterKey)
    requires |store| > 0 && Step(hash, maximum, store, op, after, answer)
    ensures |after| == |store|
    ensures LaneStep(op, key, LaneOf(store, hash, key), LaneOf(after, hash, key),
                     ChargesIn(op, answer, key, LaneOf(after, hash, key).latest))
  {
    hide Judge, Prepared, Judged;
    match op
    case One(check, observed) =>
      LaneFollowsSingle(hash, store, check, observed, key);
    case Many(checks, observed) =>
      if answer.batch.Ok? {
        LaneFollowsBatch(hash, maximum, store, checks, observed, after, answer.batch.value, key);
      }
  }

  lemma {:induction false} LaneFollowsBatch(hash: Router, maximum: nat, store: Store, checks: seq<Check>, observed: nat,
                                            after: Store, decision: BatchDecision, key: CounterKey)
    requires |store| > 0 && AllValid(checks) && CheckMany(store, hash, maximum, checks, observed, after, Ok(decision))
    ensures |after| == |store|
    ensures LaneStep(Many(checks, observed), key, LaneOf(store, hash, key), LaneOf(after, hash, key),
                     ChargesIn(Many(checks, observed), Batch(Ok(decision)), key, LaneOf(after, hash, key).latest))
  {
    hide Judge, Prepared, Judged, LaneStep, LaneOf;
    var r := NewRound(store, hash, checks, observed);
    NewRoundIsPrepared(store, hash, checks, observed);
    if decision.AllAllowed? {
      LaneFollowsRound(r, store, Many(checks, observed), key);
    } else {
      LaneFollowsDenial(r, store, Many(checks, observed), key);
    }
  }

  datatype Event = Event(op: Op, after: Store, answer: Answer)

  ghost predicate Initial(store: Store) {
    |store| > 0 && forall s | 0 <= s < |store| :: store[s].latest == 0 && store[s].active == map[]
  }

  function StoreAfter(start: Store, run: seq<Event>): Store {
    if run == [] then start else run[|run| - 1].after
  }

  /** Any sequence of calls from an empty store, under any clock. */
  ghost predicate Run(hash: Router, maximum: nat, start: Store, run: seq<Event>)
    ensures Run(hash, maximum, start, run) ==> |StoreAfter(start, run)| == |start| > 0
  {
    if run == [] then Initial(start)
    else
      var prefix, last := run[..|run| - 1], run[|run| - 1];
      && Run(hash, maximum, start, prefix)
      && |last.after| == |start|
      && Step(hash, maximum, StoreAfter(start, prefix), last.op, last.after, last.answer)
  }

  /** Everything a run charged to one key, stamped with the logical time. */
  function Log(hash: Router, run: seq<Event>, key: CounterKey): seq<Charge>
    requires forall i | 0 <= i < |run| :: |run[i].after| > 0
  {
    if run == [] then []
    else
      var last := run[|run| - 1];
      Log(hash, run[..|run| - 1], key) + ChargesIn(last.op, last.answer, key, LaneOf(last.after, hash, key).latest)
  }

  /** A key's fingerprint half determines its policy. */
  predicate Keyed(op: Op, policyOf: CounterKey -> Policy) {
    forall i | 0 <= i < |op.Checks()| :: op.Checks()[i].policy == policyOf(op.Checks()[i].key)
  }

  predicate AllKeyed(run: seq<Event>, policyOf: CounterKey -> Policy) {
    forall i | 0 <= i < |run| :: Keyed(run[i].op, policyOf)
  }

  lemma {:induction false} RunShape(hash: Router, maximum: nat, start: Store, run: seq<Event>)
    requires Run(hash, maximum, start, run)
    ensures forall i | 0 <= i < |run| :: |run[i].after| > 0
  {
    hide Step;
    if run != [] {
      RunShape(hash, maximum, start, run[..|run| - 1]);
      assert forall i | 0 <= i < |run| - 1 :: run[..|run| - 1][i] == run[i];
    }
  }
}

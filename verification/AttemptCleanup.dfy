/** How soon the bounded cursor reclaims a quiet attempt entry, and what can
    postpone it. */
module AttemptCleanup {
  import opened Basics
  import opened MemoryAttempts

  /** The stored keys and where the sweep stands. */
  datatype Sweep = Sweep(keys: set<Key>, cursor: Option<Key>)

  datatype Call = Admission(key: Key) | Completion(key: Key)

  /** One call as the quiet entry `target` sees it: an admission sweeps at most
      sixteen keys, dropping `target` if it is among them, and may insert its own
      key; a completion may only remove its own key. */
  ghost predicate Step(before: Sweep, call: Call, after: Sweep, target: Key) {
    && call.key != target
    && match call
       case Completion(key) =>
         after.cursor == before.cursor && (after.keys == before.keys || after.keys == before.keys - {key})
       case Admission(key) =>
         && after.keys <= before.keys + {key}
         && exists batch: seq<Key> ::
              && IsBatch(before.keys, before.cursor, batch)
              && after.cursor == (if batch == [] then None else Some(batch[|batch| - 1]))
              && (target in batch ==> target !in after.keys)
  }

  /** A real admission of another key is such a step, while `target` stays quiet. */
  lemma {:induction false} AdmissionIsStep(before: map<Key, Entry>, cursor: Option<Key>, after: map<Key, Entry>,
                                           moved: Option<Key>, key: Key, now: nat, target: Key)
    requires SweptAround(before, cursor, after, moved, key, now)
    requires key != target && (target in before ==> Reclaimable(before[target], now))
    ensures Step(Sweep(before.Keys, cursor), Call.Admission(key), Sweep(after.Keys, moved), target)
  {
    hide Reclaimable, IsBatch;
  }

  /** Once quiet, an untouched entry stays quiet. */
  lemma {:induction false} QuietStaysQuiet(e: Entry, now: nat, later: nat)
    requires Reclaimable(e, now) && now <= later
    ensures Reclaimable(e, later)
  {
  }

  /** Sweep calls needed to run off the end with `n` keys ahead of the cursor. */
  function ToWrap(n: nat): nat { if n == 0 then 1 else 2 + (n + 13) / 15 }

  /** Sweep calls needed to reach the `n`-th key ahead of the cursor. */
  function ToReach(n: nat): nat { 1 + (n + 13) / 15 }

  function UpTo(keys: set<Key>, target: Key): set<Key> { set k | k in keys && k <= target }

  function CallsLeft(s: Sweep, target: Key, capacity: nat): nat {
    if s.cursor.Some? && s.cursor.value >= target then ToWrap(|Ahead(s.keys, s.cursor)|) + ToReach(capacity)
    else ToReach(|UpTo(Ahead(s.keys, s.cursor), target)|)
  }

  lemma {:induction false} CountersMonotone(m: nat, n: nat)
    requires m <= n
    ensures ToWrap(m) <= ToWrap(n) && ToReach(m) <= ToReach(n)
    ensures m + 15 <= n && m > 0 ==> ToWrap(m) < ToWrap(n)
    ensures m + 15 <= n ==> ToReach(m) < ToReach(n)
  {
  }

  lemma {:induction false} MembersSize(batch: seq<Key>)
    requires Ascending(batch)
    ensures |Members(batch)| == |batch|
  {
    if batch == [] {
      assert Members(batch) == {};
    } else {
      var rest, last := batch[..|batch| - 1], batch[|batch| - 1];
      MembersSize(rest);
      assert batch == rest + [last];
      MembersSnoc(rest, last);
      assert last !in rest;
      hide Members;
    }
  }

  lemma {:induction false} MembersSnoc(rest: seq<Key>, last: Key)
    ensures Members(rest + [last]) == Members(rest) + {last}
    ensures last in Members(rest) <==> last in rest
  {
  }

  /** What one sweep leaves ahead of the moved cursor. */
  lemma {:induction false} AheadOfBatch(keys: set<Key>, cursor: Option<Key>, batch: seq<Key>)
    requires IsBatch(keys, cursor, batch) && batch != []
    ensures Ahead(keys, Some(batch[|batch| - 1])) == Ahead(keys, cursor) - Members(batch)
    ensures |Ahead(keys, Some(batch[|batch| - 1]))| == |Ahead(keys, cursor)| - |batch|
    ensures cursor.Some? ==> batch[|batch| - 1] > cursor.value
  {
    var last := batch[|batch| - 1];
    assert last in Members(batch);
    forall k | k in Members(batch) ensures k <= last {
      var i :| 0 <= i < |batch| && batch[i] == k;
    }
    assert Ahead(keys, Some(last)) == Ahead(keys, cursor) - Members(batch);
    MembersSize(batch);
    assert Ahead(keys, cursor) == (Ahead(keys, cursor) - Members(batch)) + Members(batch);
  }

  /** Removing keys never sets the sweep back. */
  lemma {:induction false} FewerKeysNeedFewerCalls(s: Sweep, fewer: set<Key>, target: Key, capacity: nat)
    requires fewer <= s.keys
    ensures CallsLeft(Sweep(fewer, s.cursor), target, capacity) <= CallsLeft(s, target, capacity)
  {
    hide ToWrap, ToReach;
    var a, b := Ahead(fewer, s.cursor), Ahead(s.keys, s.cursor);
    SubsetSize(a, b);
    SubsetSize(UpTo(a, target), UpTo(b, target));
    CountersMonotone(|a|, |b|);
    CountersMonotone(|UpTo(a, target)|, |UpTo(b, target)|);
  }

  predicate NewMaximum(keys: set<Key>, key: Key) { forall k | k in keys :: k < key }

  /** The one admission that brings a waiting entry no closer: the sweep has a
      single key left before it wraps around, and a key above all stored ones is
      inserted behind it. A refused admission inserts nothing. */
  predicate Postpones(s: Sweep, call: Call, after: Sweep, target: Key) {
    && call.Admission? && s.cursor.Some? && s.cursor.value >= target
    && |Ahead(s.keys, s.cursor)| == 1 && NewMaximum(s.keys, call.key) && call.key in after.keys
  }

  lemma {:induction false} PostponesOnlyLast(s: Sweep, call: Call, after: Sweep, target: Key)
    ensures Postpones(s, call, after, target) ==> |Ahead(s.keys, s.cursor)| == 1
  {
  }

  /** Once the last key ahead is swept, only a new largest key can be ahead. */
  lemma {:induction false} LastKeyDrained(s: Sweep, key: Key, after: Sweep, target: Key, last: Key)
    requires s.cursor.Some? && s.cursor.value >= target && after.keys <= s.keys + {key} && after.cursor == Some(last)
    requires last in s.keys && |Ahead(s.keys, s.cursor)| == 1 && Ahead(s.keys, Some(last)) == {}
    ensures |Ahead(after.keys, after.cursor)| == if Postpones(s, Call.Admission(key), after, target) then 1 else 0
  {
    forall k | k in s.keys ensures k <= last {
      assert k in Ahead(s.keys, Some(last)) <==> k > last;
    }
    assert NewMaximum(s.keys, key) <==> key > last;
    assert Ahead(after.keys, after.cursor) == if key in after.keys && key > last then {key} else {};
  }

  /** Before the wrap: a sweep gets closer to the end exactly unless it drained
      the last key ahead and the admission inserted a key above all others. */
  lemma {:induction false} WrapGetsCloser(s: Sweep, key: Key, after: Sweep, target: Key, batch: seq<Key>, capacity: nat)
    requires s.cursor.Some? && s.cursor.value >= target && after.keys <= s.keys + {key} && |after.keys| <= capacity
    requires IsBatch(s.keys, s.cursor, batch) && after.cursor == if batch == [] then None else Some(batch[|batch| - 1])
    ensures CallsLeft(after, target, capacity) <= CallsLeft(s, target, capacity)
    ensures CallsLeft(after, target, capacity) < CallsLeft(s, target, capacity) <==>
            !Postpones(s, Call.Admission(key), after, target)
  {
    hide IsBatch, Postpones;
    var ahead := Ahead(s.keys, s.cursor);
    PostponesOnlyLast(s, Call.Admission(key), after, target);
    BatchSize(s.keys, s.cursor, batch);
    if batch == [] {
      SubsetSize(UpTo(Ahead(after.keys, None), target), after.keys);
      CountersMonotone(|UpTo(Ahead(after.keys, None), target)|, capacity);
    } else {
      AheadOfBatch(s.keys, s.cursor, batch);
      var last := batch[|batch| - 1];
      var left := Ahead(s.keys, Some(last));
      assert last in Members(batch);
      assert |ahead| == 1 ==> left == {};
      var n := |Ahead(after.keys, after.cursor)|;
      SubsetSize(Ahead(after.keys, after.cursor), left + if key > last then {key} else {});
      assert n <= |left| + if key > last then 1 else 0;
      if |ahead| == 1 { LastKeyDrained(s, key, after, target, last); }
      CountersMonotone(n, |ahead|);
    }
  }

  lemma {:induction false} BatchSize(keys: set<Key>, cursor: Option<Key>, batch: seq<Key>)
    requires IsBatch(keys, cursor, batch)
    ensures |batch| == Min(CLEANUP_LIMIT, |Ahead(keys, cursor)|)
    ensures batch == [] <==> Ahead(keys, cursor) == {}
  {
    MembersSize(batch);
    SubsetSize(Members(batch), Ahead(keys, cursor));
  }

  /** After the wrap: a sweep either reaches `target` or gets fifteen keys closer. */
  lemma {:induction false} ReachGetsCloser(s: Sweep, key: Key, after: Sweep, target: Key, batch: seq<Key>,
                                           capacity: nat)
    requires !(s.cursor.Some? && s.cursor.value >= target) && target in s.keys && after.keys <= s.keys + {key}
    requires IsBatch(s.keys, s.cursor, batch) && after.cursor == if batch == [] then None else Some(batch[|batch| - 1])
    requires target !in batch
    ensures CallsLeft(after, target, capacity) < CallsLeft(s, target, capacity)
  {
    var ahead := Ahead(s.keys, s.cursor);
    assert target in ahead - Members(batch);
    assert |batch| == CLEANUP_LIMIT;
    AheadOfBatch(s.keys, s.cursor, batch);
    MembersSize(batch);
    var last := batch[|batch| - 1];
    assert last < target;
    var near, nearer := UpTo(ahead, target), UpTo(Ahead(after.keys, after.cursor), target);
    assert Members(batch) <= near;
    SubsetSize(nearer, (near - Members(batch)) + {key});
    assert near == (near - Members(batch)) + Members(batch);
    CountersMonotone(|nearer|, |near|);
  }

  /** A run of calls during which `target` stays stored, quiet and unadmitted. */
  ghost predicate Waiting(states: seq<Sweep>, calls: seq<Call>, target: Key, capacity: nat) {
    && |states| == |calls| + 1
    && (forall i | 0 <= i < |states| :: target in states[i].keys && |states[i].keys| <= capacity)
    && forall i | 0 <= i < |calls| :: Step(states[i], calls[i], states[i + 1], target)
  }

  function Admissions(calls: seq<Call>): nat {
    if calls == [] then 0 else Admissions(calls[..|calls| - 1]) + if calls[|calls| - 1].Admission? then 1 else 0
  }

  function Postponements(states: seq<Sweep>, calls: seq<Call>, target: Key): nat
    requires |states| == |calls| + 1
  {
    if calls == [] then 0
    else
      var n := |calls| - 1;
      Postponements(states[..n + 1], calls[..n], target) +
        if Postpones(states[n], calls[n], states[n + 1], target) then 1 else 0
  }

  lemma {:induction false} StepGetsCloser(s: Sweep, call: Call, after: Sweep, target: Key, capacity: nat)
    requires Step(s, call, after, target) && target in s.keys && target in after.keys && |after.keys| <= capacity
    ensures CallsLeft(after, target, capacity) <= CallsLeft(s, target, capacity)
    ensures call.Admission? ==>
              (CallsLeft(after, target, capacity) < CallsLeft(s, target, capacity) <==>
               !Postpones(s, call, after, target))
  {
    hide CallsLeft, IsBatch, NewMaximum, Ahead;
    match call
    case Completion(key) => FewerKeysNeedFewerCalls(s, after.keys, target, capacity);
    case Admission(key) =>
      var batch :| IsBatch(s.keys, s.cursor, batch)
                   && after.cursor == (if batch == [] then None else Some(batch[|batch| - 1]))
                   && (target in batch ==> target !in after.keys);
      if s.cursor.Some? && s.cursor.value >= target {
        WrapGetsCloser(s, key, after, target, batch, capacity);
      } else {
        ReachGetsCloser(s, key, after, target, batch, capacity);
      }
  }

  /** The keys asked for by the admissions of a trace. */
  function KeysAdmitted(calls: seq<Call>): set<Key> {
    if calls == [] then {}
    else KeysAdmitted(calls[..|calls| - 1]) + if calls[|calls| - 1].Admission? then {calls[|calls| - 1].key} else {}
  }

  /** The keys whose admissions postponed. */
  function PostponingKeys(states: seq<Sweep>, calls: seq<Call>, target: Key): (keys: set<Key>)
    requires |states| == |calls| + 1
    ensures keys <= KeysAdmitted(calls)
  {
    if calls == [] then {}
    else
      var n := |calls| - 1;
      PostponingKeys(states[..n + 1], calls[..n], target) +
        if Postpones(states[n], calls[n], states[n + 1], target) then {calls[n].key} else {}
  }

  predicate PastTarget(s: Sweep, target: Key) { s.cursor.Some? && s.cursor.value >= target }

  /** Until the sweep wraps around, every postponing key has been swept or is the
      only one that may be ahead. */
  ghost predicate Behind(s: Sweep, keys: set<Key>, target: Key) {
    PastTarget(s, target) ==> forall k | k in keys :: k <= s.cursor.value || Ahead(s.keys, s.cursor) <= {k}
  }

  /** Once wrapped around, the sweep stays before a target it has not reached. */
  lemma {:induction false} StaysBefore(s: Sweep, call: Call, after: Sweep, target: Key)
    requires Step(s, call, after, target) && target in s.keys && target in after.keys && !PastTarget(s, target)
    ensures !PastTarget(after, target)
  {
    if call.Admission? {
      var batch :| IsBatch(s.keys, s.cursor, batch)
                   && after.cursor == (if batch == [] then None else Some(batch[|batch| - 1]))
                   && (target in batch ==> target !in after.keys);
      assert target in Ahead(s.keys, s.cursor);
      if batch != [] {
        assert target in Ahead(s.keys, s.cursor) - Members(batch);
        assert batch[|batch| - 1] in batch;
      }
    }
  }

  /** A step keeps the postponing keys behind, and a new one is none of them. */
  lemma {:induction false} StepKeepsBehind(s: Sweep, call: Call, after: Sweep, keys: set<Key>, target: Key)
    requires Step(s, call, after, target) && target in s.keys && target in after.keys && Behind(s, keys, target)
    ensures Postpones(s, call, after, target) ==> call.key !in keys
    ensures Behind(after, keys + if Postpones(s, call, after, target) then {call.key} else {}, target)
  {
    hide IsBatch;
    if !PastTarget(s, target) {
      StaysBefore(s, call, after, target);
    } else if call.Admission? {
      var batch :| IsBatch(s.keys, s.cursor, batch)
                   && after.cursor == (if batch == [] then None else Some(batch[|batch| - 1]))
                   && (target in batch ==> target !in after.keys);
      BatchSize(s.keys, s.cursor, batch);
      if batch != [] { SweptPast(s, call, after, keys, target, batch); }
    }
  }

  lemma {:induction false} SweptPast(s: Sweep, call: Call, after: Sweep, keys: set<Key>, target: Key, batch: seq<Key>)
    requires call.Admission? && PastTarget(s, target) && Behind(s, keys, target) && after.keys <= s.keys + {call.key}
    requires IsBatch(s.keys, s.cursor, batch) && batch != [] && after.cursor == Some(batch[|batch| - 1])
    ensures forall k | k in keys :: k <= after.cursor.value
    ensures Postpones(s, call, after, target) ==>
            call.key > after.cursor.value && Ahead(after.keys, after.cursor) <= {call.key}
  {
    hide IsBatch;
    var ahead, last := Ahead(s.keys, s.cursor), batch[|batch| - 1];
    AheadOfBatch(s.keys, s.cursor, batch);
    assert last in Members(batch);
    BatchWithin(s.keys, s.cursor, batch);
    assert last in ahead;
    if Postpones(s, call, after, target) {
      BatchSize(s.keys, s.cursor, batch);
      MembersSize(batch);
      assert ahead == Members(batch) + (ahead - Members(batch));
      LastKeyDrained(s, call.key, after, target, last);
      OnlyNewAhead(s, call.key, after, last);
    }
  }

  lemma {:induction false} BatchWithin(keys: set<Key>, cursor: Option<Key>, batch: seq<Key>)
    requires IsBatch(keys, cursor, batch)
    ensures Members(batch) <= Ahead(keys, cursor)
  {
  }

  lemma {:induction false} OnlyNewAhead(s: Sweep, key: Key, after: Sweep, last: Key)
    requires after.keys <= s.keys + {key} && after.cursor == Some(last) && Ahead(s.keys, Some(last)) == {}
    ensures Ahead(after.keys, after.cursor) <= {key}
  {
    forall k | k in Ahead(after.keys, after.cursor) ensures k == key {
      assert k in Ahead(s.keys, Some(last)) <==> k in s.keys && k > last;
    }
  }

  /** No key postpones twice while the target waits. */
  lemma {:induction false} PostponementsAreDistinct(states: seq<Sweep>, calls: seq<Call>, target: Key, capacity: nat)
    requires Waiting(states, calls, target, capacity)
    ensures |PostponingKeys(states, calls, target)| == Postponements(states, calls, target)
    ensures Behind(states[|calls|], PostponingKeys(states, calls, target), target)
    ensures Postponements(states, calls, target) <= |KeysAdmitted(calls)|
  {
    hide Step, Postpones, Behind;
    var n := |calls|;
    if n == 0 {
      NothingBehind(states[0], target);
    } else {
      PostponementsAreDistinct(states[..n], calls[..n - 1], target, capacity);
      StepKeepsBehind(states[n - 1], calls[n - 1], states[n], PostponingKeys(states[..n], calls[..n - 1], target),
                      target);
    }
    SubsetSize(PostponingKeys(states, calls, target), KeysAdmitted(calls));
  }

  lemma {:induction false} NothingBehind(s: Sweep, target: Key)
    ensures Behind(s, {}, target)
  {
  }

  /** While a quiet entry waits, the admissions are bounded by a linear function
      of capacity plus the admissions that inserted a new largest key behind the
      last one ahead, and so plus the number of distinct keys asked for: whatever
      else arrives or completes, it is reclaimed by then. */
  lemma {:induction false} QuietEntryIsReclaimed(states: seq<Sweep>, calls: seq<Call>, target: Key, capacity: nat)
    requires Waiting(states, calls, target, capacity)
    ensures Admissions(calls) + CallsLeft(states[|calls|], target, capacity)
            <= CallsLeft(states[0], target, capacity) + Postponements(states, calls, target)
    ensures Admissions(calls) <= 3 + 2 * ((capacity + 13) / 15) + Postponements(states, calls, target)
    ensures Admissions(calls) <= 3 + 2 * ((capacity + 13) / 15) + |KeysAdmitted(calls)|
  {
    hide CallsLeft, Step, Postpones;
    var n := |calls|;
    if n > 0 {
      QuietEntryIsReclaimed(states[..n], calls[..n - 1], target, capacity);
      StepGetsCloser(states[n - 1], calls[n - 1], states[n], target, capacity);
    }
    CallsBounded(states[0], target, capacity);
    CallsBounded(states[n], target, capacity);
    PostponementsAreDistinct(states, calls, target, capacity);
  }

  /** A full store of one keeps nothing else, so nothing postpones its entry. */
  lemma {:induction false} NothingPostponesAlone(states: seq<Sweep>, calls: seq<Call>, target: Key)
    requires Waiting(states, calls, target, 1)
    ensures Postponements(states, calls, target) == 0
  {
    hide Step;
    var n := |calls|;
    if n > 0 {
      NothingPostponesAlone(states[..n], calls[..n - 1], target);
      assert states[n].keys == {target} by {
        forall k | k in states[n].keys ensures k == target {
          if k != target { SubsetSize({k, target}, states[n].keys); }
        }
      }
      assert Step(states[n - 1], calls[n - 1], states[n], target);
      StepSparesTarget(states[n - 1], calls[n - 1], states[n], target);
    }
  }

  lemma {:induction false} StepSparesTarget(before: Sweep, call: Call, after: Sweep, target: Key)
    requires Step(before, call, after, target)
    ensures call.key != target
  {
    hide IsBatch;
  }

  lemma {:induction false} CallsBounded(s: Sweep, target: Key, capacity: nat)
    requires target in s.keys && |s.keys| <= capacity
    ensures 1 <= CallsLeft(s, target, capacity) <= 4 + 2 * ((capacity + 13) / 15)
  {
    var ahead := Ahead(s.keys, s.cursor);
    SubsetSize(ahead, s.keys);
    SubsetSize(UpTo(ahead, target), s.keys);
    CountersMonotone(|ahead|, capacity);
    CountersMonotone(|UpTo(ahead, target)|, capacity);
  }
}

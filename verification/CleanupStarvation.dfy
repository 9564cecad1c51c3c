/** When capacity alone bounds how long a quiet entry waits: only at capacity one.
    With two entries, ever larger keys keep the sweep from wrapping around. */
module CleanupStarvation {
  import opened Basics
  import opened AttemptPolicies
  import opened AttemptLedger
  import opened MemoryAttempts
  import opened AttemptCleanup
  import opened QuietEntries

  /** Entry 0 waits behind the cursor; key `i` is the only one ahead. */
  function StarvingState(i: nat): Sweep
    requires i >= 1
  {
    Sweep({0, i}, Some(i - 1))
  }

  /** `n` admissions, each of the next larger key. */
  function StarvingStates(n: nat): (states: seq<Sweep>)
    ensures |states| == n + 1
  {
    seq(n + 1, j requires 0 <= j => StarvingState(j + 1))
  }

  function StarvingCalls(n: nat): (calls: seq<Call>)
    ensures |calls| == n
  {
    seq(n, j requires 0 <= j => Call.Admission(j + 2))
  }

  lemma {:induction false} AheadOfZero(i: nat)
    requires i >= 1
    ensures Ahead({}, None) == {} && Ahead({0}, None) == {0} && Ahead({0, i}, Some(i - 1)) == {i}
  {
  }

  /** One key ahead of the cursor makes the whole batch. */
  lemma {:induction false} OneAhead(keys: set<Key>, cursor: Option<Key>, batch: seq<Key>, key: Key)
    requires IsBatch(keys, cursor, batch) && Ahead(keys, cursor) == {key}
    ensures batch == [key]
  {
    BatchSize(keys, cursor, batch);
    assert |{key}| == 1;
    assert batch[0] in Members(batch);
  }

  lemma {:induction false} OneKeyBatch(keys: set<Key>, cursor: Option<Key>, key: Key)
    requires Ahead(keys, cursor) == {key}
    ensures IsBatch(keys, cursor, [key])
  {
    assert Members([key]) == {key};
  }

  lemma {:induction false} StarvingStep(i: nat)
    requires i >= 1
    ensures AttemptCleanup.Step(StarvingState(i), Call.Admission(i + 1), StarvingState(i + 1), 0)
    ensures 0 in StarvingState(i).keys && |StarvingState(i).keys| == 2
  {
    hide IsBatch;
    AheadOfZero(i);
    OneKeyBatch({0, i}, Some(i - 1), i);
  }

  /** At every capacity from two on, entry 0 waits through any number of
      admissions. */
  lemma {:induction false} StarvingWaits(n: nat, capacity: nat)
    requires capacity >= 2
    ensures Waiting(StarvingStates(n), StarvingCalls(n), 0, capacity) && Admissions(StarvingCalls(n)) == n
  {
    hide AttemptCleanup.Step;
    StarvingStep(n + 1);
    if n > 0 {
      StarvingWaits(n - 1, capacity);
      StarvingStep(n);
      assert StarvingStates(n) == StarvingStates(n - 1) + [StarvingState(n + 1)];
      assert StarvingCalls(n) == StarvingCalls(n - 1) + [Call.Admission(n + 1)];
      WaitLonger(StarvingStates(n - 1), StarvingCalls(n - 1), Call.Admission(n + 1), StarvingState(n + 1), 0, capacity);
    }
  }

  /** No run at this capacity lets a quiet entry outlive more admissions. */
  ghost predicate Reclaims(capacity: nat, bound: nat) {
    forall states: seq<Sweep>, calls: seq<Call>, target: Key | Waiting(states, calls, target, capacity) ::
           Admissions(calls) <= bound
  }

  /** Capacity alone bounds the wait exactly when the store holds one entry, and
      then three admissions are enough. */
  lemma {:induction false} ReclaimedByCapacityAlone(capacity: nat)
    requires capacity >= 1
    ensures (exists bound: nat :: Reclaims(capacity, bound)) <==> capacity == 1
    ensures Reclaims(1, 3)
  {
    hide Waiting;
    forall states: seq<Sweep>, calls: seq<Call>, target: Key | Waiting(states, calls, target, 1)
      ensures Admissions(calls) <= 3 {
      WaitingShape(states, calls, target, 1);
      QuietEntryIsReclaimed(states, calls, target, 1);
      NothingPostponesAlone(states, calls, target);
    }
    assert Reclaims(1, 3);
    if capacity >= 2 {
      forall bound: nat ensures !Reclaims(capacity, bound) {
        StarvingWaits(bound + 1, capacity);
      }
    }
  }

  ghost predicate Brief(limiter: MemoryAttemptLimiter)
    reads limiter
  {
    limiter.Valid() && limiter.capacity >= 2 && forall k: Key :: limiter.policyOf(k) == BRIEF
  }

  /** The sweep at `clock` leaves the keys `kept` and moves the cursor to `moved`. */
  ghost predicate SweepLeaves(entries: map<Key, Entry>, cursor: Option<Key>, clock: nat, kept: set<Key>,
                              moved: Option<Key>) {
    forall batch | IsBatch(entries.Keys, cursor, batch) ::
      Swept(entries, batch, clock).Keys == kept && moved == if batch == [] then None else Some(batch[|batch| - 1])
  }

  lemma {:induction false} AroundLeaves(before: map<Key, Entry>, cursor: Option<Key>, after: map<Key, Entry>,
                                        moved: Option<Key>, key: Key, now: nat, kept: set<Key>, expected: Option<Key>)
    requires SweptAround(before, cursor, after, moved, key, now) && SweepLeaves(before, cursor, now, kept, expected)
             && key !in before
    ensures moved == expected && after.Keys - {key} == kept && kept <= before.Keys
    ensures forall k | k in kept :: k in after && after[k] == before[k]
    ensures key !in after ==> |after| == |kept|
  {
    hide IsBatch, Reclaimable;
    var batch :| IsBatch(before.Keys, cursor, batch)
                 && moved == (if batch == [] then None else Some(batch[|batch| - 1]))
                 && (forall k | k != key :: k in after <==> k in Swept(before, batch, now))
                 && forall k | k != key && k in after :: after[k] == before[k];
    assert Swept(before, batch, now).Keys == kept;
    assert after.Keys - {key} == kept;
    if key !in after {
      assert after.Keys == kept;
      assert |after| == |after.Keys|;
    }
  }

  /** Admits a key with no history, into room the sweep leaves. */
  method AdmitNew(limiter: MemoryAttemptLimiter, key: Key, clock: nat, ghost kept: set<Key>, ghost moved: Option<Key>)
    requires Brief(limiter) && limiter.now <= clock && limiter.generation < U64_MAX
    requires limiter.HistoryOf(key) == [] && key !in limiter.entries
    requires |kept| < 2 && SweepLeaves(limiter.entries, limiter.cursor, clock, kept, moved)
    modifies limiter
    ensures Brief(limiter) && limiter.now == clock && limiter.generation == old(limiter.generation) + 1
    ensures limiter.entries.Keys == kept + {key} && limiter.cursor == moved && kept <= old(limiter.entries).Keys
    ensures forall k | k in kept :: limiter.entries[k] == old(limiter.entries)[k]
    ensures forall k: Key | k != key :: limiter.HistoryOf(k) == old(limiter.HistoryOf(k))
    ensures limiter.HistoryOf(key) == [Attempt(clock, clock + 2, Open)]
    ensures Reclaimable(limiter.entries[key], clock + 3) && !Reclaimable(limiter.entries[key], clock)
  {
    hide SweptAround, SweepLeaves, Reclaimable, MemoryAttemptLimiter.Valid;
    ghost var before, cursor := limiter.entries, limiter.cursor;
    var r := limiter.Admit(key, BRIEF, clock);
    AroundLeaves(before, cursor, limiter.entries, limiter.cursor, key, clock, kept, moved);
    assert r.Ok? && r.value.Admission?;
    LeasedIsQuietLater(limiter, key, clock);
  }

  lemma {:induction false} LeasedIsQuietLater(limiter: MemoryAttemptLimiter, key: Key, clock: nat)
    requires Brief(limiter) && limiter.now == clock && limiter.HistoryOf(key) == [Attempt(clock, clock + 2, Open)]
    ensures key in limiter.entries
    ensures Reclaimable(limiter.entries[key], clock + 3) && !Reclaimable(limiter.entries[key], clock)
  {
    hide Streak, Delay, Numbered;
    assert limiter.KeyValid(key);
  }

  lemma {:induction false} SweepsOne(entries: map<Key, Entry>, cursor: Option<Key>, clock: nat, key: Key)
    requires Ahead(entries.Keys, cursor) == {key} && key in entries
    ensures SweepLeaves(entries, cursor, clock, if Reclaimable(entries[key], clock) then entries.Keys - {key}
                        else entries.Keys, Some(key))
  {
    hide IsBatch, Reclaimable;
    forall batch | IsBatch(entries.Keys, cursor, batch)
      ensures batch == [key]
      ensures Swept(entries, batch, clock).Keys == if Reclaimable(entries[key], clock) then entries.Keys - {key}
              else entries.Keys
    {
      OneAhead(entries.Keys, cursor, batch, key);
    }
  }

  lemma {:induction false} SweepsNone(entries: map<Key, Entry>, cursor: Option<Key>, clock: nat)
    requires Ahead(entries.Keys, cursor) == {}
    ensures SweepLeaves(entries, cursor, clock, entries.Keys, None)
  {
    hide IsBatch, Reclaimable;
    forall batch | IsBatch(entries.Keys, cursor, batch)
      ensures batch == [] && Swept(entries, batch, clock).Keys == entries.Keys {
      BatchSize(entries.Keys, cursor, batch);
    }
  }

  /** Key 0 and each key up to `i` were admitted once, key `k` when the clock read
      `3 * (k - 1)`. Entry 0 is quiet from time three on, and so is the newest entry
      `i`, in time for the admission that follows it. */
  ghost predicate Starving(limiter: MemoryAttemptLimiter, i: nat)
    reads limiter
  {
    && i >= 1 && Brief(limiter) && limiter.now == 3 * (i - 1) && limiter.generation == i + 1
    && SweepOf(limiter) == StarvingState(i)
    && Reclaimable(limiter.entries[0], 3) && Reclaimable(limiter.entries[i], 3 * i)
    && limiter.HistoryOf(0) == [Attempt(0, 2, Open)]
    && (forall k: Key | 1 <= k <= i :: limiter.HistoryOf(k) == [Attempt(3 * (k - 1), 3 * (k - 1) + 2, Open)])
    && forall k: Key | k > i :: limiter.HistoryOf(k) == []
  }

  method Empty(capacity: nat) returns (limiter: MemoryAttemptLimiter)
    requires capacity >= 2
    ensures fresh(limiter) && Brief(limiter) && limiter.capacity == capacity && limiter.now == 0
            && limiter.generation == 0
    ensures limiter.entries == map[] && limiter.cursor == None && forall k: Key :: limiter.HistoryOf(k) == []
  {
    hide MemoryAttemptLimiter.Valid;
    limiter := new MemoryAttemptLimiter(capacity, _ => BRIEF);
  }

  method OnlyZero(capacity: nat) returns (limiter: MemoryAttemptLimiter)
    requires capacity >= 2
    ensures fresh(limiter) && Brief(limiter) && limiter.capacity == capacity && limiter.now == 0
            && limiter.generation == 1
    ensures limiter.HistoryOf(0) == [Attempt(0, 2, Open)]
    ensures limiter.entries.Keys == {0} && limiter.cursor == None && Reclaimable(limiter.entries[0], 3)
            && !Reclaimable(limiter.entries[0], 0)
    ensures forall k: Key | k > 0 :: limiter.HistoryOf(k) == []
  {
    hide Reclaimable, SweepLeaves, Ahead, MemoryAttemptLimiter.Valid;
    AheadOfZero(1);
    limiter := Empty(capacity);
    assert limiter.entries.Keys == {};
    SweepsNone(limiter.entries, None, 0);
    AdmitNew(limiter, 0, 0, {}, None);
    assert limiter.entries.Keys == {0};
  }

  method Begin(capacity: nat) returns (limiter: MemoryAttemptLimiter)
    requires capacity >= 2
    ensures fresh(limiter) && limiter.capacity == capacity && Starving(limiter, 1)
  {
    hide Reclaimable, SweepLeaves, Ahead, MemoryAttemptLimiter.Valid;
    AheadOfZero(1);
    limiter := OnlyZero(capacity);
    SweepsOne(limiter.entries, None, 0, 0);
    AdmitNew(limiter, 1, 0, {0}, Some(0));
    assert limiter.entries.Keys == {0, 1};
  }

  /** The sweep drops the quiet entry `i` just before key `i + 1` comes in behind it. */
  method Extend(limiter: MemoryAttemptLimiter, i: nat)
    requires Starving(limiter, i) && limiter.generation < U64_MAX
    modifies limiter
    ensures Starving(limiter, i + 1)
  {
    hide Reclaimable, SweepLeaves, Ahead, MemoryAttemptLimiter.Valid;
    AheadOfZero(i);
    SweepsOne(limiter.entries, limiter.cursor, 3 * i, i);
    assert limiter.entries.Keys - {i} == {0};
    AdmitNew(limiter, i + 1, 3 * i, {0}, Some(i));
    assert limiter.entries.Keys == {0, i + 1};
  }

  /** The starving run is one of the real store, at every capacity from two on:
      entry 0, quiet since time three, is still there after the admissions at times
      three to `3 * n`. */
  method Starve(capacity: nat, n: nat) returns (limiter: MemoryAttemptLimiter, ghost states: seq<Sweep>)
    requires capacity >= 2 && n + 2 <= U64_MAX
    ensures limiter.Valid() && limiter.capacity == capacity && 0 in limiter.entries
            && Reclaimable(limiter.entries[0], 3)
    ensures Starving(limiter, n + 1) && limiter.generation == n + 2 && limiter.now == 3 * n
    ensures n >= 1 ==> Reclaimable(limiter.entries[0], limiter.now)
    ensures limiter.HistoryOf(0) == [Attempt(0, 2, Open)]
    ensures forall k: Key | 1 <= k <= n + 1 :: limiter.HistoryOf(k) == [Attempt(3 * (k - 1), 3 * (k - 1) + 2, Open)]
    ensures states == StarvingStates(n) && states[n] == SweepOf(limiter)
    ensures Waiting(states, StarvingCalls(n), 0, capacity) && Admissions(StarvingCalls(n)) == n
  {
    hide Waiting, Reclaimable, MemoryAttemptLimiter.Valid;
    limiter := Begin(capacity);
    states := [SweepOf(limiter)];
    for i := 0 to n
      invariant fresh(limiter) && limiter.capacity == capacity && Starving(limiter, i + 1)
      invariant states == StarvingStates(i)
    {
      Extend(limiter, i + 1);
      states := states + [SweepOf(limiter)];
      assert states == StarvingStates(i + 1);
    }
    StarvingWaits(n, capacity);
    if n >= 1 { QuietStaysQuiet(limiter.entries[0], 3, limiter.now); }
  }
}

/** Runs of the real limiter while a quiet entry waits to be reclaimed. */
module QuietEntries {
  import opened Basics
  import opened AttemptPolicies
  import opened AttemptLedger
  import opened MemoryAttempts
  import opened AttemptCleanup

  /** A caller asks for another key, or presents any receipt whatever. */
  datatype Deed = Ask(key: Key, clock: nat) | Tell(receipt: Receipt, outcome: Outcome, clock: nat)

  function Asks(deeds: seq<Deed>): nat {
    if deeds == [] then 0 else Asks(deeds[..|deeds| - 1]) + if deeds[|deeds| - 1].Ask? then 1 else 0
  }

  function KeysAsked(deeds: seq<Deed>): set<Key> { set d | d in deeds && d.Ask? :: d.key }

  function SweepOf(limiter: MemoryAttemptLimiter): Sweep
    reads limiter
  {
    Sweep(limiter.entries.Keys, limiter.cursor)
  }

  /** The trace so far is one of waiting calls and ends where the limiter is. */
  ghost predicate Outliving(limiter: MemoryAttemptLimiter, target: Key, states: seq<Sweep>, calls: seq<Call>)
    reads limiter
  {
    && limiter.Valid() && target in limiter.entries && Reclaimable(limiter.entries[target], limiter.now)
    && Waiting(states, calls, target, limiter.capacity) && states[|calls|] == SweepOf(limiter)
  }

  lemma {:induction false} WaitLonger(states: seq<Sweep>, calls: seq<Call>, call: Call, after: Sweep, target: Key,
                                      capacity: nat)
    requires Waiting(states, calls, target, capacity) && AttemptCleanup.Step(states[|calls|], call, after, target)
    requires target in after.keys && |after.keys| <= capacity
    ensures Waiting(states + [after], calls + [call], target, capacity)
    ensures Admissions(calls + [call]) == Admissions(calls) + if call.Admission? then 1 else 0
  {
    hide AttemptCleanup.Step;
    var longer, more := states + [after], calls + [call];
    assert more[..|calls|] == calls;
    forall i | 0 <= i < |more| ensures AttemptCleanup.Step(longer[i], more[i], longer[i + 1], target) {
      if i < |calls| { assert AttemptCleanup.Step(states[i], calls[i], states[i + 1], target); }
    }
  }

  /** A quiet entry's own receipts are stale. */
  lemma {:induction false} QuietIsNotLive(limiter: MemoryAttemptLimiter, target: Key, now: nat)
    requires limiter.Valid() && target in limiter.entries && Reclaimable(limiter.entries[target], limiter.now)
             && limiter.now <= now
    ensures !Live(limiter.HistoryOf(target), now)
    ensures |limiter.IssuedTo(target)| == |limiter.HistoryOf(target)|
  {
    hide Streak, Delay, Numbered;
    assert limiter.KeyValid(target);
  }

  lemma {:induction false} NotLiveIsStale(p: AttemptPolicy, h: History, index: nat, outcome: Outcome, now: nat)
    requires !Live(h, now)
    ensures AttemptLedger.Complete(p, h, index, outcome, now) == (h, Stale)
  {
  }

  /** Another key's admission while `target` stays quiet. */
  method AskOther(limiter: MemoryAttemptLimiter, policy: AttemptPolicy, target: Key, key: Key, clock: nat,
                  ghost states: seq<Sweep>, ghost calls: seq<Call>)
    requires Outliving(limiter, target, states, calls) && key != target && policy == limiter.policyOf(key)
    modifies limiter
    ensures limiter.Valid()
    ensures target in limiter.entries ==>
              && Outliving(limiter, target, states + [SweepOf(limiter)], calls + [Call.Admission(key)])
              && Admissions(calls + [Call.Admission(key)]) == Admissions(calls) + 1
  {
    hide Waiting, SweptAround, Reclaimable, AttemptCleanup.Step, Judge, Admitted, MemoryAttemptLimiter.Valid;
    WaitingShape(states, calls, target, limiter.capacity);
    ghost var before, cursor, earlier := limiter.entries, limiter.cursor, limiter.now;
    var r := limiter.Admit(key, policy, clock);
    StoredWithinCapacity(limiter);
    if target in limiter.entries {
      QuietStaysQuiet(before[target], earlier, limiter.now);
      OthersKept(before, cursor, limiter.entries, limiter.cursor, key, limiter.now, target);
      AdmissionIsStep(before, cursor, limiter.entries, limiter.cursor, key, limiter.now, target);
      WaitLonger(states, calls, Call.Admission(key), SweepOf(limiter), target, limiter.capacity);
    }
  }

  lemma {:induction false} OthersKept(before: map<Key, Entry>, cursor: Option<Key>, after: map<Key, Entry>,
                                      moved: Option<Key>, key: Key, now: nat, target: Key)
    requires SweptAround(before, cursor, after, moved, key, now) && target != key && target in after
    ensures target in before && after[target] == before[target]
  {
    hide IsBatch, Reclaimable;
  }

  /** Any receipt, presented while `target` stays quiet; its own change nothing. */
  method TellAny(limiter: MemoryAttemptLimiter, target: Key, receipt: Receipt, outcome: Outcome, clock: nat,
                 ghost states: seq<Sweep>, ghost calls: seq<Call>)
    returns (ghost moreStates: seq<Sweep>, ghost moreCalls: seq<Call>)
    requires Outliving(limiter, target, states, calls)
    modifies limiter
    ensures Outliving(limiter, target, moreStates, moreCalls)
    ensures moreCalls == calls || moreCalls == calls + [Call.Completion(receipt.key)]
  {
    hide Waiting, Reclaimable, AttemptCleanup.Step, AttemptLedger.Complete, Live, MemoryAttemptLimiter.Valid;
    WaitingShape(states, calls, target, limiter.capacity);
    ghost var before, earlier, h, p := limiter.entries, limiter.now, limiter.HistoryOf(receipt.key),
              limiter.policyOf(receipt.key);
    QuietIsNotLive(limiter, target, Max(earlier, clock));
    ghost var quiet := limiter.EntryOf(target);
    var completion := limiter.Complete(receipt, outcome, clock);
    StoredWithinCapacity(limiter);
    moreStates, moreCalls := states, calls;
    if receipt.key == target {
      if receipt.store == limiter && receipt.generation in limiter.IssuedTo(target) {
        ghost var index: nat :| index < |limiter.IssuedTo(target)|
                  && limiter.IssuedTo(target)[index] == receipt.generation;
        NotLiveIsStale(p, h, index, outcome, limiter.now);
      }
      assert limiter.entries == before;
    } else {
      assert limiter.EntryOf(target) == quiet;
      OnlyOneGone(before, limiter, receipt.key);
      CompletionIsStep(states[|calls|], receipt.key, SweepOf(limiter), target);
      WaitLonger(states, calls, Call.Completion(receipt.key), SweepOf(limiter), target, limiter.capacity);
      moreStates, moreCalls := states + [SweepOf(limiter)], calls + [Call.Completion(receipt.key)];
    }
    QuietStaysQuiet(before[target], earlier, limiter.now);
  }

  lemma {:induction false} StoredWithinCapacity(limiter: MemoryAttemptLimiter)
    requires limiter.Valid()
    ensures |limiter.entries.Keys| <= limiter.capacity
  {
    assert |limiter.entries.Keys| == |limiter.entries|;
  }

  lemma {:induction false} OnlyOneGone(before: map<Key, Entry>, limiter: MemoryAttemptLimiter, key: Key)
    requires limiter.entries.Keys <= before.Keys
    requires forall k: Key | k != key :: limiter.EntryOf(k) == if k in before then Some(before[k]) else None
    ensures limiter.entries.Keys == before.Keys || limiter.entries.Keys == before.Keys - {key}
  {
    forall k | k in before && k != key ensures k in limiter.entries {
      assert limiter.EntryOf(k) == Some(before[k]);
    }
    assert limiter.entries.Keys == if key in limiter.entries then before.Keys else before.Keys - {key};
  }

  lemma {:induction false} CompletionIsStep(before: Sweep, key: Key, after: Sweep, target: Key)
    requires key != target && after.cursor == before.cursor
             && (after.keys == before.keys || after.keys == before.keys - {key})
    ensures AttemptCleanup.Step(before, Call.Completion(key), after, target)
  {
  }

  /** Whatever callers do on the real limiter, as long as nobody asks for the
      quiet key itself: if its entry is still stored afterwards, the admissions it
      survived are bounded by the capacity and the number of keys they asked for. */
  method Outlive(limiter: MemoryAttemptLimiter, policies: Key -> AttemptPolicy, target: Key, deeds: seq<Deed>)
    requires limiter.Valid() && limiter.policyOf == policies
    requires target in limiter.entries && limiter.HistoryOf(target) != []
    requires limiter.now >= Last(limiter.HistoryOf(target)).finish + policies(target).quiet
    requires forall i | 0 <= i < |deeds| && deeds[i].Ask? :: deeds[i].key != target
    modifies limiter
    ensures limiter.Valid()
    ensures target in limiter.entries ==> Asks(deeds) <= 3 + 2 * ((limiter.capacity + 13) / 15) + |KeysAsked(deeds)|
    ensures target in limiter.entries && limiter.capacity == 1 ==> Asks(deeds) <= 3
  {
    hide Waiting, Reclaimable, Postponements, KeysAdmitted, KeysAsked, MemoryAttemptLimiter.Valid;
    ghost var states, calls: seq<Call> := [SweepOf(limiter)], [];
    NothingYet(limiter, target);
    for i := 0 to |deeds|
      invariant Outliving(limiter, target, states, calls) && Admissions(calls) == Asks(deeds[..i])
                && KeysAdmitted(calls) <= KeysAsked(deeds[..i])
    {
      assert deeds[..i + 1][..i] == deeds[..i];
      KeysAskedGrow(deeds[..i], deeds[i]);
      assert deeds[..i + 1] == deeds[..i] + [deeds[i]];
      match deeds[i]
      case Ask(key, clock) =>
        AskOther(limiter, policies(key), target, key, clock, states, calls);
        if target !in limiter.entries { return; }
        AdmittedGrow(calls, Call.Admission(key));
        states, calls := states + [SweepOf(limiter)], calls + [Call.Admission(key)];
      case Tell(receipt, outcome, clock) =>
        AdmittedGrow(calls, Call.Completion(receipt.key));
        states, calls := TellAny(limiter, target, receipt, outcome, clock, states, calls);
    }
    assert deeds[..|deeds|] == deeds;
    WaitingShape(states, calls, target, limiter.capacity);
    QuietEntryIsReclaimed(states, calls, target, limiter.capacity);
    SubsetSize(KeysAdmitted(calls), KeysAsked(deeds));
    if limiter.capacity == 1 { NothingPostponesAlone(states, calls, target); }
  }

  lemma {:induction false} AdmittedGrow(calls: seq<Call>, call: Call)
    ensures KeysAdmitted(calls + [call]) == KeysAdmitted(calls) + if call.Admission? then {call.key} else {}
    ensures Admissions(calls + [call]) == Admissions(calls) + if call.Admission? then 1 else 0
  {
    assert (calls + [call])[..|calls|] == calls;
  }

  lemma {:induction false} KeysAskedGrow(deeds: seq<Deed>, deed: Deed)
    ensures KeysAsked(deeds + [deed]) == KeysAsked(deeds) + if deed.Ask? then {deed.key} else {}
  {
  }

  lemma {:induction false} WaitingShape(states: seq<Sweep>, calls: seq<Call>, target: Key, capacity: nat)
    requires Waiting(states, calls, target, capacity)
    ensures |states| == |calls| + 1
  {
  }

  lemma {:induction false} NothingYet(limiter: MemoryAttemptLimiter, target: Key)
    requires limiter.Valid() && target in limiter.entries && limiter.HistoryOf(target) != []
    ensures Reclaimable(limiter.entries[target], limiter.now) <==>
            limiter.now >= Last(limiter.HistoryOf(target)).finish + limiter.policyOf(target).quiet
    ensures Waiting([SweepOf(limiter)], [], target, limiter.capacity) && KeysAdmitted([]) == {}
  {
    assert |limiter.entries.Keys| == |limiter.entries|;
    limiter.QuietKeys();
  }
}

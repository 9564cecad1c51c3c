/** The process-local attempt limiter: leases and failures are reconciled lazily,
    and quiet entries are reclaimed by a bounded cursor. */
module MemoryAttempts {
  import opened Basics
  import opened AttemptPolicies
  import opened AttemptLedger

  type Key = nat

  const CLEANUP_LIMIT: nat := 16

  datatype Lease = Lease(generation: nat, until: nat)

  datatype Entry = Entry(policy: AttemptPolicy, failures: nat, lastFailure: nat, retryAt: nat, lease: Option<Lease>)

  datatype AttemptDenial = DeniedBusy(retryAfter: nat) | DeniedBackoff(retryAfter: nat) | StorageCapacity

  datatype Admission = Admission(receipt: Receipt) | Denial(denial: AttemptDenial)

  datatype AttemptError = SequenceExhausted

  datatype Receipt = Receipt(store: MemoryAttemptLimiter, key: Key, generation: nat)

  /** How a lazily kept entry stands for the eager history of its key. */
  predicate Agrees(p: AttemptPolicy, entry: Option<Entry>, h: History, issued: seq<nat>, now: nat) {
    && |issued| == |h|
    && match entry
       case None => h == [] || Last(h).ending == Succeeded || now >= Last(h).finish + p.quiet
       case Some(e) =>
         && e.policy == p && h != [] && Last(h).ending != Succeeded
         && match e.lease
            case Some(l) =>
              && Last(h).ending == Open && Last(h).finish == l.until && l.generation == issued[|h| - 1]
              && e.failures == Min(Streak(p, h) - 1, U32_MAX)
            case None =>
              && e.lastFailure == Last(h).finish <= now
              && ((e.failures == Min(Streak(p, h), U32_MAX) && e.retryAt == Last(h).finish + Delay(p, Streak(p, h)))
                  || (now >= Last(h).finish + p.quiet && e.failures == 0 && e.retryAt <= now))
  }

  /** Generations of one key's attempts: in order, and none beyond the counter. */
  predicate Numbered(ids: seq<nat>, generation: nat) {
    && (forall i | 0 <= i < |ids| :: 1 <= ids[i] <= generation)
    && forall i, j | 0 <= i < j < |ids| :: ids[i] < ids[j]
  }

  lemma {:induction false} AgreesLater(p: AttemptPolicy, entry: Option<Entry>, h: History, issued: seq<nat>, now: nat,
                                       later: nat)
    requires Agrees(p, entry, h, issued, now) && now <= later
    ensures Agrees(p, entry, h, issued, later)
  {
  }

  /** Charges one more failure to an entry. */
  method Fail(entry: Entry, now: nat) returns (failed: Entry)
    ensures failed == entry.(failures := Min(entry.failures + 1, U32_MAX), lastFailure := now,
                             retryAt := now + Delay(entry.policy, Min(entry.failures + 1, U32_MAX)))
  {
    failed := entry.(failures := Min(entry.failures + 1, U32_MAX));
    failed := failed.(lastFailure := now);
    failed := failed.(retryAt := now + Delay(failed.policy, failed.failures));
  }

  /** Charges an expired lease at its deadline and forgets failures after a quiet
      period; the entry still stands for the same history. */
  method Reconcile(entry: Entry, now: nat, ghost p: AttemptPolicy, ghost h: History, ghost issued: seq<nat>)
    returns (current: Entry)
    requires ValidAttemptPolicy(p) && Agrees(p, Some(entry), h, issued, now)
    ensures Agrees(p, Some(current), h, issued, now) && current.policy == p && h != []
    ensures current.lease.Some? <==> Live(h, now)
    ensures current.lease.None? ==>
              && (now < current.retryAt <==> now < Last(h).finish + Delay(p, Streak(p, h)))
              && (now < current.retryAt ==> current.retryAt == Last(h).finish + Delay(p, Streak(p, h)))
              && current.failures == if now < Last(h).finish + p.quiet then Min(Streak(p, h), U32_MAX) else 0
  {
    hide Delay;
    current := entry;
    if current.lease.Some? && now >= current.lease.value.until {
      var until := current.lease.value.until;
      current := current.(lease := None);
      current := Fail(current, until);
      SaturatedCountKeepsDelay(p, Streak(p, h));
      assert Min(Min(Streak(p, h) - 1, U32_MAX) + 1, U32_MAX) == Min(Streak(p, h), U32_MAX);
    }
    DelayGrows(p, 0, Streak(p, h));
    if current.lease.None? && now >= current.lastFailure + current.policy.quiet {
      current := current.(failures := 0);
      current := current.(retryAt := now);
    }
  }

  function Deny(entry: Entry, now: nat): (denial: Option<AttemptDenial>) {
    match entry.lease
    case Some(l) => Some(DeniedBusy(Monus(l.until, now)))
    case None => if now < entry.retryAt then Some(DeniedBackoff(entry.retryAt - now)) else None
  }

  /** Keys a sweep has not reached yet. */
  function Ahead(keys: set<Key>, cursor: Option<Key>): set<Key> {
    set k | k in keys && (cursor.None? || k > cursor.value)
  }

  predicate Ascending(keys: seq<Key>) { forall i, j | 0 <= i < j < |keys| :: keys[i] < keys[j] }

  function Members(s: seq<Key>): set<Key> { set k | k in s }

  /** The next at most sixteen keys of the sweep, in order. */
  ghost predicate IsBatch(keys: set<Key>, cursor: Option<Key>, batch: seq<Key>) {
    && Ascending(batch)
    && Members(batch) <= Ahead(keys, cursor)
    && (|batch| == CLEANUP_LIMIT || (|batch| < CLEANUP_LIMIT && Members(batch) == Ahead(keys, cursor)))
    && forall done, left | done in batch && left in Ahead(keys, cursor) - Members(batch) :: done < left
  }

  /** What one sweep examines, spelled out: at most sixteen stored keys past the
      cursor, the smallest first, and all of them if there are fewer. */
  lemma {:induction false} BatchSpelled(keys: set<Key>, cursor: Option<Key>, batch: seq<Key>)
    requires IsBatch(keys, cursor, batch)
    ensures |batch| <= 16
    ensures forall i, j | 0 <= i < j < |batch| :: batch[i] < batch[j]
    ensures forall k | k in batch :: k in keys && (cursor.Some? ==> k > cursor.value)
    ensures forall k | k in keys && k !in batch ::
              (cursor.Some? && k <= cursor.value) || (|batch| == 16 && forall done | done in batch :: done < k)
  {
    forall k | k in batch ensures k in keys && (cursor.Some? ==> k > cursor.value) {
      assert k in Members(batch) && k in Ahead(keys, cursor);
    }
    forall k | k in keys && k !in batch
      ensures (cursor.Some? && k <= cursor.value) || (|batch| == 16 && forall done | done in batch :: done < k)
    {
      assert k in Ahead(keys, cursor) <==> cursor.None? || k > cursor.value;
      assert k !in Members(batch);
      assert k in Ahead(keys, cursor) ==> k in Ahead(keys, cursor) - Members(batch);
    }
  }

  /** An entry whose quiet period has fully elapsed. */
  predicate Reclaimable(e: Entry, now: nat) {
    now >= (if e.lease.Some? then e.lease.value.until else e.lastFailure) + e.policy.quiet
  }

  lemma {:induction false} LeastKey(keys: set<Key>) returns (least: Key)
    requires keys != {}
    ensures least in keys && forall k | k in keys :: least <= k
  {
    least :| least in keys;
    var rest := keys - {least};
    assert keys == rest + {least};
    if rest != {} {
      var other := LeastKey(rest);
      if other < least { least := other; }
    }
  }

  method NextBatch(keys: set<Key>, cursor: Option<Key>) returns (batch: seq<Key>)
    ensures IsBatch(keys, cursor, batch)
  {
    batch := [];
    var ahead := Ahead(keys, cursor);
    for i := 0 to CLEANUP_LIMIT
      invariant |batch| == i && Ascending(batch) && Members(batch) <= Ahead(keys, cursor)
      invariant ahead == Ahead(keys, cursor) - Members(batch)
      invariant forall done, left | done in batch && left in ahead :: done < left
    {
      if ahead == {} {
        forall k | k in Ahead(keys, cursor) ensures k in Members(batch) {
          assert k in Ahead(keys, cursor) - Members(batch) <==> k !in Members(batch);
        }
        return;
      }
      ghost var least := LeastKey(ahead);
      var next :| next in ahead && forall j | j in ahead :: next <= j;
      forall j | 0 <= j < |batch| ensures batch[j] < next {
        assert batch[j] in batch;
      }
      assert Members(batch + [next]) == Members(batch) + {next};
      batch := batch + [next];
      ahead := ahead - {next};
    }
  }

  class MemoryAttemptLimiter {
    const capacity: nat
    var entries: map<Key, Entry>
    var generation: nat
    var now: nat
    var cursor: Option<Key>
    ghost const policyOf: Key -> AttemptPolicy
    ghost var histories: map<Key, History>
    ghost var issued: map<Key, seq<nat>>

    ghost function HistoryOf(key: Key): History
      reads this
    {
      if key in histories then histories[key] else []
    }

    /** The generations handed out for a key, one per attempt of its history. */
    ghost function IssuedTo(key: Key): seq<nat>
      reads this
    {
      if key in issued then issued[key] else []
    }

    ghost function EntryOf(key: Key): Option<Entry>
      reads this
    {
      if key in entries then Some(entries[key]) else None
    }

    ghost predicate KeyValid(key: Key)
      reads this
    {
      && ValidAttemptPolicy(policyOf(key))
      && Agrees(policyOf(key), EntryOf(key), HistoryOf(key), IssuedTo(key), now)
      && Numbered(IssuedTo(key), generation)
      && Lawful(policyOf(key), HistoryOf(key), now)
    }

    /** Every stored or missing entry stands for its key's history, in which no
        attempt began before its delay was over; generations are never reused, and
        storage is bounded. */
    ghost predicate Valid()
      reads this
    {
      |entries| <= capacity && generation <= U64_MAX && forall key: Key :: KeyValid(key)
    }

    constructor (capacity: nat, ghost policyOf: Key -> AttemptPolicy)
      requires capacity >= 1 && forall key: Key :: ValidAttemptPolicy(policyOf(key))
      ensures Valid() && this.capacity == capacity && this.policyOf == policyOf
      ensures forall key: Key :: HistoryOf(key) == [] && IssuedTo(key) == []
      ensures entries == map[] && cursor == None && now == 0 && generation == 0
    {
      this.capacity := capacity;
      this.policyOf := policyOf;
      entries, generation, now, cursor := map[], 0, 0, None;
      histories, issued := map[], map[];
      new;
      forall key: Key ensures KeyValid(key) { NoAttemptsAreLegal(policyOf(key)); }
    }

    /** Examines at most sixteen entries past the cursor and drops the quiet ones. */
    method Cleanup() returns (ghost batch: seq<Key>)
      requires Valid()
      modifies this`entries, this`cursor
      ensures Valid()
      ensures IsBatch(old(entries).Keys, old(cursor), batch)
      ensures cursor == if batch == [] then None else Some(batch[|batch| - 1])
      ensures entries == Swept(old(entries), batch, now)
      ensures forall key | key in old(entries) ::
                HistoryOf(key) != [] &&
                (key !in entries <==> key in batch && now >= Last(HistoryOf(key)).finish + policyOf(key).quiet)
      ensures forall key | key in entries :: key in old(entries) && entries[key] == old(entries)[key]
    {
      hide Agrees, IsBatch, Reclaimable, Swept, Numbered, Lawful;
      QuietKeys();
      var keys := NextBatch(entries.Keys, cursor);
      batch := keys;
      cursor := if keys == [] then None else Some(keys[|keys| - 1]);
      entries := RemoveQuiet(entries, keys, now);
      SmallerMap(entries, old(entries));
      forall key: Key ensures KeyValid(key) {
        assert old(KeyValid(key));
        SweptEntry(old(entries), keys, now, key);
        if key in old(entries) && key !in entries {
          ReclaimedAgrees(policyOf(key), old(entries)[key], HistoryOf(key), IssuedTo(key), now);
        }
      }
      SweptMembers(old(entries), batch, now);
    }

    lemma {:induction false} QuietKeys()
      requires Valid()
      ensures forall key | key in entries ::
                HistoryOf(key) != [] &&
                (Reclaimable(entries[key], now) <==> now >= Last(HistoryOf(key)).finish + policyOf(key).quiet)
    {
      hide Agrees, Reclaimable, Numbered, Lawful;
      forall key | key in entries
        ensures HistoryOf(key) != []
        ensures Reclaimable(entries[key], now) <==> now >= Last(HistoryOf(key)).finish + policyOf(key).quiet
      {
        assert KeyValid(key);
        QuietByHistory(policyOf(key), entries[key], HistoryOf(key), IssuedTo(key), now);
      }
    }

    /** Reserves one attempt. The answer is the one the whole history of the key
        demands; only missing room or an exhausted sequence can add to it. */
    method Admit(key: Key, policy: AttemptPolicy, clock: nat) returns (r: Result<Admission, AttemptError>)
      requires Valid() && policy == policyOf(key)
      modifies this
      ensures Valid() && now == Max(old(now), clock)
      ensures forall k: Key | k != key :: HistoryOf(k) == old(HistoryOf(k)) && IssuedTo(k) == old(IssuedTo(k))
      ensures SweptAround(old(entries), old(cursor), entries, cursor, key, now)
      ensures var verdict := Judge(policy, old(HistoryOf(key)), now);
              match r
              case Ok(Admission(receipt)) =>
                && verdict == AttemptLedger.Verdict.Admit && receipt == Receipt(this, key, generation)
                && generation == old(generation) + 1
                && HistoryOf(key) == Admitted(policy, old(HistoryOf(key)), now)
                && IssuedTo(key) == old(IssuedTo(key)) + [generation]
              case Ok(Denial(denial)) =>
                && HistoryOf(key) == old(HistoryOf(key)) && IssuedTo(key) == old(IssuedTo(key))
                   && generation == old(generation)
                && (match denial
                    case DeniedBusy(d) => verdict == Busy(d)
                    case DeniedBackoff(d) => verdict == Backoff(d)
                    case StorageCapacity =>
                      verdict == AttemptLedger.Verdict.Admit && key !in entries && |entries| == capacity)
              case Err(_) =>
                && verdict == AttemptLedger.Verdict.Admit && generation == 0xFFFF_FFFF_FFFF_FFFF
                && HistoryOf(key) == old(HistoryOf(key)) && IssuedTo(key) == old(IssuedTo(key))
                   && generation == old(generation)
      ensures match r
              case Ok(Denial(DeniedBusy(d))) =>
                forall later: nat | later >= now :: Live(HistoryOf(key), later) <==> later < now + d
              case Ok(Denial(DeniedBackoff(d))) =>
                forall later: nat | later >= now ::
                  Judge(policy, HistoryOf(key), later) == AttemptLedger.Verdict.Admit <==> later >= now + d
              case Ok(Admission(_)) =>
                forall later: nat | later >= now :: Live(HistoryOf(key), later) <==> later < now + policy.lease
              case _ => true
    {
      hide Agrees, Delay, Streak, IsBatch, Judge, Live, Admitted, Swept, SweptAround, Lawful,
           MemoryAttemptLimiter.Valid;
      now := Max(now, clock);
      StillAgrees(old(now));
      ghost var batch := Cleanup();
      SweptIsAround(old(entries), old(cursor), batch, key, now);
      ghost var swept := entries;
      r := Decide(key, policy);
      AroundKey(old(entries), old(cursor), swept, entries, cursor, key, now);
    }

    /** The admission once its sweep is done. */
    method Decide(key: Key, policy: AttemptPolicy) returns (r: Result<Admission, AttemptError>)
      requires Valid() && policy == policyOf(key)
      modifies this`entries, this`generation, this`histories, this`issued
      ensures Valid()
      ensures forall k: Key | k != key :: HistoryOf(k) == old(HistoryOf(k)) && IssuedTo(k) == old(IssuedTo(k))
      ensures forall k | k != key :: k in old(entries) <==> k in entries
      ensures forall k | k != key && k in old(entries) :: entries[k] == old(entries)[k]
      ensures var verdict := Judge(policy, old(HistoryOf(key)), now);
              match r
              case Ok(Admission(receipt)) =>
                && verdict == AttemptLedger.Verdict.Admit && receipt == Receipt(this, key, generation)
                && generation == old(generation) + 1
                && HistoryOf(key) == Admitted(policy, old(HistoryOf(key)), now)
                && IssuedTo(key) == old(IssuedTo(key)) + [generation]
              case Ok(Denial(denial)) =>
                && HistoryOf(key) == old(HistoryOf(key)) && IssuedTo(key) == old(IssuedTo(key))
                   && generation == old(generation)
                && (match denial
                    case DeniedBusy(d) => verdict == Busy(d)
                    case DeniedBackoff(d) => verdict == Backoff(d)
                    case StorageCapacity =>
                      verdict == AttemptLedger.Verdict.Admit && key !in entries && |entries| == capacity)
              case Err(_) =>
                && verdict == AttemptLedger.Verdict.Admit && generation == 0xFFFF_FFFF_FFFF_FFFF
                && HistoryOf(key) == old(HistoryOf(key)) && IssuedTo(key) == old(IssuedTo(key))
                   && generation == old(generation)
      ensures match r
              case Ok(Denial(DeniedBusy(d))) =>
                forall later: nat | later >= now :: Live(HistoryOf(key), later) <==> later < now + d
              case Ok(Denial(DeniedBackoff(d))) =>
                forall later: nat | later >= now ::
                  Judge(policy, HistoryOf(key), later) == AttemptLedger.Verdict.Admit <==> later >= now + d
              case Ok(Admission(_)) =>
                forall later: nat | later >= now :: Live(HistoryOf(key), later) <==> later < now + policy.lease
              case _ => true
    {
      hide Agrees, Delay, Streak, Judge, Live, Admitted, Admissible, Lawful, MemoryAttemptLimiter.Valid;
      AnswersLast(policy, HistoryOf(key), now);
      var denial := Ask(key, policy);
      if denial.Some? { return Ok(Denial(denial.value)); }
      if generation == U64_MAX { return Err(SequenceExhausted); }
      Reserve(key, policy);
      return Ok(Admission(Receipt(this, key, generation)));
    }

    /** Applies the outcome of an attempt to the live reservation that opened it,
        once; any other receipt is stale and changes no entry. */
    method Complete(receipt: Receipt, outcome: Outcome, clock: nat) returns (completion: Completion)
      requires Valid()
      modifies this
      ensures Valid() && now == Max(old(now), clock) && generation == old(generation) && cursor == old(cursor)
      ensures forall k: Key :: IssuedTo(k) == old(IssuedTo(k))
      ensures forall k: Key | k != receipt.key :: HistoryOf(k) == old(HistoryOf(k)) && EntryOf(k) == old(EntryOf(k))
      ensures forall index: nat |
                receipt.store == this && index < |IssuedTo(receipt.key)|
                && IssuedTo(receipt.key)[index] == receipt.generation ::
                (HistoryOf(receipt.key), completion) ==
                AttemptLedger.Complete(policyOf(receipt.key), old(HistoryOf(receipt.key)), index, outcome, now)
      ensures receipt.store != this || receipt.generation !in IssuedTo(receipt.key) ==> completion == Stale
      ensures completion == Stale ==> entries == old(entries) && HistoryOf(receipt.key) == old(HistoryOf(receipt.key))
      ensures entries.Keys <= old(entries).Keys
      ensures completion.Applied? ==>
              receipt.key in old(entries) && (outcome == Success ==> entries == old(entries) - {receipt.key})
    {
      hide Agrees, Delay, Streak, Numbered, Lawful;
      now := Max(now, clock);
      StillAgrees(old(now));
      var key := receipt.key;
      ghost var p, h, ids := policyOf(key), HistoryOf(key), IssuedTo(key);
      assert KeyValid(key);
      OnlyLastIsLive(p, EntryOf(key), h, ids, now, generation);
      if key !in entries || receipt.store != this { return Stale; }
      var entry := entries[key];
      if entry.lease.None? || entry.lease.value.generation != receipt.generation || now >= entry.lease.value.until {
        return Stale;
      }
      entry := entry.(lease := None);
      var failures, delay := 0, 0;
      if outcome != Success {
        entry := Fail(entry, now);
        failures, delay := entry.failures, Delay(entry.policy, entry.failures);
      }
      ClosedAgrees(p, entries[key], entry, h, ids, now, outcome);
      Settle(key, entry, outcome);
      completion := Completed(outcome, failures, delay);
    }

    /** Removes a succeeded entry, stores a failed one. */
    method Settle(key: Key, entry: Entry, outcome: Outcome)
      requires Valid() && key in entries && HistoryOf(key) != [] && Live(HistoryOf(key), now)
      requires Agrees(policyOf(key), if outcome == Success then None else Some(entry),
                      Closed(HistoryOf(key), now, outcome), IssuedTo(key), now)
      modifies this`entries, this`histories
      ensures Valid() && HistoryOf(key) == Closed(old(HistoryOf(key)), now, outcome)
      ensures entries == if outcome == Success then old(entries) - {key} else old(entries)[key := entry]
      ensures forall k: Key | k != key :: HistoryOf(k) == old(HistoryOf(k)) && EntryOf(k) == old(EntryOf(k))
    {
      hide Agrees, Numbered, Closed, Lawful, Live;
      assert KeyValid(key);
      ClosingIsLawful(policyOf(key), HistoryOf(key), now, outcome);
      if outcome == Success {
        SmallerMap(entries - {key}, entries);
        entries := entries - {key};
      } else {
        RoomForOne(entries, key, entry);
        entries := entries[key := entry];
      }
      histories := histories[key := Closed(HistoryOf(key), now, outcome)];
      forall k: Key ensures KeyValid(k) { assert old(KeyValid(k)); }
    }

    /** What a freshly reconciled key may look like when it is admitted. */
    ghost predicate Admissible(key: Key, policy: AttemptPolicy)
      reads this
    {
      var h := HistoryOf(key);
      && (key in entries ==>
            && h != [] && entries[key].policy == policy && entries[key].lease.None?
            && entries[key].failures == if now < Last(h).finish + policy.quiet then Min(Streak(policy, h), U32_MAX)
               else 0)
      && (key !in entries ==>
          |entries| < capacity && (h != [] && Last(h).ending != Succeeded ==> now >= Last(h).finish + policy.quiet))
    }

    /** Reconciles the key's entry and says why it must wait, if it must. */
    method Ask(key: Key, policy: AttemptPolicy) returns (denial: Option<AttemptDenial>)
      requires Valid() && policy == policyOf(key)
      modifies this`entries
      ensures Valid() && generation <= U64_MAX && entries.Keys == old(entries).Keys
      ensures forall k | k in entries && k != key :: entries[k] == old(entries)[k]
      ensures var verdict := Judge(policy, HistoryOf(key), now);
              match denial
              case None => verdict == AttemptLedger.Verdict.Admit && Admissible(key, policy)
              case Some(DeniedBusy(d)) => verdict == Busy(d)
              case Some(DeniedBackoff(d)) => verdict == Backoff(d)
              case Some(StorageCapacity) =>
                verdict == AttemptLedger.Verdict.Admit && key !in entries && |entries| == capacity
    {
      hide Delay, Streak, Agrees, Judge, Numbered, Lawful;
      ghost var h, ids := HistoryOf(key), IssuedTo(key);
      assert KeyValid(key);
      if key in entries {
        var current := Reconcile(entries[key], now, policy, h, ids);
        entries := entries[key := current];
        assert entries.Keys == old(entries).Keys && |entries| == |entries.Keys| == |old(entries)|;
        ReconciledAnswers(policy, current, h, ids, now);
        forall k: Key ensures KeyValid(k) { assert old(KeyValid(k)); }
        return Deny(current, now);
      }
      AbsentAdmits(policy, h, ids, now);
      return if |entries| >= capacity then Some(StorageCapacity) else None;
    }

    /** Takes the next generation and opens the attempt. */
    method Reserve(key: Key, policy: AttemptPolicy)
      requires Valid() && policy == policyOf(key) && generation < U64_MAX
      requires Admissible(key, policy) && Judge(policy, HistoryOf(key), now) == AttemptLedger.Verdict.Admit
      modifies this`entries, this`generation, this`histories, this`issued
      ensures Valid() && generation == old(generation) + 1
      ensures HistoryOf(key) == Admitted(policy, old(HistoryOf(key)), now)
      ensures IssuedTo(key) == old(IssuedTo(key)) + [generation]
      ensures entries.Keys == old(entries).Keys + {key}
              && forall k | k in old(entries) && k != key :: entries[k] == old(entries)[k]
      ensures forall k: Key | k != key :: HistoryOf(k) == old(HistoryOf(k)) && IssuedTo(k) == old(IssuedTo(k))
    {
      hide Streak, Agrees, Numbered, Admitted, Judge, Lawful;
      ghost var h, ids := HistoryOf(key), IssuedTo(key);
      assert KeyValid(key);
      NumberedSnoc(ids, generation);
      generation := generation + 1;
      StillNumbered();
      var entry := if key in entries then entries[key] else Entry(policy, 0, now, now, None);
      entry := entry.(lease := Some(Lease(generation, now + entry.policy.lease)));
      AdmittedAgrees(policy, EntryOf(key), entry, h, ids, now, generation);
      AdmissionIsLawful(policy, h, now);
      Write(key, entry, Admitted(policy, h, now), ids + [generation]);
    }

    /** Stores the entry of a key whose history has moved on. */
    method Write(key: Key, entry: Entry, ghost h: History, ghost ids: seq<nat>)
      requires Valid() && (key in entries || |entries| < capacity)
      requires Agrees(policyOf(key), Some(entry), h, ids, now) && Numbered(ids, generation)
               && Lawful(policyOf(key), h, now)
      modifies this`entries, this`histories, this`issued
      ensures Valid() && entries == old(entries)[key := entry] && HistoryOf(key) == h && IssuedTo(key) == ids
      ensures forall k: Key | k != key :: HistoryOf(k) == old(HistoryOf(k)) && IssuedTo(k) == old(IssuedTo(k))
    {
      hide Agrees, Numbered, Lawful;
      RoomForOne(entries, key, entry);
      entries := entries[key := entry];
      histories := histories[key := h];
      issued := issued[key := ids];
      forall k: Key ensures KeyValid(k) { assert old(KeyValid(k)); }
    }

    /** Generations handed out stay below a larger counter. */
    twostate lemma {:induction false} StillNumbered()
      requires old(Valid()) && generation == old(generation) + 1 <= U64_MAX
      requires unchanged(this`entries, this`histories, this`issued, this`now)
      ensures Valid()
    {
      hide Agrees, Numbered, Lawful;
      forall key: Key ensures KeyValid(key) {
        assert old(KeyValid(key));
        NumberedSnoc(IssuedTo(key), old(generation));
      }
    }

    /** After the clock moves on, every entry still stands for its history. */
    twostate lemma {:induction false} StillAgrees(earlier: nat)
      requires earlier == old(now) <= now && unchanged(this`entries, this`histories, this`issued)
      requires old(Valid()) && generation == old(generation)
      ensures Valid()
    {
      hide Agrees, Numbered, Lawful;
      forall key: Key ensures KeyValid(key) {
        assert old(KeyValid(key));
        LawfulLater(policyOf(key), HistoryOf(key), earlier, now);
        AgreesLater(policyOf(key), EntryOf(key), HistoryOf(key), IssuedTo(key), earlier, now);
      }
    }
  }

  /** Until somebody touches the history, what was answered now stays true. */
  lemma {:induction false} AnswersLast(p: AttemptPolicy, h: History, now: nat)
    ensures match Judge(p, h, now)
            case Busy(d) => forall later: nat | later >= now :: Live(h, later) <==> later < now + d
            case Backoff(d) =>
              forall later: nat | later >= now ::
                Judge(p, h, later) == AttemptLedger.Verdict.Admit <==> later >= now + d
            case Admit => true
    ensures forall later: nat | later >= now :: Live(Admitted(p, h, now), later) <==> later < now + p.lease
  {
    hide Judge, Live, Admitted;
    forall later: nat | later >= now
      ensures Judge(p, h, now).Busy? ==> (Live(h, later) <==> later < now + Judge(p, h, now).retryAfter)
      ensures Judge(p, h, now).Backoff? ==>
                (Judge(p, h, later) == AttemptLedger.Verdict.Admit <==> later >= now + Judge(p, h, now).retryAfter)
      ensures Live(Admitted(p, h, now), later) <==> later < now + p.lease
    {
      DelaysAreExact(p, h, now, later);
      AdmissionOpensLease(p, h, now, later);
      BusyWhileLive(p, Admitted(p, h, now), later);
    }
  }

  lemma {:induction false} BusyWhileLive(p: AttemptPolicy, h: History, now: nat)
    ensures Judge(p, h, now).Busy? ==> Live(h, now)
  {
    hide Delay, Streak;
  }

  lemma {:induction false} NumberedSnoc(ids: seq<nat>, generation: nat)
    requires Numbered(ids, generation)
    ensures Numbered(ids, generation + 1) && Numbered(ids + [generation + 1], generation + 1)
  {
  }

  /** The entries left once the quiet ones of a batch are gone. */
  function Swept(entries: map<Key, Entry>, batch: seq<Key>, now: nat): map<Key, Entry> {
    map k | k in entries && !(k in batch && Reclaimable(entries[k], now)) :: entries[k]
  }

  lemma {:induction false} SweptStep(entries: map<Key, Entry>, batch: seq<Key>, i: nat, now: nat)
    requires i < |batch|
    ensures var kept := Swept(entries, batch[..i], now);
            Swept(entries, batch[..i + 1], now) ==
            if batch[i] in kept && Reclaimable(kept[batch[i]], now) then kept - {batch[i]} else kept
  {
    hide Reclaimable;
    assert batch[..i + 1] == batch[..i] + [batch[i]];
  }

  /** The bounded sweep around an admission of `key`: nothing else is touched. */
  ghost predicate SweptAround(before: map<Key, Entry>, cursor: Option<Key>, after: map<Key, Entry>, moved: Option<Key>,
                              key: Key, now: nat) {
    exists batch: seq<Key> ::
      && IsBatch(before.Keys, cursor, batch)
      && moved == (if batch == [] then None else Some(batch[|batch| - 1]))
      && (forall k | k != key :: k in after <==> k in Swept(before, batch, now))
      && forall k | k != key && k in after :: after[k] == before[k]
  }

  lemma {:induction false} SweptIsAround(before: map<Key, Entry>, cursor: Option<Key>, batch: seq<Key>, key: Key,
                                         now: nat)
    requires IsBatch(before.Keys, cursor, batch)
    ensures SweptAround(before, cursor, Swept(before, batch, now), if batch == [] then None
                        else Some(batch[|batch| - 1]), key, now)
  {
    hide IsBatch;
  }

  lemma {:induction false} AroundKey(before: map<Key, Entry>, cursor: Option<Key>, middle: map<Key, Entry>,
                                     after: map<Key, Entry>, moved: Option<Key>, key: Key, now: nat)
    requires SweptAround(before, cursor, middle, moved, key, now)
    requires forall k | k != key :: k in middle <==> k in after
    requires forall k | k != key && k in middle :: after[k] == middle[k]
    ensures SweptAround(before, cursor, after, moved, key, now)
  {
    hide IsBatch, Swept;
  }

  /** `AttemptCompletion::new` accepts exactly consistent metadata. */
  predicate Consistent(outcome: Outcome, failures: nat, retryAfter: nat) {
    if outcome == Success then failures == 0 && retryAfter == 0 else failures > 0 && retryAfter > 0
  }

  function Completed(outcome: Outcome, failures: nat, retryAfter: nat): Completion
    requires Consistent(outcome, failures, retryAfter)
  {
    Applied(outcome, failures, retryAfter)
  }

  /** Only the last attempt of a key can be live, exactly while its lease is. */
  lemma {:induction false} OnlyLastIsLive(p: AttemptPolicy, entry: Option<Entry>, h: History, ids: seq<nat>, now: nat,
                                          generation: nat)
    requires Agrees(p, entry, h, ids, now) && Numbered(ids, generation)
    ensures entry.Some? ==> entry.value.policy == p
    ensures entry.Some? && entry.value.lease.Some? ==> entry.value.lease.value.generation in ids
    ensures Live(h, now) <==> entry.Some? && entry.value.lease.Some? && now < entry.value.lease.value.until
    ensures Live(h, now) ==>
              forall index: nat | index < |ids| :: ids[index] == entry.value.lease.value.generation <==>
                     index == |h| - 1
  {
    hide Streak, Delay;
  }

  lemma {:induction false} ClosedAgrees(p: AttemptPolicy, before: Entry, after: Entry, h: History, ids: seq<nat>,
                                        now: nat, outcome: Outcome)
    requires ValidAttemptPolicy(p) && Agrees(p, Some(before), h, ids, now) && Live(h, now) && before.lease.Some?
    requires outcome != Success ==>
               after == before.(lease := None, failures := Min(before.failures + 1, U32_MAX), lastFailure := now,
                                retryAt := now + Delay(p, Min(before.failures + 1, U32_MAX)))
    ensures before.policy == p
    ensures Agrees(p, if outcome == Success then None else Some(after), Closed(h, now, outcome), ids, now)
    ensures var streak := Streak(p, Closed(h, now, outcome));
            if outcome == Success then streak == 0 && Delay(p, streak) == 0
            else after.failures == Min(streak, U32_MAX) > 0 && Delay(p, after.failures) == Delay(p, streak) > 0
  {
    hide Delay;
    ClosedStreak(p, h, now, outcome);
    NoFailuresNoDelay(p);
    if outcome != Success {
      SaturatedCountKeepsDelay(p, Streak(p, h));
      DelayGrows(p, 0, Streak(p, h));
    }
  }

  lemma {:induction false} SweptMembers(entries: map<Key, Entry>, batch: seq<Key>, now: nat)
    ensures var kept := Swept(entries, batch, now);
            && (forall key | key in kept :: key in entries && kept[key] == entries[key])
            && forall key | key in entries :: key !in kept <==> key in batch && Reclaimable(entries[key], now)
  {
    hide Reclaimable;
  }

  lemma {:induction false} SweptEntry(entries: map<Key, Entry>, batch: seq<Key>, now: nat, key: Key)
    ensures var kept := Swept(entries, batch, now);
            && kept.Keys <= entries.Keys
            && (key in kept ==> kept[key] == entries[key])
            && (key in entries && key !in kept ==> key in batch && Reclaimable(entries[key], now))
  {
    hide Reclaimable;
  }

  method RemoveQuiet(entries: map<Key, Entry>, batch: seq<Key>, now: nat) returns (kept: map<Key, Entry>)
    ensures kept == Swept(entries, batch, now) && kept.Keys <= entries.Keys
  {
    hide Reclaimable;
    kept := entries;
    for i := 0 to |batch|
      invariant kept == Swept(entries, batch[..i], now)
    {
      SweptStep(entries, batch, i, now);
      if batch[i] in kept && Reclaimable(kept[batch[i]], now) {
        kept := kept - {batch[i]};
      }
    }
    assert batch[..|batch|] == batch;
  }

  /** Whether an entry is quiet can be read off its key's history. */
  lemma {:induction false} QuietByHistory(p: AttemptPolicy, e: Entry, h: History, issued: seq<nat>, now: nat)
    requires Agrees(p, Some(e), h, issued, now)
    ensures h != [] && (Reclaimable(e, now) <==> now >= Last(h).finish + p.quiet)
  {
    hide Streak, Delay;
  }

  lemma {:induction false} ReclaimedAgrees(p: AttemptPolicy, e: Entry, h: History, issued: seq<nat>, now: nat)
    requires Agrees(p, Some(e), h, issued, now) && Reclaimable(e, now)
    ensures Agrees(p, None, h, issued, now)
  {
  }

  lemma {:induction false} AbsentAdmits(p: AttemptPolicy, h: History, issued: seq<nat>, now: nat)
    requires ValidAttemptPolicy(p) && Agrees(p, None, h, issued, now)
    ensures Judge(p, h, now) == AttemptLedger.Verdict.Admit
    ensures h != [] && Last(h).ending != Succeeded ==> now >= Last(h).finish + p.quiet
  {
    hide Delay;
    DelayGrows(p, 0, Streak(p, h));
  }

  lemma {:induction false} ReconciledAnswers(p: AttemptPolicy, e: Entry, h: History, issued: seq<nat>, now: nat)
    requires Agrees(p, Some(e), h, issued, now)
    requires e.lease.Some? <==> Live(h, now)
    requires e.lease.None? ==>
               && (now < e.retryAt <==> now < Last(h).finish + Delay(p, Streak(p, h)))
               && (now < e.retryAt ==> e.retryAt == Last(h).finish + Delay(p, Streak(p, h)))
    ensures match Deny(e, now)
            case None => Judge(p, h, now) == AttemptLedger.Verdict.Admit && e.lease.None?
            case Some(DeniedBusy(d)) => Judge(p, h, now) == Busy(d)
            case Some(DeniedBackoff(d)) => Judge(p, h, now) == Backoff(d)
            case Some(StorageCapacity) => false
  {
    hide Delay, Streak;
  }

  lemma {:induction false} AdmittedAgrees(p: AttemptPolicy, before: Option<Entry>, e: Entry, h: History,
                                          issued: seq<nat>, now: nat, generation: nat)
    requires Agrees(p, before, h, issued, now) && e.policy == p
    requires e.lease == Some(Lease(generation, now + p.lease))
    requires match before
             case Some(b) =>
               e.failures == b.failures && h != [] &&
               b.failures == if now < Last(h).finish + p.quiet then Min(Streak(p, h), U32_MAX) else 0
             case None =>
               e.failures == 0
               && (h != [] && Last(h).ending != Succeeded ==> now >= Last(h).finish + p.quiet)
    ensures Agrees(p, Some(e), Admitted(p, h, now), issued + [generation], now)
  {
    AdmittedStreak(p, h, now);
  }

  lemma {:induction false} RoomForOne<V>(m: map<Key, V>, key: Key, v: V)
    ensures |m[key := v]| == |m| + if key in m then 0 else 1
  {
    assert m[key := v].Keys == m.Keys + {key};
    assert |m| == |m.Keys| && |m[key := v]| == |m[key := v].Keys|;
  }
}

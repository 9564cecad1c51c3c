/** One bounded shard: a counter map and an expiry-ordered index kept in step,
    with cleanup that removes a bounded number of the earliest expired counters. */
module Shards {
  import opened Basics
  import opened Policies
  import opened Counters

  datatype Expiration = Expiration(expiresAt: nat, key: CounterKey)

  predicate AtMost(a: Expiration, b: Expiration) {
    a.expiresAt < b.expiresAt || (a.expiresAt == b.expiresAt && a.key <= b.key)
  }

  function Index(entries: Entries): set<Expiration> {
    set k | k in entries :: Expiration(entries[k].expiresAt, k)
  }

  function Expired(entries: Entries, now: nat): set<CounterKey> {
    set k | k in entries && entries[k].expiresAt <= now
  }

  /** Exactly the `removed` smallest (expiry, key) pairs of `before` are gone, and
      every one of them had expired. */
  ghost predicate Pruned(before: Entries, after: Entries, now: nat, removed: nat) {
    && after.Keys <= before.Keys
    && (forall k | k in after :: after[k] == before[k])
    && before.Keys - after.Keys <= Expired(before, now)
    && |before.Keys - after.Keys| == removed
    && forall gone, kept | gone in before.Keys - after.Keys && kept in after ::
         AtMost(Expiration(before[gone].expiresAt, gone), Expiration(before[kept].expiresAt, kept))
  }

  /** Cleanup never removes an active counter. */
  lemma {:induction false} PrunedKeepsActive(before: Entries, after: Entries, now: nat, removed: nat)
    requires Pruned(before, after, now, removed)
    ensures Active(after, now) == Active(before, now)
  {
    forall k | k in before && before[k].expiresAt > now ensures k in after {
      assert k in before.Keys - after.Keys <==> k !in after;
    }
  }

  /** What is removed expired no later than what is kept, the smaller key first. */
  lemma {:induction false} PrunedEarliest(before: Entries, after: Entries, now: nat, removed: nat, gone: CounterKey,
                                          kept: CounterKey)
    requires Pruned(before, after, now, removed) && gone in before && gone !in after && kept in after
    ensures before[gone].expiresAt <= now && after[kept] == before[kept]
    ensures before[gone].expiresAt < after[kept].expiresAt
            || (before[gone].expiresAt == after[kept].expiresAt && gone < kept)
  {
    assert gone in before.Keys - after.Keys;
  }

  lemma {:induction false} PrunedSizes(before: Entries, after: Entries, now: nat, removed: nat)
    requires Pruned(before, after, now, removed)
    ensures |after| + removed == |before|
    ensures |Expired(after, now)| + removed == |Expired(before, now)|
  {
    hide Pruned;
    var gone := before.Keys - after.Keys;
    PrunedParts(before, after, now, removed);
    assert before.Keys == after.Keys + gone && |before| == |before.Keys| && |after| == |after.Keys|;
  }

  /** At most `budget` counters are gone, and expired ones are left only beyond it. */
  predicate BoundedCleanup(before: Entries, after: Entries, now: nat, budget: nat) {
    |before.Keys - after.Keys| <= budget && |Expired(after, now)| <= Monus(|Expired(before, now)|, budget)
  }

  lemma {:induction false} PruneIsBounded(before: Entries, after: Entries, now: nat, removed: nat, budget: nat)
    requires Pruned(before, after, now, removed) && removed == Min(budget, |Expired(before, now)|)
    ensures BoundedCleanup(before, after, now, budget)
  {
    PrunedSizes(before, after, now, removed);
    PrunedParts(before, after, now, removed);
  }

  lemma {:induction false} InsertStaysBounded(before: Entries, after: Entries, now: nat, budget: nat, key: CounterKey,
                                              stored: Stored)
    requires BoundedCleanup(before, after, now, budget) && stored.expiresAt > now
    ensures BoundedCleanup(before, after[key := stored], now, budget)
  {
    hide Expired;
    StillExpired(after, now, key, stored);
    SubsetSize(Expired(after[key := stored], now), Expired(after, now));
    FewerMissing(before.Keys, after.Keys, after[key := stored].Keys);
  }

  lemma {:induction false} FewerMissing(all: set<CounterKey>, some: set<CounterKey>, more: set<CounterKey>)
    requires some <= more
    ensures |all - more| <= |all - some|
  {
    SubsetSize(all - more, all - some);
  }

  lemma {:induction false} StillExpired(entries: Entries, now: nat, key: CounterKey, stored: Stored)
    requires stored.expiresAt > now
    ensures Expired(entries[key := stored], now) <= Expired(entries, now)
  {
  }

  lemma {:induction false} PrunedParts(before: Entries, after: Entries, now: nat, removed: nat)
    requires Pruned(before, after, now, removed)
    ensures var gone := before.Keys - after.Keys;
            |gone| == removed && after.Keys <= before.Keys &&
            gone !! Expired(after, now) && Expired(before, now) == Expired(after, now) + gone
  {
  }

  lemma {:induction false} LeastExists(s: set<Expiration>)
    requires s != {}
    ensures exists e :: e in s && forall f | f in s :: AtMost(e, f)
  {
    var e :| e in s;
    var rest := s - {e};
    if rest != {} {
      LeastExists(rest);
      var least :| least in rest && forall f | f in rest :: AtMost(least, f);
      var m := if AtMost(e, least) then e else least;
      forall f | f in s ensures AtMost(m, f) {
        if f != e { assert f in rest; }
      }
    } else {
      assert s == {e};
      assert AtMost(e, e);
    }
  }

  lemma {:induction false} ReindexReplaced(entries: Entries, key: CounterKey, stored: Stored)
    ensures Index(entries[key := stored]) ==
            (Index(entries) - if key in entries then {Expiration(entries[key].expiresAt, key)} else {})
            + {Expiration(stored.expiresAt, key)}
  {
    var updated := entries[key := stored];
    assert forall k | k in entries && k != key :: updated[k] == entries[k];
    assert updated[key] == stored && key in updated;
  }

  lemma {:induction false} ReindexRemoved(entries: Entries, key: CounterKey)
    requires key in entries
    ensures Index(entries - {key}) == Index(entries) - {Expiration(entries[key].expiresAt, key)}
  {
    var rest := entries - {key};
    assert forall k | k in rest :: k in entries && rest[k] == entries[k];
    forall e | e in Index(entries) && e.key != key ensures e in Index(rest) {
      assert e.key in rest && e == Expiration(rest[e.key].expiresAt, e.key);
    }
  }

  class Shard {
    const capacity: nat
    var latestObserved: nat
    var entries: Entries
    var expirations: set<Expiration>

    /** The index holds exactly the (expiry, key) pairs of the map. */
    ghost predicate Valid()
      reads this
    {
      expirations == Index(entries)
    }

    /** The simple shard this one stands for. */
    ghost function Abs(): Counters
      reads this
    {
      Counters(capacity, latestObserved, Active(entries, latestObserved))
    }

    constructor (capacity: nat)
      ensures Valid() && this.capacity == capacity && entries == map[] && latestObserved == 0
    {
      this.capacity := capacity;
      latestObserved, entries, expirations := 0, map[], {};
    }

    function Used(): nat reads this { |entries| }

    predicate ContainsKey(key: CounterKey) reads this { key in entries }

    function ActiveEntry(key: CounterKey, now: nat): (r: Option<Stored>)
      reads this
      ensures r == Lookup(Active(entries, now), key)
    {
      if key in entries && entries[key].expiresAt > now then Some(entries[key]) else None
    }

    method RecordObserved(now: nat)
      modifies this`latestObserved
      ensures latestObserved == now
    {
      latestObserved := now;
    }

    method UpdateValue(key: CounterKey, value: nat)
      requires Valid() && key in entries
      modifies this`entries
      ensures Valid() && entries == old(entries)[key := Stored(value, old(entries)[key].expiresAt)]
    {
      ReindexReplaced(entries, key, entries[key].(value := value));
      entries := entries[key := entries[key].(value := value)];
    }

    method Replace(key: CounterKey, value: nat, expiresAt: nat)
      requires Valid()
      modifies this`entries, this`expirations
      ensures Valid() && entries == old(entries)[key := Stored(value, expiresAt)]
    {
      ReindexReplaced(entries, key, Stored(value, expiresAt));
      var previous := Lookup(entries, key);
      entries := entries[key := Stored(value, expiresAt)];
      if previous.Some? {
        expirations := expirations - {Expiration(previous.value.expiresAt, key)};
      }
      expirations := expirations + {Expiration(expiresAt, key)};
    }

    method First() returns (first: Option<Expiration>)
      ensures first.None? ==> expirations == {}
      ensures first.Some? ==> first.value in expirations && forall e | e in expirations :: AtMost(first.value, e)
    {
      if expirations == {} { return None; }
      LeastExists(expirations);
      var least :| least in expirations && forall e | e in expirations :: AtMost(least, e);
      return Some(least);
    }

    /** Removes the `min(maximum, number expired)` smallest pairs. */
    method PruneExpired(now: nat, maximum: nat) returns (removed: nat)
      requires Valid()
      modifies this`entries, this`expirations
      ensures Valid() && Pruned(old(entries), entries, now, removed)
      ensures removed == Min(maximum, |Expired(old(entries), now)|)
    {
      removed := 0;
      for i := 0 to maximum
        invariant removed == i && Valid() && Pruned(old(entries), entries, now, removed)
      {
        PrunedSizes(old(entries), entries, now, removed);
        var first := First();
        if first.None? || first.value.expiresAt > now {
          NoneExpired(entries, first, now);
          return;
        }
        var Expiration(_, key) := first.value;
        ghost var before := entries;
        ReindexRemoved(entries, key);
        expirations := expirations - {first.value};
        entries := entries - {key};
        removed := removed + 1;
        PruneOneMore(old(entries), before, key, now, i);
      }
      PrunedSizes(old(entries), entries, now, removed);
    }

    /** Delay until the earliest stored counter expires, if there is one. */
    method CapacityRetryAfter(now: nat) returns (delay: Option<nat>)
      requires Valid()
      ensures delay.None? <==> entries == map[]
      ensures delay.Some? ==> exists t: nat :: IsEarliest(entries, t) && delay.value == Max(1, Monus(t, now))
    {
      var first := First();
      match first
      case None =>
        assert forall k | k in entries :: Expiration(entries[k].expiresAt, k) in expirations;
        delay := None;
      case Some(e) =>
        delay := Some(Max(1, Monus(e.expiresAt, now)));
        assert e.key in entries && entries[e.key].expiresAt == e.expiresAt;
        forall k | k in entries ensures e.expiresAt <= entries[k].expiresAt {
          assert Expiration(entries[k].expiresAt, k) in expirations;
        }
        assert IsEarliest(entries, e.expiresAt);
    }
  }

  lemma {:induction false} NoneExpired(entries: Entries, first: Option<Expiration>, now: nat)
    requires first.None? ==> Index(entries) == {}
    requires first.Some? ==> first.value.expiresAt > now && forall e | e in Index(entries) :: AtMost(first.value, e)
    ensures Expired(entries, now) == {}
  {
    forall k | k in entries ensures entries[k].expiresAt > now {
      assert Expiration(entries[k].expiresAt, k) in Index(entries);
    }
  }

  lemma {:induction false} PruneOneMore(start: Entries, before: Entries, key: CounterKey, now: nat, removed: nat)
    requires Pruned(start, before, now, removed) && key in before && before[key].expiresAt <= now
    requires forall e | e in Index(before) :: AtMost(Expiration(before[key].expiresAt, key), e)
    ensures Pruned(start, before - {key}, now, removed + 1)
  {
    var after := before - {key};
    assert start.Keys - after.Keys == (start.Keys - before.Keys) + {key};
    forall gone, kept | gone in start.Keys - after.Keys && kept in after
      ensures AtMost(Expiration(start[gone].expiresAt, gone), Expiration(start[kept].expiresAt, kept))
    {
      assert Expiration(before[kept].expiresAt, kept) in Index(before);
    }
  }
}

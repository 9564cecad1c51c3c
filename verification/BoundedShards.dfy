/** The fixed array of shards both memory stores own, and why bounded cleanup
    decides as unbounded cleanup would. */
module BoundedShards {
  import opened Basics
  import opened Policies
  import opened Counters
  import opened Shards
  import opened StoreConfig

  ghost predicate WellFormed(shards: seq<Shard>, config: Config)
    reads shards
  {
    && config.Valid() && |shards| == config.shardCount
    && (forall i, j | 0 <= i < j < |shards| :: shards[i] != shards[j])
    && forall i | 0 <= i < |shards| ::
         shards[i].Valid() && shards[i].capacity == config.ShardCapacity(i) && |shards[i].entries| <= shards[i].capacity
  }

  /** The simple store these shards stand for. */
  ghost function View(shards: seq<Shard>): (v: Store)
    reads shards
    ensures |v| == |shards|
  {
    seq(|shards|, i requires 0 <= i < |shards| reads shards => shards[i].Abs())
  }

  method NewShards(config: Config) returns (shards: seq<Shard>)
    requires config.Valid()
    ensures WellFormed(shards, config) && fresh(shards)
    ensures forall i | 0 <= i < |shards| :: shards[i].Abs() == Counters(config.ShardCapacity(i), 0, map[])
  {
    shards := [];
    for n := 0 to config.shardCount
      invariant |shards| == n && fresh(shards)
      invariant forall i, j | 0 <= i < j < n :: shards[i] != shards[j]
      invariant forall i | 0 <= i < n :: shards[i].Valid() && shards[i].capacity == config.ShardCapacity(i)
      invariant forall i | 0 <= i < n :: shards[i].entries == map[] && shards[i].latestObserved == 0
    {
      var shard := new Shard(config.ShardCapacity(n));
      shards := shards + [shard];
    }
  }

  /** After cleanup with a budget of at least one removal per check: either no
      expired counter is left, or the checks cannot fill the shard. */
  predicate Roomy(entries: Entries, now: nat, count: nat, capacity: nat) {
    |entries| <= capacity && (Expired(entries, now) == {} || |entries| + count <= capacity)
  }

  lemma {:induction false} PruneMakesRoom(before: Entries, after: Entries, now: nat, removed: nat, budget: nat,
                                          count: nat, capacity: nat)
    requires Pruned(before, after, now, removed) && removed == Min(budget, |Expired(before, now)|)
    requires count <= budget && |before| <= capacity
    ensures Roomy(after, now, count, capacity)
  {
    PrunedSizes(before, after, now, removed);
  }

  lemma {:induction false} NoneExpiredMeansActive(entries: Entries, now: nat)
    requires Expired(entries, now) == {}
    ensures Active(entries, now) == entries
  {
    forall k | k in entries ensures entries[k].expiresAt > now {
      assert k in Expired(entries, now) <==> entries[k].expiresAt <= now;
    }
  }

  lemma {:induction false} UnionSize(a: set<CounterKey>, b: set<CounterKey>)
    ensures |a + b| <= |a| + |b|
  {
    assert a + b == a + (b - a) && b == (b - a) + (a * b);
  }

  /** Whether a key finds the shard full does not depend on leftover expired
      counters. `earlier` are the keys the batch adds before it. */
  lemma {:induction false} FullnessIgnoresExpired(entries: Entries, now: nat, capacity: nat, count: nat,
                                                  earlier: set<CounterKey>, key: CounterKey)
    requires Roomy(entries, now, count, capacity) && |earlier| < count
    ensures key !in entries && |entries.Keys + earlier| >= capacity <==>
            key !in Active(entries, now) && |Active(entries, now).Keys + earlier| >= capacity
    ensures key !in entries && |entries.Keys + earlier| >= capacity ==> Active(entries, now) == entries
  {
    if Expired(entries, now) == {} {
      NoneExpiredMeansActive(entries, now);
    } else {
      SmallerMap(Active(entries, now), entries);
      UnionSize(entries.Keys, earlier);
      UnionSize(Active(entries, now).Keys, earlier);
      assert |entries| == |entries.Keys| && |Active(entries, now)| == |Active(entries, now).Keys|;
    }
  }

  lemma {:induction false} FullnessOfOne(entries: Entries, now: nat, capacity: nat, key: CounterKey)
    requires Roomy(entries, now, 1, capacity)
    ensures key !in entries && |entries| >= capacity <==>
            key !in Active(entries, now) && |Active(entries, now)| >= capacity
    ensures key !in entries && |entries| >= capacity ==> Active(entries, now) == entries
  {
    FullnessIgnoresExpired(entries, now, capacity, 1, {}, key);
    assert entries.Keys + {} == entries.Keys && Active(entries, now).Keys + {} == Active(entries, now).Keys;
    assert |entries| == |entries.Keys| && |Active(entries, now)| == |Active(entries, now).Keys|;
  }

  /** What the simple shard sees of the stored entries at a later instant. */
  lemma {:induction false} AdvanceForgets(entries: Entries, latest: nat, now: nat, key: CounterKey)
    requires latest <= now
    ensures Active(Active(entries, latest), now) == Active(entries, now)
    ensures Alive(Lookup(Active(entries, latest), key), now) == Lookup(Active(entries, now), key)
    ensures Alive(Lookup(Active(entries, now), key), now) == Lookup(Active(entries, now), key)
  {
    ActiveTwice(entries, latest, now);
  }

  lemma {:induction false} ActiveInsert(entries: Entries, now: nat, key: CounterKey, stored: Stored)
    requires stored.expiresAt > now
    ensures Active(entries[key := stored], now) == Active(entries, now)[key := stored]
  {
  }

  /** The denial a full shard reports: the exact time to its earliest expiry. */
  method StorageDenial(shard: Shard, now: nat) returns (denial: Denial)
    requires shard.Valid() && Active(shard.entries, now) == shard.entries
    ensures denial == StorageCapacity(RoomAfter(shard.entries, now))
  {
    var delay := shard.CapacityRetryAfter(now);
    denial := StorageCapacity(delay);
    if delay.Some? {
      ghost var t: nat :| IsEarliest(shard.entries, t) && delay.value == Max(1, Monus(t, now));
      EarliestIsLater(shard.entries, now, t);
      ghost var room := RoomAfter(shard.entries, now);
      ghost var u: nat :| IsEarliest(shard.entries, u) && room.value == Monus(u, now);
      EarliestIsUnique(shard.entries, t, u);
    }
  }

  lemma {:induction false} EarliestIsLater(entries: Entries, now: nat, t: nat)
    requires Active(entries, now) == entries && IsEarliest(entries, t)
    ensures t > now
  {
    var k :| k in entries && entries[k].expiresAt == t;
    assert k in Active(entries, now);
  }

  lemma {:induction false} EarliestIsUnique(entries: Entries, t: nat, u: nat)
    requires IsEarliest(entries, t) && IsEarliest(entries, u)
    ensures t == u
  {
  }
}

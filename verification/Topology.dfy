/** The shards an atomic batch touches, in the order it locks them. */
module Topology {
  import opened Basics
  import opened StoreConfig

  datatype BatchShard = BatchShard(index: nat, checkCount: nat)

  datatype BatchTopology = BatchTopology(shards: seq<BatchShard>, inputPositions: seq<nat>)

  predicate Sorted(xs: seq<nat>) { forall i, j | 0 <= i < j < |xs| :: xs[i] <= xs[j] }

  predicate StrictlyAscending(xs: seq<nat>) { forall i, j | 0 <= i < j < |xs| :: xs[i] < xs[j] }

  function Indexes(shards: seq<BatchShard>): (xs: seq<nat>)
    ensures |xs| == |shards|
  {
    seq(|shards|, i requires 0 <= i < |shards| => shards[i].index)
  }

  /** Each touched shard once, in ascending order, with the true number of checks
      that target it; each input position points at its own shard. */
  ghost predicate Describes(t: BatchTopology, targets: seq<nat>) {
    && StrictlyAscending(Indexes(t.shards))
    && |t.inputPositions| == |targets|
    && (forall i | 0 <= i < |targets| ::
          t.inputPositions[i] < |t.shards| && t.shards[t.inputPositions[i]].index == targets[i])
    && forall p | 0 <= p < |t.shards| ::
         t.shards[p].index in targets && t.shards[p].checkCount == multiset(targets)[t.shards[p].index]
  }

  /** The first position whose element is not below `x`. */
  method PartitionPoint(xs: seq<nat>, x: nat) returns (p: nat)
    requires Sorted(xs)
    ensures p <= |xs|
    ensures forall i | 0 <= i < p :: xs[i] < x
    ensures forall i | p <= i < |xs| :: x <= xs[i]
  {
    p := 0;
    var end := |xs|;
    while p < end
      invariant p <= end <= |xs|
      invariant forall i | 0 <= i < p :: xs[i] < x
      invariant forall i | end <= i < |xs| :: x <= xs[i]
    {
      var middle := (p + end) / 2;
      if xs[middle] < x { p := middle + 1; } else { end := middle; }
    }
  }

  method Sort(xs: seq<nat>) returns (ys: seq<nat>)
    ensures Sorted(ys) && forall x :: x in ys <==> x in xs
  {
    ys := [];
    for i := 0 to |xs|
      invariant Sorted(ys) && forall x :: x in ys <==> x in xs[..i]
    {
      var p := PartitionPoint(ys, xs[i]);
      assert ys == ys[..p] + ys[p..] && xs[..i + 1] == xs[..i] + [xs[i]];
      ys := ys[..p] + [xs[i]] + ys[p..];
    }
  }

  method Dedup(xs: seq<nat>) returns (ys: seq<nat>)
    requires Sorted(xs)
    ensures StrictlyAscending(ys) && forall x :: x in ys <==> x in xs
  {
    ys := [];
    for i := 0 to |xs|
      invariant StrictlyAscending(ys) && forall x :: x in ys <==> x in xs[..i]
      invariant forall y, j | y in ys && i <= j < |xs| :: y <= xs[j]
    {
      assert xs[..i + 1] == xs[..i] + [xs[i]];
      if ys == [] || ys[|ys| - 1] != xs[i] {
        assert forall k | 0 <= k < |ys| :: ys[k] <= ys[|ys| - 1];
        assert ys != [] ==> ys[|ys| - 1] in ys;
        ys := ys + [xs[i]];
      }
    }
  }

  datatype ShardOverflow = ShardOverflow(shard: nat, keyCount: nat, capacity: nat)

  /** `e` is the lowest-indexed shard that can never hold its part of the batch. */
  ghost predicate FirstUnsatisfiable(e: ShardOverflow, targets: seq<nat>, config: Config)
    requires config.Valid() && forall t | t in targets :: t < config.shardCount
  {
    && e.shard in targets && e.keyCount == multiset(targets)[e.shard] > e.capacity == config.ShardCapacity(e.shard)
    && forall t | t in targets && t < e.shard :: multiset(targets)[t] <= config.ShardCapacity(t)
  }

  /** Points every input at its shard and counts the inputs of each. */
  method CountChecks(targets: seq<nat>, indexes: seq<nat>) returns (positions: seq<nat>, counts: seq<nat>)
    requires StrictlyAscending(indexes) && forall x :: x in indexes <==> x in targets
    ensures |positions| == |targets| && |counts| == |indexes|
    ensures forall j | 0 <= j < |targets| :: positions[j] < |indexes| && indexes[positions[j]] == targets[j]
    ensures forall p | 0 <= p < |indexes| :: counts[p] == multiset(targets)[indexes[p]]
  {
    counts := seq(|indexes|, _ => 0);
    positions := [];
    for i := 0 to |targets|
      invariant |positions| == i && |counts| == |indexes|
      invariant forall j | 0 <= j < i :: positions[j] < |indexes| && indexes[positions[j]] == targets[j]
      invariant forall p | 0 <= p < |indexes| :: counts[p] == multiset(targets[..i])[indexes[p]]
    {
      assert targets[i] in indexes;
      var position := PartitionPoint(indexes, targets[i]);
      assert indexes[position] == targets[i];
      assert targets[..i + 1] == targets[..i] + [targets[i]];
      positions := positions + [position];
      counts := counts[position := counts[position] + 1];
    }
    assert targets[..|targets|] == targets;
  }

  method NewTopology(targets: seq<nat>, config: Config) returns (r: Result<BatchTopology, ShardOverflow>)
    requires config.Valid() && forall t | t in targets :: t < config.shardCount
    ensures r.Ok? ==> Describes(r.value, targets)
    ensures r.Ok? ==> forall t | t in targets :: multiset(targets)[t] <= config.ShardCapacity(t)
    ensures r.Err? ==> FirstUnsatisfiable(r.error, targets, config)
  {
    hide Config.ShardCapacity, Describes;
    var sorted := Sort(targets);
    var indexes := Dedup(sorted);
    var positions, counts := CountChecks(targets, indexes);
    assert forall p | 0 <= p < |indexes| :: indexes[p] in targets;
    for p := 0 to |indexes|
      invariant forall q | 0 <= q < p :: counts[q] <= config.ShardCapacity(indexes[q])
    {
      var capacity := config.ShardCapacity(indexes[p]);
      if counts[p] > capacity {
        BelowIsEarlier(indexes, p, targets);
        return Err(ShardOverflow(indexes[p], counts[p], capacity));
      }
    }
    BelowIsEarlier(indexes, |indexes|, targets);
    AssembleDescribes(targets, indexes, positions, counts);
    return Ok(Assemble(indexes, positions, counts));
  }

  function Assemble(indexes: seq<nat>, positions: seq<nat>, counts: seq<nat>): BatchTopology
    requires |counts| == |indexes|
  {
    BatchTopology(seq(|indexes|, p requires 0 <= p < |indexes|
                      && |counts| == |indexes| => BatchShard(indexes[p], counts[p])), positions)
  }

  lemma {:induction false} AssembleDescribes(targets: seq<nat>, indexes: seq<nat>, positions: seq<nat>,
                                             counts: seq<nat>)
    requires StrictlyAscending(indexes) && forall x :: x in indexes <==> x in targets
    requires |positions| == |targets| && |counts| == |indexes|
    requires forall j | 0 <= j < |targets| :: positions[j] < |indexes| && indexes[positions[j]] == targets[j]
    requires forall p | 0 <= p < |indexes| :: counts[p] == multiset(targets)[indexes[p]]
    ensures Describes(Assemble(indexes, positions, counts), targets)
  {
    assert Indexes(Assemble(indexes, positions, counts).shards) == indexes;
  }

  lemma {:induction false} BelowIsEarlier(indexes: seq<nat>, p: nat, targets: seq<nat>)
    requires StrictlyAscending(indexes) && p <= |indexes| && forall x :: x in indexes <==> x in targets
    ensures forall t | t in targets && (p == |indexes| || t < indexes[p]) :: exists q | 0 <= q < p :: indexes[q] == t
  {
    forall t | t in targets && (p == |indexes| || t < indexes[p]) ensures exists q | 0 <= q < p :: indexes[q] == t {
      var q :| 0 <= q < |indexes| && indexes[q] == t;
      assert q < p;
    }
  }
}

/** Bounds of a memory store and how its capacity is divided among shards. */
module StoreConfig {
  import opened Basics

  const DEFAULT_SHARD_COUNT: nat := 1
  const DEFAULT_MAX_EXPIRED_REMOVALS: nat := 8
  const DEFAULT_MAX_BATCH_SIZE: nat := 32

  datatype ConfigError =
    | ZeroMaxKeys
    | ZeroShardCount
    | MoreShardsThanKeys(shardCount: nat, maxKeys: nat)
    | ZeroExpiredRemovalLimit
    | ZeroBatchSize

  datatype Config = Config(maxKeys: nat, shardCount: nat, maxExpiredRemovals: nat, maxBatchSize: nat) {
    /** What every built configuration satisfies, on a 64-bit target. */
    predicate Valid() {
      && 1 <= shardCount <= maxKeys <= USIZE_MAX
      && 1 <= maxExpiredRemovals <= USIZE_MAX
      && 1 <= maxBatchSize <= USIZE_MAX
    }

    function WithShardCount(count: nat): (r: Result<Config, ConfigError>)
      requires Valid()
      ensures r.Ok? <==> 1 <= count <= maxKeys
      ensures r.Ok? ==> r.value.Valid() && r.value.shardCount == count && r.value.(shardCount := shardCount) == this
      ensures r.Err? ==>
              (r.error == ZeroShardCount && count == 0)
              || (r.error == MoreShardsThanKeys(count, maxKeys) && count > maxKeys)
    {
      if count == 0 then Err(ZeroShardCount)
      else if count > maxKeys then Err(MoreShardsThanKeys(count, maxKeys))
      else Ok(this.(shardCount := count))
    }

    function WithMaxExpiredRemovals(maximum: nat): (r: Result<Config, ConfigError>)
      requires Valid() && maximum <= USIZE_MAX
      ensures r.Ok? <==> maximum > 0
      ensures r.Ok? ==> r.value.Valid() && r.value.maxExpiredRemovals == maximum
                        && r.value.(maxExpiredRemovals := maxExpiredRemovals) == this
      ensures r.Err? ==> r.error == ZeroExpiredRemovalLimit
    {
      if maximum == 0 then Err(ZeroExpiredRemovalLimit) else Ok(this.(maxExpiredRemovals := maximum))
    }

    function WithMaxBatchSize(maximum: nat): (r: Result<Config, ConfigError>)
      requires Valid() && maximum <= USIZE_MAX
      ensures r.Ok? <==> maximum > 0
      ensures r.Ok? ==> r.value.Valid() && r.value.maxBatchSize == maximum
                        && r.value.(maxBatchSize := maxBatchSize) == this
      ensures r.Err? ==> r.error == ZeroBatchSize
    {
      if maximum == 0 then Err(ZeroBatchSize) else Ok(this.(maxBatchSize := maximum))
    }

    /** Every shard gets the same share, and the first few one more. */
    function ShardCapacity(shard: nat): (c: nat)
      requires Valid() && shard < shardCount
      ensures 1 <= c <= maxKeys
    {
      ShareBounds(maxKeys, shardCount);
      maxKeys / shardCount + if shard < maxKeys % shardCount then 1 else 0
    }
  }

  function NewConfig(maxKeys: nat): (r: Result<Config, ConfigError>)
    requires maxKeys <= USIZE_MAX
    ensures r.Ok? <==> maxKeys > 0
    ensures r.Ok? ==>
            r.value.Valid() && r.value.maxKeys == maxKeys && r.value.shardCount == 1
            && r.value.ShardCapacity(0) == maxKeys
    ensures r.Ok? ==> r.value.maxExpiredRemovals == 8 && r.value.maxBatchSize == 32
    ensures r.Err? ==> r.error == ZeroMaxKeys
  {
    if maxKeys == 0 then Err(ZeroMaxKeys)
    else Ok(Config(maxKeys, Min(DEFAULT_SHARD_COUNT, maxKeys), DEFAULT_MAX_EXPIRED_REMOVALS, DEFAULT_MAX_BATCH_SIZE))
  }

  /** Shares differ by at most one, and the larger ones come first. */
  lemma {:induction false} SharesAreEven(config: Config, i: nat, j: nat)
    requires config.Valid() && i <= j < config.shardCount
    ensures config.ShardCapacity(j) <= config.ShardCapacity(i) <= config.ShardCapacity(j) + 1
  {
  }

  lemma {:induction false} ShareBounds(keys: nat, shards: nat)
    requires 1 <= shards <= keys
    ensures 1 <= keys / shards
    ensures keys / shards + (if keys % shards > 0 then 1 else 0) <= keys
  {
    var share, extra := keys / shards, keys % shards;
    assert keys == share * shards + extra;
    if share < 1 { MulMonotone(share, 0, shards); }
    MulMonotone(1, shards, share);
    if extra > 0 { MulMonotone(2, shards, share); }
  }

  function CapacityBelow(config: Config, n: nat): nat
    requires config.Valid() && n <= config.shardCount
  {
    if n == 0 then 0 else CapacityBelow(config, n - 1) + config.ShardCapacity(n - 1)
  }

  /** The shares of all shards add up to the configured maximum exactly. */
  lemma {:induction false} SharesSumToMaxKeys(config: Config)
    requires config.Valid()
    ensures CapacityBelow(config, config.shardCount) == config.maxKeys
  {
    PartialShares(config, config.shardCount);
    assert config.maxKeys ==
           (config.maxKeys / config.shardCount) * config.shardCount + config.maxKeys % config.shardCount;
  }

  lemma {:induction false} PartialShares(config: Config, n: nat)
    requires config.Valid() && n <= config.shardCount
    ensures CapacityBelow(config, n) ==
            n * (config.maxKeys / config.shardCount) + Min(n, config.maxKeys % config.shardCount)
  {
    if n > 0 {
      PartialShares(config, n - 1);
      var share := config.maxKeys / config.shardCount;
      assert n * share == (n - 1) * share + share;
    }
  }
}

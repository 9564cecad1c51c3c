/** Runs of the PostgreSQL fixed-window table: batches that commit or vanish, and
    cleanups, on the readings of a server clock that may run back. */
module PgWindowRuns {
  import opened Basics
  import opened Policies
  import opened Batches
  import opened GcraHistory
  import opened Counters
  import opened StoreRuns
  import opened WindowRuns
  import opened ExpiryOrder
  import opened PgGcraEvaluation
  import opened PgWindows
  import opened PgWindowStore

  /** A batch that was sampled, decided and, if all were allowed, committed or lost;
      or a cleanup that got at the rows `found`. */
  datatype Turn =
    | Checked(checks: seq<Check>, maximum: nat, sample: nat, landed: bool)
    | Cleaned(found: set<CounterKey>, at: nat)
  {
    function Reading(): nat { if Checked? then sample else at }

    predicate Valid() { Checked? ==> checks != [] && WindowChecks(checks) && SoundUpTo(checks, |checks|) }

    predicate Keyed(policyOf: CounterKey -> Policy) {
      Checked? ==> forall i | 0 <= i < |checks| :: policyOf(checks[i].key) == checks[i].policy
    }
  }

  predicate AllowsAll(rows: Rows, place: Placement, turn: Turn)
    requires turn.Valid()
  {
    turn.Checked? && turn.landed && InOrder(rows, place, turn.maximum, turn.checks, turn.sample, |turn.checks|).Scanned?
  }

  function Turned(rows: Rows, place: Placement, turn: Turn): Rows
    requires turn.Valid()
  {
    if AllowsAll(rows, place, turn) then
      InOrder(rows, place, turn.maximum, turn.checks, turn.sample, |turn.checks|).rows
    else if turn.Cleaned? then rows - ExpiredAmong(rows, turn.found, turn.at)
    else rows
  }

  predicate AllTurns(run: seq<Turn>, policyOf: CounterKey -> Policy) {
    forall i | 0 <= i < |run| :: run[i].Valid() && run[i].Keyed(policyOf)
  }

  function RowsAfter(place: Placement, run: seq<Turn>): Rows
    requires forall i | 0 <= i < |run| :: run[i].Valid()
  {
    if run == [] then map[] else Turned(RowsAfter(place, run[..|run| - 1]), place, run[|run| - 1])
  }

  /** Everything committed to one key, stamped with the samples. */
  function Committed(place: Placement, run: seq<Turn>, key: CounterKey): seq<Charge>
    requires forall i | 0 <= i < |run| :: run[i].Valid()
  {
    if run == [] then []
    else
      var before, turn := run[..|run| - 1], run[|run| - 1];
      Committed(place, before, key) + TurnCharges(RowsAfter(place, before), place, turn, key)
  }

  function TurnCharges(rows: Rows, place: Placement, turn: Turn, key: CounterKey): seq<Charge>
    requires turn.Valid()
  {
    if AllowsAll(rows, place, turn) then ChargesOf(turn.checks, |turn.checks|, key, turn.sample) else []
  }

  /** No reading is more than `back` behind an earlier one. */
  predicate BackBy(run: seq<Turn>, back: nat)
  {
    forall i, j | 0 <= i < j < |run| :: run[i].Reading() <= run[j].Reading() + back
  }

  function LastReading(run: seq<Turn>): nat { if run == [] then 0 else run[|run| - 1].Reading() }

  /** Seen from one key, a turn on a clock that has not run back is a step that the
      process-local store could take. */
  lemma {:induction false} TurnIsWindowStep(rows: Rows, place: Placement, turn: Turn, policyOf: CounterKey -> Policy,
                                            key: CounterKey, latest: nat)
    requires turn.Valid() && latest <= turn.Reading()
    requires policyOf(key).FixedWindow? && turn.Keyed(policyOf)
    ensures WindowStep(policyOf(key).limit, WindowMicros(policyOf(key)), Lane(latest, StoredIn(rows, key)),
                       Lane(turn.Reading(), StoredIn(Turned(rows, place, turn), key)),
                       TurnCharges(rows, place, turn, key))
  {
    hide InOrder, SingleCheck, LacksSlot;
    if AllowsAll(rows, place, turn) {
      var n := |turn.checks|;
      ScannedRows(rows, place, turn.maximum, turn.checks, turn.sample, n, key);
      ScanIsTwoPasses(rows, place, turn.maximum, turn.checks, turn.sample, n);
      ChargesOfDistinct(turn.checks, n, key, turn.sample);
      if i :| 0 <= i < n && turn.checks[i].key == key {
        assert !LacksQuota(rows, turn.checks, turn.sample, i);
        UpsertIsJudged(rows, turn.checks[i], turn.sample);
        assert 1 <= turn.checks[i].cost <= policyOf(key).limit;
        assert StoredRow(Turned(rows, place, turn), key) == Some(UpsertedRow(rows, turn.checks[i], turn.sample));
      }
    }
  }

  lemma {:induction false} UpsertIsJudged(rows: Rows, check: Check, now: nat)
    requires ValidCheck(check) && check.policy.FixedWindow? && !LacksQuota(rows, [check], now, 0)
    ensures var verdict := JudgeRow(check, now, Alive(StoredIn(rows, check.key), now));
            verdict.Admit? && verdict.stored == StoredOf(UpsertedRow(rows, check, now))
  {
  }

  lemma {:induction false} TableLaneHolds(place: Placement, run: seq<Turn>, policyOf: CounterKey -> Policy,
                                          key: CounterKey)
    requires AllTurns(run, policyOf) && BackBy(run, 0) && ValidPolicy(policyOf(key)) && policyOf(key).FixedWindow?
    ensures WindowLane(policyOf(key).limit, WindowMicros(policyOf(key)),
                       Lane(LastReading(run), StoredIn(RowsAfter(place, run), key)), Committed(place, run, key))
  {
    hide WindowLane, WindowStep, Turned, TurnCharges;
    var p := policyOf(key);
    if run == [] {
      EmptyLane(p.limit, WindowMicros(p));
    } else {
      var before, turn := run[..|run| - 1], run[|run| - 1];
      TableLaneHolds(place, before, policyOf, key);
      var rows := RowsAfter(place, before);
      TurnIsWindowStep(rows, place, turn, policyOf, key, LastReading(before));
      WindowStepKeepsLane(p.limit, WindowMicros(p), Lane(LastReading(before), StoredIn(rows, key)),
                          Lane(turn.Reading(), StoredIn(Turned(rows, place, turn), key)),
                          TurnCharges(rows, place, turn, key), Committed(place, before, key));
    }
  }

  lemma {:induction false} EmptyLane(limit: nat, length: nat)
    ensures WindowLane(limit, length, Lane(0, None), [])
  {
  }

  /** While samples do not run back, stored usage and each anchored window stay
      within the limit, and no stretch of one window length carries two limits. */
  lemma {:induction false} TableKeepsLimits(place: Placement, run: seq<Turn>, policyOf: CounterKey -> Policy,
                                            key: CounterKey, from: int)
    requires AllTurns(run, policyOf) && BackBy(run, 0) && ValidPolicy(policyOf(key)) && policyOf(key).FixedWindow?
    ensures var p, log, rows := policyOf(key), Committed(place, run, key), RowsAfter(place, run);
            && (key in rows ==> rows[key].used <= p.limit)
            && (key in rows ==>
                rows[key].used == CostIn(log, rows[key].expiresAt - WindowMicros(p), rows[key].expiresAt))
            && (Current(WindowMicros(p), log).Some? ==> Current(WindowMicros(p), log).value.used <= p.limit)
            && CostIn(log, from, from + WindowMicros(p)) < 2 * p.limit
  {
    hide Current, WindowLane, WindowMicros, RowsAfter, Committed, CostIn;
    TableLaneHolds(place, run, policyOf, key);
    var p := policyOf(key);
    LaneLimits(p.limit, WindowMicros(p), Lane(LastReading(run), StoredIn(RowsAfter(place, run), key)),
               Committed(place, run, key), from);
  }

  const ONE_SHARD: Placement := (key: CounterKey) => 0

  function Always(p: Policy): CounterKey -> Policy { (key: CounterKey) => p }

  /** Any stretch of one window length carries less than two limits. */
  ghost predicate BelowTwoLimits(p: Policy, log: seq<Charge>)
    requires p.FixedWindow?
  {
    forall from: int, until: int | until == from + WindowMicros(p) :: CostIn(log, from, until) < 2 * p.limit
  }

  /** No run on a clock that runs back by at most `back` commits two limits within
      one window length. */
  ghost predicate TwoWindowBound(p: Policy, back: nat)
    requires p.FixedWindow?
  {
    forall place: Placement, run: seq<Turn>, key: CounterKey | AllTurns(run, Always(p)) && BackBy(run, back) ::
      BelowTwoLimits(p, Committed(place, run, key))
  }

  /** The two-window bound needs a clock that never runs back: one microsecond is enough
      to break it, if a cleanup falls in between. */
  lemma {:induction false} BoundNeedsForwardClock(p: Policy, back: nat)
    requires ValidPolicy(p) && p.FixedWindow?
    ensures TwoWindowBound(p, back) <==> back == 0
  {
    hide RowsAfter, Committed;
    if back == 0 {
      forall place: Placement, run: seq<Turn>, key: CounterKey | AllTurns(run, Always(p)) && BackBy(run, 0)
        ensures BelowTwoLimits(p, Committed(place, run, key))
      {
        forall from: int, until: int | until == from + WindowMicros(p)
          ensures CostIn(Committed(place, run, key), from, until) < 2 * p.limit {
          TableKeepsLimits(place, run, Always(p), key, from);
        }
      }
    } else {
      SlipSpendsTwice(p);
      assert BackBy(Slip(p), back) && !BelowTwoLimits(p, Committed(ONE_SHARD, Slip(p), 0));
    }
  }

  /** A whole limit as a window opens, a cleanup as it ends, and a whole limit one
      reading before that end. */
  function Slip(p: Policy): (run: seq<Turn>)
    requires ValidPolicy(p) && p.FixedWindow?
  {
    [Whole(p, 0)] + [Cleaned({0}, WindowMicros(p))] + [Whole(p, WindowMicros(p) - 1)]
  }

  function Whole(p: Policy, at: nat): (turn: Turn)
    requires p.FixedWindow?
  {
    Checked([Check(0, p, Enforce, p.limit)], 1, at, true)
  }

  lemma {:induction false} WholeTurn(p: Policy, at: nat)
    requires ValidPolicy(p) && p.FixedWindow?
    ensures Whole(p, at).Valid() && Whole(p, at).Keyed(Always(p))
    ensures Turned(map[], ONE_SHARD, Whole(p, at)) == map[0 := WindowRow(at, at + WindowMicros(p), p.limit)]
    ensures TurnCharges(map[], ONE_SHARD, Whole(p, at), 0) == [Charge(at, p.limit)]
  {
    var check := Whole(p, at).checks[0];
    assert Occupants(map[], ONE_SHARD, 0) == {};
    SingleAdmits(map[], ONE_SHARD, 1, check, at);
    assert InOrder(map[], ONE_SHARD, 1, [check], at, 0) == Scanned(map[], []);
    assert InOrder(map[], ONE_SHARD, 1, [check], at, 1).Scanned?;
    assert ChargesOf([check], 0, 0, at) == [];
  }

  lemma {:induction false} SlipSpendsTwice(p: Policy)
    requires ValidPolicy(p) && p.FixedWindow?
    ensures AllTurns(Slip(p), Always(p)) && BackBy(Slip(p), 1)
    ensures CostIn(Committed(ONE_SHARD, Slip(p), 0), 0, WindowMicros(p)) == 2 * p.limit
  {
    hide Turned, TurnCharges;
    var run := Slip(p);
    WholeTurn(p, 0);
    WholeTurn(p, WindowMicros(p) - 1);
    CleanedAway(p);
    OneMoreTurn([], Whole(p, 0));
    OneMoreTurn([Whole(p, 0)], Cleaned({0}, WindowMicros(p)));
    OneMoreTurn([Whole(p, 0)] + [Cleaned({0}, WindowMicros(p))], Whole(p, WindowMicros(p) - 1));
    assert [] + [Whole(p, 0)] == [Whole(p, 0)];
    Snoc([], Charge(0, p.limit), WindowMicros(p));
    Snoc([Charge(0, p.limit)], Charge(WindowMicros(p) - 1, p.limit), WindowMicros(p));
    assert Committed(ONE_SHARD, run, 0) == [Charge(0, p.limit)] + [Charge(WindowMicros(p) - 1, p.limit)];
  }

  lemma {:induction false} OneMoreTurn(run: seq<Turn>, turn: Turn)
    requires turn.Valid() && forall i | 0 <= i < |run| :: run[i].Valid()
    ensures RowsAfter(ONE_SHARD, run + [turn]) == Turned(RowsAfter(ONE_SHARD, run), ONE_SHARD, turn)
    ensures Committed(ONE_SHARD, run + [turn], 0) ==
            Committed(ONE_SHARD, run, 0) + TurnCharges(RowsAfter(ONE_SHARD, run), ONE_SHARD, turn, 0)
  {
    hide Turned, TurnCharges;
    assert (run + [turn])[..|run|] == run;
  }

  lemma {:induction false} CleanedAway(p: Policy)
    requires p.FixedWindow?
    ensures Turned(map[0 := WindowRow(0, WindowMicros(p), p.limit)], ONE_SHARD, Cleaned({0}, WindowMicros(p))) == map[]
    ensures TurnCharges(map[0 := WindowRow(0, WindowMicros(p), p.limit)], ONE_SHARD, Cleaned({0}, WindowMicros(p)),
                        0) == []
  {
  }

  /** Every run is one of the real table, under any clock. */
  method Replay(ghost policyOf: CounterKey -> Policy, place: Placement, run: seq<Turn>) returns (table: WindowTable)
    requires AllTurns(run, policyOf) && Places(place)
    ensures fresh(table) && table.Valid() && table.policyOf == policyOf && table.rows == RowsAfter(place, run)
  {
    hide Turned, InOrder, WindowTable.Valid;
    table := new WindowTable(policyOf);
    for i := 0 to |run|
      invariant fresh(table) && table.Valid() && table.policyOf == policyOf && table.rows == RowsAfter(place, run[..i])
    {
      assert run[..i + 1][..i] == run[..i];
      Play(table, place, run[i]);
    }
    assert run[..|run|] == run;
  }

  /** A cleanup that may only get at `found` takes all of it that has expired. */
  lemma {:induction false} AllFoundGo(rows: Rows, found: set<CounterKey>, at: nat, gone: set<CounterKey>)
    requires Soonest(WindowExpiries(rows, rows.Keys - (rows.Keys - found), at), |found|, gone)
    ensures ExpiredAmong(rows, gone, at) == ExpiredAmong(rows, found, at)
  {
    assert ExpiredAmong(rows, rows.Keys - (rows.Keys - found), at) == ExpiredAmong(rows, found, at);
    SubsetSize(ExpiredAmong(rows, found, at), found);
    SoonestTakesAll(WindowExpiries(rows, rows.Keys - (rows.Keys - found), at), |found|, gone);
  }

  method Play(table: WindowTable, place: Placement, turn: Turn)
    requires table.Valid() && Places(place) && turn.Valid() && turn.Keyed(table.policyOf)
    modifies table
    ensures table.Valid() && table.rows == Turned(old(table.rows), place, turn)
  {
    hide InOrder, WindowTable.Valid;
    match turn
    case Checked(checks, maximum, sample, landed) =>
      var r := table.CheckBatch(checks, place, maximum, sample, sample, Unacknowledged(landed));
    case Cleaned(found, at) =>
      ghost var before := table.rows;
      var removed := table.Cleanup(|found|, table.rows.Keys - found, at);
      AllFoundGo(before, found, at, before.Keys - table.rows.Keys);
  }
}

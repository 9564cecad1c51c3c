/** The bound on one window length of admitted cost is attained: a run that
    straddles two anchored windows. */
module WindowStraddle {
  import opened Basics
  import opened Policies
  import opened GcraHistory
  import opened Counters
  import opened StoreRuns
  import opened WindowRuns

  const ONE_SHARD: Router := (key: CounterKey) => 0

  function CheckOf(limit: nat, window: nat, cost: nat): Check { Check(0, FixedWindow(limit, window), Enforce, cost) }

  function Holding(latest: nat, active: Entries): Store { [Counters(1, latest, active)] }

  function Admission(check: Check, at: nat, used: nat, expiresAt: nat): Event {
    Event(One(check, at), Holding(at, map[0 := Stored(used, expiresAt)]),
          Single(Ok(Allowed(Allowance(check.policy.Capacity(), Monus(check.policy.Capacity(), used),
                                      Monus(expiresAt, at))))))
  }

  lemma {:induction false} AdmissionSteps(limit: nat, window: nat, latest: nat, active: Entries, cost: nat, at: nat)
    requires ValidCheck(CheckOf(limit, window, cost)) && latest <= at && active.Keys <= {0}
    requires 0 in active && active[0].expiresAt > at ==> active[0].value + cost <= limit
    ensures var live := 0 in active && active[0].expiresAt > at;
            var used := if live then active[0].value + cost else cost;
            var expiresAt := if live then active[0].expiresAt else at + window;
            var e := Admission(CheckOf(limit, window, cost), at, used, expiresAt);
            Step(ONE_SHARD, 1, Holding(latest, active), e.op, e.after, e.answer)
  {
    var check := CheckOf(limit, window, cost);
    var kept := Active(active, at);
    if 0 in active && active[0].expiresAt > at {
      var stored := Stored(active[0].value + cost, active[0].expiresAt);
      assert kept[0 := stored] == map[0 := stored];
    } else {
      assert kept == map[];
      assert kept[0 := Stored(cost, at + window)] == map[0 := Stored(cost, at + window)];
    }
    assert ShardOf(ONE_SHARD, 1, check.key) == 0;
    assert Max(at, latest) == at;
    var (c, answer) := CheckOne(Holding(latest, active)[0], check, at);
    assert Holding(latest, active)[0 := c] == [c];
  }

  /** One unit anchors a window, the rest of it is spent at its last instant and a
      whole limit at the first instant of the next window. */
  function Straddle(limit: nat, window: nat): seq<Event>
    requires limit >= 2 && window >= 2
  {
    [Admission(CheckOf(limit, window, 1), 0, 1, window)]
    + [Admission(CheckOf(limit, window, limit - 1), window - 1, limit, window)]
    + [Admission(CheckOf(limit, window, limit), window, limit, window + window)]
  }

  lemma {:induction false} StraddleRuns(limit: nat, window: nat)
    requires ValidPolicy(FixedWindow(limit, window)) && limit >= 2 && window >= 2
    ensures Run(ONE_SHARD, 1, Holding(0, map[]), Straddle(limit, window))
  {
    hide Step;
    var run := Straddle(limit, window);
    AdmissionSteps(limit, window, 0, map[], 1, 0);
    AdmissionSteps(limit, window, 0, map[0 := Stored(1, window)], limit - 1, window - 1);
    AdmissionSteps(limit, window, window - 1, map[0 := Stored(limit, window)], limit, window);
    RunGrows([], run[0]);
    RunGrows([run[0]], run[1]);
    RunGrows([run[0]] + [run[1]], run[2]);
    assert [] + [run[0]] == [run[0]];
  }

  lemma {:induction false} StraddleShape(limit: nat, window: nat)
    requires limit >= 2 && window >= 2
    ensures var run := Straddle(limit, window);
            && run == [run[0]] + [run[1]] + [run[2]] && AllKeyed(run, _ => FixedWindow(limit, window))
            && (forall i | 0 <= i < 3 ::
                run[i].op.One? && run[i].op.check.key == 0 && Admitted(run[i].answer) && |run[i].after| == 1)
            && run[0].op.check.cost == 1 && run[0].after[0].latest == 0
            && run[1].op.check.cost == limit - 1 && run[1].after[0].latest == window - 1
            && run[2].op.check.cost == limit && run[2].after[0].latest == window
    ensures Log(ONE_SHARD, [], 0) == []
  {
  }

  /** A stretch of one window length in which the store admits one unit less than
      two limits, for every limit and window above one. */
  lemma {:induction false} StraddleAttainsBound(limit: nat, window: nat)
    requires ValidPolicy(FixedWindow(limit, window)) && limit >= 2 && window >= 2
    ensures var run := Straddle(limit, window);
            && Run(ONE_SHARD, 1, Holding(0, map[]), run) && AllKeyed(run, _ => FixedWindow(limit, window))
            && (forall i | 0 <= i < |run| :: |run[i].after| > 0)
            && CostIn(Log(ONE_SHARD, run, 0), 1, 1 + window) == 2 * limit - 1
  {
    hide Run, Log, LaneOf, Admission;
    var run := Straddle(limit, window);
    StraddleRuns(limit, window);
    StraddleShape(limit, window);
    LogGrows([], run[0], 1, 0);
    LogGrows([run[0]], run[1], limit - 1, window - 1);
    LogGrows([run[0]] + [run[1]], run[2], limit, window);
    assert [] + [run[0]] == [run[0]];
    Snoc([], Charge(0, 1), window);
    Snoc([Charge(0, 1)], Charge(window - 1, limit - 1), window);
    Snoc([Charge(0, 1)] + [Charge(window - 1, limit - 1)], Charge(window, limit), window);
  }

  function OneCharge(limit: nat, window: nat): seq<Event>
    requires limit >= 1
  {
    [Admission(CheckOf(limit, window, limit), 0, limit, window)]
  }

  lemma {:induction false} OneChargeRuns(limit: nat, window: nat)
    requires ValidPolicy(FixedWindow(limit, window))
    ensures var run := OneCharge(limit, window);
            && Run(ONE_SHARD, 1, Holding(0, map[]), run) && AllKeyed(run, _ => FixedWindow(limit, window))
            && (forall i | 0 <= i < |run| :: |run[i].after| > 0)
            && CostIn(Log(ONE_SHARD, run, 0), 0, 0 + window) == limit
  {
    hide Step;
    var run := OneCharge(limit, window);
    AdmissionSteps(limit, window, 0, map[], limit, 0);
    RunGrows([], run[0]);
    LogGrows([], run[0], limit, 0);
    assert [] + [run[0]] == run;
    Snoc([], Charge(0, limit), window);
  }

  /** For every policy some run reaches the bound exactly. */
  lemma {:induction false} BoundIsAttained(limit: nat, window: nat) returns (run: seq<Event>, from: int)
    requires ValidPolicy(FixedWindow(limit, window))
    ensures Run(ONE_SHARD, 1, Holding(0, map[]), run) && AllKeyed(run, _ => FixedWindow(limit, window))
    ensures forall i | 0 <= i < |run| :: |run[i].after| > 0
    ensures CostIn(Log(ONE_SHARD, run, 0), from, from + window) == Most(limit, window)
  {
    hide Run, Log, AllKeyed, CostIn;
    if limit >= 2 && window >= 2 {
      StraddleAttainsBound(limit, window);
      run, from := Straddle(limit, window), 1;
    } else {
      OneChargeRuns(limit, window);
      run, from := OneCharge(limit, window), 0;
    }
  }

  lemma {:induction false} RunGrows(run: seq<Event>, e: Event)
    requires Run(ONE_SHARD, 1, Holding(0, map[]), run) && |e.after| == 1
    requires Step(ONE_SHARD, 1, StoreAfter(Holding(0, map[]), run), e.op, e.after, e.answer)
    ensures Run(ONE_SHARD, 1, Holding(0, map[]), run + [e])
  {
    assert (run + [e])[..|run|] == run;
  }

  lemma {:induction false} LogGrows(run: seq<Event>, e: Event, cost: nat, at: nat)
    requires forall i | 0 <= i < |run| :: |run[i].after| > 0
    requires e.op.One? && e.op.check.key == 0 && e.op.check.cost == cost && Admitted(e.answer) && |e.after| == 1
             && e.after[0].latest == at
    ensures forall i | 0 <= i < |run + [e]| :: |(run + [e])[i].after| > 0
    ensures Log(ONE_SHARD, run + [e], 0) == Log(ONE_SHARD, run, 0) + [Charge(at, cost)]
  {
    assert (run + [e])[..|run|] == run;
    assert e.op.Checks() == [e.op.check];
    assert ChargesOf([e.op.check], 0, 0, at) == [];
  }
}

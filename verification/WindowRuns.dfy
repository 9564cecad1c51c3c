/** Every run of the fixed-window store, under any clock: usage, anchored
    windows and the two-window bound. */
module WindowRuns {
  import opened Basics
  import opened Policies
  import opened GcraHistory
  import opened Counters
  import opened StoreRuns

  datatype Window = Window(anchor: nat, used: nat)

  /** The anchored windows a log opens: a charge starts a new one exactly when
      the previous one has fully elapsed. */
  function Current(length: nat, log: seq<Charge>): Option<Window> {
    if log == [] then None
    else
      var last, before := log[|log| - 1], Current(length, log[..|log| - 1]);
      if before.Some? && last.time < before.value.anchor + length
      then Some(before.value.(used := before.value.used + last.cost))
      else Some(Window(last.time, last.cost))
  }

  /** Cost charged at times in `[from, until)`. */
  function CostIn(log: seq<Charge>, from: int, until: int): nat {
    if log == [] then 0
    else
      var last := log[|log| - 1];
      CostIn(log[..|log| - 1], from, until) + if from <= last.time < until then last.cost else 0
  }

  lemma {:induction false} Snoc(log: seq<Charge>, c: Charge, length: nat)
    ensures (log + [c])[..|log|] == log
    ensures EndOf(log + [c]) == c.time
    ensures forall from, until ::
            CostIn(log + [c], from, until) == CostIn(log, from, until) + if from <= c.time < until then c.cost else 0
  {
    assert (log + [c])[..|log|] == log;
  }

  /** The most that fits into one window length. */
  function Most(limit: nat, length: nat): int { if length == 1 then limit else 2 * limit - 1 }

  /** Bounds a log keeps: at most one limit in the current window, less than one
      in any stretch that still reaches its anchor from before (it misses the
      charge that anchored the window before), and hence less than two in any
      stretch of one window length; a window of one instant has no second half. */
  ghost predicate Bounded(limit: nat, length: nat, log: seq<Charge>) {
    match Current(length, log)
    case None => log == []
    case Some(w) =>
      && w.used <= limit && w.anchor <= EndOf(log) < w.anchor + length
      && (forall until: int | until > EndOf(log) :: CostIn(log, w.anchor, until) == w.used)
      && CostIn(log, w.anchor, w.anchor + 1) >= 1
      && (forall from: int | from + length > w.anchor :: CostIn(log, from, w.anchor) < limit)
      && (forall from: int, until: int | until <= from + length :: CostIn(log, from, until) <= Most(limit, length))
  }

  lemma {:induction false} SplitCost(log: seq<Charge>, from: int, middle: int, until: int)
    requires from <= middle <= until
    ensures CostIn(log, from, until) == CostIn(log, from, middle) + CostIn(log, middle, until)
  {
    if log != [] { SplitCost(log[..|log| - 1], from, middle, until); }
  }

  lemma {:induction false} NarrowCost(log: seq<Charge>, from: int, until: int, from': int, until': int)
    requires from' <= from && until <= until'
    ensures CostIn(log, from, until) <= CostIn(log, from', until')
  {
    if log != [] { NarrowCost(log[..|log| - 1], from, until, from', until'); }
  }

  /** A stretch that starts after a window's anchor misses the anchoring charge. */
  lemma {:induction false} AfterAnchor(log: seq<Charge>, anchor: int, from: int, until: int)
    requires anchor < from && anchor < until && CostIn(log, anchor, anchor + 1) >= 1
    ensures CostIn(log, from, until) < CostIn(log, anchor, until)
  {
    SplitCost(log, anchor, anchor + 1, until);
    NarrowCost(log, from, until, anchor + 1, until);
  }

  /** A charge inside the current window. */
  lemma {:induction false} BoundedExtend(limit: nat, length: nat, log: seq<Charge>, c: Charge)
    requires Bounded(limit, length, log) && log != [] && EndOf(log) <= c.time
    requires var w := Current(length, log).value;
             c.time < w.anchor + length && w.used + c.cost <= limit
    ensures Bounded(limit, length, log + [c])
  {
    Snoc(log, c, length);
    var w := Current(length, log).value;
    forall from: int, until: int | until <= from + length
      ensures CostIn(log + [c], from, until) <= Most(limit, length) {
      if from <= c.time < until {
        NarrowCost(log, Max(from, w.anchor), until, w.anchor, Max(until, EndOf(log) + 1));
        if from <= w.anchor { SplitCost(log, from, w.anchor, until); }
      }
    }
  }

  /** A charge that opens the next window. */
  lemma {:induction false} BoundedOpen(limit: nat, length: nat, log: seq<Charge>, c: Charge)
    requires Bounded(limit, length, log) && EndOf(log) <= c.time && 1 <= c.cost <= limit && length > 0
    requires log != [] ==> Current(length, log).value.anchor + length <= c.time
    ensures Bounded(limit, length, log + [c])
  {
    Snoc(log, c, length);
    if log == [] {
      assert forall from, until :: CostIn(log, from, until) == 0;
    } else {
      var w := Current(length, log).value;
      forall from: int | from + length > c.time ensures CostIn(log, from, c.time) < limit {
        AfterAnchor(log, w.anchor, from, c.time);
      }
      forall from: int, until: int | until <= from + length
        ensures CostIn(log + [c], from, until) <= Most(limit, length) {
        if from <= c.time < until {
          AfterAnchor(log, w.anchor, from, until);
          SplitCost(log, w.anchor, from, until);
        }
      }
      forall until: int | until > c.time ensures CostIn(log, c.time, until) == 0 {
        SplitCost(log, w.anchor, c.time, until);
      }
    }
  }

  /** A stored counter is the log's current window until that window elapses. */
  ghost predicate WindowLane(limit: nat, length: nat, lane: Lane, log: seq<Charge>) {
    && Bounded(limit, length, log) && EndOf(log) <= lane.latest
    && match Current(length, log)
       case None => lane.entry.None?
       case Some(w) =>
         match lane.entry
         case Some(e) => e == Stored(w.used, w.anchor + length)
         case None => w.anchor + length <= lane.latest
  }

  /** What a call can do to one window counter: drop it once expired, or charge it
      as the window's verdict says. */
  ghost predicate WindowStep(limit: nat, length: nat, before: Lane, after: Lane, charges: seq<Charge>) {
    && before.latest <= after.latest
    && if charges == [] then after.entry == before.entry || after.entry == Alive(before.entry, after.latest)
       else
         var cost := charges[0].cost;
         && 1 <= cost <= limit && charges == [Charge(after.latest, cost)]
         && var verdict := JudgeWindow(limit, length, cost, after.latest, Alive(before.entry, after.latest));
         && verdict.Admit? && after.entry == Some(verdict.stored)
  }

  lemma {:induction false} LaneStepIsWindowStep(limit: nat, length: nat, op: Op, key: CounterKey, before: Lane,
                                                after: Lane, charges: seq<Charge>)
    requires LaneStep(op, key, before, after, charges)
    requires forall i | 0 <= i < |op.Checks()| && op.Checks()[i].key == key ::
             op.Checks()[i].policy == FixedWindow(limit, length)
    ensures WindowStep(limit, length, before, after, charges)
  {
  }

  lemma {:induction false} WindowStepKeepsLane(limit: nat, length: nat, before: Lane, after: Lane, charges: seq<Charge>,
                                               log: seq<Charge>)
    requires length > 0 && WindowLane(limit, length, before, log)
    requires WindowStep(limit, length, before, after, charges)
    ensures WindowLane(limit, length, after, log + charges)
  {
    hide Bounded;
    if charges == [] {
      assert log + [] == log;
    } else {
      var c := charges[0];
      Snoc(log, c, length);
      NonEmptyHasWindow(limit, length, log);
      if Alive(before.entry, after.latest).Some? {
        BoundedExtend(limit, length, log, c);
      } else {
        BoundedOpen(limit, length, log, c);
      }
    }
  }

  lemma {:induction false} NonEmptyHasWindow(limit: nat, length: nat, log: seq<Charge>)
    requires Bounded(limit, length, log)
    ensures Current(length, log).Some? <==> log != []
  {
  }

  lemma {:induction false} WindowLaneHolds(hash: Router, maximum: nat, start: Store, run: seq<Event>,
                                           policyOf: CounterKey -> Policy, key: CounterKey)
    requires Run(hash, maximum, start, run) && AllKeyed(run, policyOf)
    requires ValidPolicy(policyOf(key)) && policyOf(key).FixedWindow?
    ensures forall i | 0 <= i < |run| :: |run[i].after| > 0
    ensures WindowLane(policyOf(key).limit, policyOf(key).window, LaneOf(StoreAfter(start, run), hash, key),
                       Log(hash, run, key))
  {
    hide WindowLane, WindowStep, LaneStep, Step;
    RunShape(hash, maximum, start, run);
    var p := policyOf(key);
    if run == [] {
      WindowLaneStarts(p.limit, p.window, start, hash, key);
    } else {
      var prefix, last := run[..|run| - 1], run[|run| - 1];
      var store := StoreAfter(start, prefix);
      WindowLaneHolds(hash, maximum, start, prefix, policyOf, key);
      LaneFollowsStep(hash, maximum, store, last.op, last.after, last.answer, key);
      assert Keyed(last.op, policyOf);
      var charges := ChargesIn(last.op, last.answer, key, LaneOf(last.after, hash, key).latest);
      LaneStepIsWindowStep(p.limit, p.window, last.op, key, LaneOf(store, hash, key), LaneOf(last.after, hash, key),
                           charges);
      WindowStepKeepsLane(p.limit, p.window, LaneOf(store, hash, key), LaneOf(last.after, hash, key), charges,
                          Log(hash, prefix, key));
    }
  }

  lemma {:induction false} WindowLaneStarts(limit: nat, length: nat, start: Store, hash: Router, key: CounterKey)
    requires Initial(start)
    ensures WindowLane(limit, length, LaneOf(start, hash, key), [])
  {
  }

  /** In every run: stored usage never exceeds the limit, neither does the cost
      charged inside the current anchored window, and no stretch of one window
      length ever carries two limits, or more than one if it is one instant. */
  lemma {:induction false} WindowRunKeepsLimits(hash: Router, maximum: nat, start: Store, run: seq<Event>,
                             policyOf: CounterKey -> Policy, key: CounterKey, from: int)
    requires Run(hash, maximum, start, run) && AllKeyed(run, policyOf)
    requires ValidPolicy(policyOf(key)) && policyOf(key).FixedWindow?
    ensures forall i | 0 <= i < |run| :: |run[i].after| > 0
    ensures var p, log := policyOf(key), Log(hash, run, key);
            var entry := LaneOf(StoreAfter(start, run), hash, key).entry;
            && (entry.Some? ==> entry.value.value <= p.limit)
            && (entry.Some? ==>
                entry.value.value == CostIn(log, entry.value.expiresAt - p.window, entry.value.expiresAt))
            && (Current(p.window, log).Some? ==> Current(p.window, log).value.used <= p.limit)
            && CostIn(log, from, from + p.window) <= Most(p.limit, p.window)
  {
    hide Current;
    WindowLaneHolds(hash, maximum, start, run, policyOf, key);
    var p, log := policyOf(key), Log(hash, run, key);
    NonEmptyHasWindow(p.limit, p.window, log);
    LaneLimits(p.limit, p.window, LaneOf(StoreAfter(start, run), hash, key), log, from);
  }

  lemma {:induction false} LaneLimits(limit: nat, length: nat, lane: Lane, log: seq<Charge>, from: int)
    requires WindowLane(limit, length, lane, log) && limit >= 1
    ensures lane.entry.Some? ==> lane.entry.value.value <= limit
    ensures lane.entry.Some? ==>
              lane.entry.value.value == CostIn(log, lane.entry.value.expiresAt - length, lane.entry.value.expiresAt)
    ensures Current(length, log).Some? ==> Current(length, log).value.used <= limit
    ensures CostIn(log, from, from + length) <= Most(limit, length)
  {
    hide Current;
  }
}

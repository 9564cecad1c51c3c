/** Concurrent batches that take their locks in ascending order never deadlock. */
module LockOrder {
  import opened Topology

  /** A thread wants `order`, holds its first `held`, and releases them all when done. */
  datatype Thread = Thread(order: seq<nat>, held: nat, finished: bool)

  predicate WellFormed(t: Thread) {
    StrictlyAscending(t.order) && t.held <= |t.order| && (t.finished ==> t.held == 0)
  }

  predicate Holds(t: Thread, lock: nat) {
    t.held <= |t.order| && exists i | 0 <= i < t.held :: t.order[i] == lock
  }

  /** Threads keep to their order and no lock has two holders. */
  ghost predicate Coherent(threads: seq<Thread>) {
    && (forall t | 0 <= t < |threads| :: WellFormed(threads[t]))
    && forall t, u, lock: nat | 0 <= t < |threads| && 0 <= u < |threads| && t != u ::
         !(Holds(threads[t], lock) && Holds(threads[u], lock))
  }

  ghost predicate Free(threads: seq<Thread>, lock: nat) {
    forall t | 0 <= t < |threads| :: !Holds(threads[t], lock)
  }

  /** A thread takes its next lock if nobody holds it, or finishes and releases. */
  ghost predicate CanStep(threads: seq<Thread>, t: nat)
    requires t < |threads|
  {
    var thread := threads[t];
    !thread.finished && thread.held <= |thread.order| &&
    (thread.held < |thread.order| ==> Free(threads, thread.order[thread.held]))
  }

  function Step(threads: seq<Thread>, t: nat): seq<Thread>
    requires t < |threads|
  {
    var thread := threads[t];
    threads[t := if thread.held < |thread.order| then thread.(held := thread.held + 1)
            else thread.(held := 0, finished := true)]
  }

  lemma {:induction false} StepKeepsCoherent(threads: seq<Thread>, t: nat)
    requires Coherent(threads) && t < |threads| && CanStep(threads, t)
    ensures Coherent(Step(threads, t))
  {
    var after := Step(threads, t);
    forall u, lock: nat | 0 <= u < |threads| && u != t
      ensures !(Holds(after[t], lock) && Holds(after[u], lock))
    {
      assert after[u] == threads[u];
      assert Holds(after[t], lock) ==> Holds(threads[t], lock) || lock == threads[t].order[threads[t].held];
    }
  }

  function Remaining(thread: Thread): nat {
    if thread.finished then 0 else 1 + if thread.held <= |thread.order| then |thread.order| - thread.held else 0
  }

  function TotalRemaining(threads: seq<Thread>): nat {
    if threads == [] then 0 else TotalRemaining(threads[..|threads| - 1]) + Remaining(threads[|threads| - 1])
  }

  /** Every step brings the whole system closer to completion. */
  lemma {:induction false} StepMakesProgress(threads: seq<Thread>, t: nat)
    requires Coherent(threads) && t < |threads| && CanStep(threads, t)
    ensures TotalRemaining(Step(threads, t)) == TotalRemaining(threads) - 1
  {
    UpdateRemaining(threads, t, Step(threads, t)[t]);
  }

  lemma {:induction false} UpdateRemaining(threads: seq<Thread>, t: nat, thread: Thread)
    requires t < |threads|
    ensures TotalRemaining(threads[t := thread]) == TotalRemaining(threads) - Remaining(threads[t]) + Remaining(thread)
  {
    var n := |threads| - 1;
    if t < n {
      UpdateRemaining(threads[..n], t, thread);
      assert threads[t := thread][..n] == threads[..n][t := thread];
    } else {
      assert threads[t := thread][..n] == threads[..n];
    }
  }

  /** No deadlock: while some thread is unfinished, some thread can step. */
  lemma {:induction false} SomeThreadCanStep(threads: seq<Thread>, t: nat)
    requires Coherent(threads) && t < |threads| && !threads[t].finished
    ensures exists u | 0 <= u < |threads| :: CanStep(threads, u)
    decreases Above(threads, threads[t])
  {
    if !CanStep(threads, t) {
      var wanted := threads[t].order[threads[t].held];
      MemberBelow(threads, t, wanted);
      var u :| 0 <= u < |threads| && Holds(threads[u], wanted);
      var i :| 0 <= i < threads[u].held && threads[u].order[i] == wanted;
      if threads[u].held < |threads[u].order| {
        var next := threads[u].order[threads[u].held];
        assert next > wanted;
        MemberBelow(threads, u, next);
      }
      SomeThreadCanStep(threads, u);
    }
  }

  /** Threads that have taken nothing yet, each wanting its locks in its order. */
  function Starting(orders: seq<seq<nat>>): (threads: seq<Thread>)
    ensures |threads| == |orders|
  {
    seq(|orders|, t requires 0 <= t < |orders| => Thread(orders[t], 0, false))
  }

  /** The threads named in `schedule` can step one after the other, to reach `after`. */
  ghost predicate Reaches(threads: seq<Thread>, schedule: seq<nat>, after: seq<Thread>) {
    if schedule == [] then after == threads
    else
      var n := |schedule| - 1;
      exists before ::
        && Reaches(threads, schedule[..n], before)
        && schedule[n] < |before| && CanStep(before, schedule[n]) && after == Step(before, schedule[n])
  }

  /** Whatever the schedule, no lock has two holders, somebody can step until all
      have finished, and that is soon: each step is one lock or one release. */
  lemma {:induction false} SchedulesComplete(orders: seq<seq<nat>>, schedule: seq<nat>, after: seq<Thread>)
    requires forall t | 0 <= t < |orders| :: StrictlyAscending(orders[t])
    requires Reaches(Starting(orders), schedule, after)
    ensures |after| == |orders| && Coherent(after)
    ensures forall t | 0 <= t < |after| :: after[t].order == orders[t]
    ensures |schedule| + TotalRemaining(after) == TotalRemaining(Starting(orders))
    ensures (exists t | 0 <= t < |after| :: !after[t].finished) ==> exists u | 0 <= u < |after| :: CanStep(after, u)
  {
    hide CanStep, Step, StrictlyAscending;
    if schedule == [] {
      StartsCoherent(orders);
    } else {
      var n := |schedule| - 1;
      var before :| Reaches(Starting(orders), schedule[..n], before)
                    && schedule[n] < |before| && CanStep(before, schedule[n]) && after == Step(before, schedule[n]);
      SchedulesComplete(orders, schedule[..n], before);
      StepKeepsCoherent(before, schedule[n]);
      StepMakesProgress(before, schedule[n]);
      StepKeepsOrders(before, schedule[n]);
    }
    if t :| 0 <= t < |after| && !after[t].finished { SomeThreadCanStep(after, t); }
  }

  lemma {:induction false} StartsCoherent(orders: seq<seq<nat>>)
    requires forall t | 0 <= t < |orders| :: StrictlyAscending(orders[t])
    ensures Coherent(Starting(orders))
  {
  }

  lemma {:induction false} StepKeepsOrders(threads: seq<Thread>, t: nat)
    requires t < |threads|
    ensures |Step(threads, t)| == |threads|
            && forall u | 0 <= u < |threads| :: Step(threads, t)[u].order == threads[u].order
  {
  }

  /** One past every lock any thread may want. */
  function Ceiling(threads: seq<Thread>): nat {
    if threads == [] then 0
    else
      var last := threads[|threads| - 1].order;
      var rest := Ceiling(threads[..|threads| - 1]);
      if last != [] && last[|last| - 1] >= rest then last[|last| - 1] + 1 else rest
  }

  lemma {:induction false} MemberBelow(threads: seq<Thread>, t: nat, lock: nat)
    requires t < |threads| && WellFormed(threads[t]) && lock in threads[t].order
    ensures lock < Ceiling(threads)
  {
    var n := |threads| - 1;
    if t < n { MemberBelow(threads[..n], t, lock); }
  }

  /** How far a waiting thread's next lock is from the top. */
  function Above(threads: seq<Thread>, thread: Thread): nat {
    if thread.held < |thread.order| && thread.order[thread.held] < Ceiling(threads)
    then Ceiling(threads) - thread.order[thread.held] else 0
  }
}

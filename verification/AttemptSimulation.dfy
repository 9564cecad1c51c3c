/** The process-local and the PostgreSQL attempt stores answer alike: each is run
    against the eager ledger, and so against the other. */
module AttemptSimulation {
  import opened Basics
  import opened AttemptPolicies
  import opened AttemptLedger
  import opened MemoryAttempts
  import opened PgAttempts

  /** A caller's operation: `op.index` names the key's attempt whose receipt is
      presented. */
  datatype KeyedOp = KeyedOp(key: Key, op: Op)

  /** What surrounds one database operation: the caller's row maximum, the rows
      other transactions have locked and the first clock reading. */
  datatype Choice = Choice(maximum: nat, locked: set<Key>, cleanedAt: nat)

  predicate NeverBack(ops: seq<KeyedOp>) { forall i, j | 0 <= i < j < |ops| :: ops[i].op.now <= ops[j].op.now }

  function EndClock(ops: seq<KeyedOp>): nat { if ops == [] then 0 else ops[|ops| - 1].op.now }

  /** The operations on one key. */
  function Project(ops: seq<KeyedOp>, key: Key): seq<Op> {
    if ops == [] then []
    else
      var last := ops[|ops| - 1];
      Project(ops[..|ops| - 1], key) + if last.key == key then [last.op] else []
  }

  function LedgerOf(policies: Key -> AttemptPolicy, ops: seq<KeyedOp>, key: Key): History
  {
    Run(policies(key), Project(ops, key))
  }

  /** What the eager ledger answers next, from the whole history of the key. */
  function Demanded(policies: Key -> AttemptPolicy, done: seq<KeyedOp>, next: KeyedOp): Answer {
    AttemptLedger.Step(policies(next.key), LedgerOf(policies, done, next.key), next.op).1
  }

  /** The operations that were not refused. */
  function Taken(ops: seq<KeyedOp>, answers: seq<Option<Answer>>): seq<KeyedOp>
    requires |answers| <= |ops|
  {
    if answers == [] then []
    else
      var n := |answers| - 1;
      Taken(ops, answers[..n]) + if answers[n].Some? then [ops[n]] else []
  }

  /** A store refuses for room or generations only what the ledger admits. */
  function Shown(answer: Option<Answer>): Answer
  {
    if answer.Some? then answer.value else Asked(AttemptLedger.Verdict.Admit)
  }

  /** Every answer is the ledger's for the run with the refused admissions erased. */
  predicate AnswersAsLedger(policies: Key -> AttemptPolicy, ops: seq<KeyedOp>, answers: seq<Option<Answer>>) {
    && |answers| <= |ops|
    && forall i | 0 <= i < |answers| :: Shown(answers[i]) == Demanded(policies, Taken(ops, answers[..i]), ops[i])
  }

  lemma {:induction false} ProjectGrows(done: seq<KeyedOp>, next: KeyedOp, key: Key)
    ensures Project(done + [next], key) == Project(done, key) + if next.key == key then [next.op] else []
  {
    assert (done + [next])[..|done|] == done;
  }

  /** One more operation moves the ledger of its own key by one step. */
  lemma {:induction false} LedgerSteps(policies: Key -> AttemptPolicy, done: seq<KeyedOp>, next: KeyedOp)
    ensures LedgerOf(policies, done + [next], next.key) ==
            AttemptLedger.Step(policies(next.key), LedgerOf(policies, done, next.key), next.op).0
    ensures forall key: Key | key != next.key :: LedgerOf(policies, done + [next], key) == LedgerOf(policies, done, key)
  {
    hide AttemptLedger.Step;
    var before := Project(done, next.key);
    ProjectGrows(done, next, next.key);
    assert (before + [next.op])[..|before|] == before;
    forall key: Key | key != next.key ensures LedgerOf(policies, done + [next], key) == LedgerOf(policies, done, key) {
      ProjectGrows(done, next, key);
      assert Project(done, key) + [] == Project(done, key);
    }
  }

  lemma {:induction false} AnswersGrow(policies: Key -> AttemptPolicy, ops: seq<KeyedOp>, answers: seq<Option<Answer>>,
                    answer: Option<Answer>)
    requires AnswersAsLedger(policies, ops, answers) && |answers| < |ops|
    requires Shown(answer) == Demanded(policies, Taken(ops, answers), ops[|answers|])
    ensures AnswersAsLedger(policies, ops, answers + [answer])
    ensures Taken(ops, answers + [answer]) == if answer.Some? then Taken(ops, answers) + [ops[|answers|]]
            else Taken(ops, answers)
  {
    hide Demanded, Shown;
    var more := answers + [answer];
    assert more[..|answers|] == answers;
    forall i | 0 <= i < |more| ensures Shown(more[i]) == Demanded(policies, Taken(ops, more[..i]), ops[i]) {
      assert i < |answers| ==> more[..i] == answers[..i];
    }
  }

  lemma {:induction false} TakenSize(ops: seq<KeyedOp>, answers: seq<Option<Answer>>)
    requires |answers| <= |ops|
    ensures |Taken(ops, answers)| <= |answers|
  {
    if answers != [] { TakenSize(ops, answers[..|answers| - 1]); }
  }

  function KeysOf(ops: seq<KeyedOp>): set<Key> { set j | 0 <= j < |ops| :: ops[j].key }

  lemma {:induction false} KeysGrow(ops: seq<KeyedOp>, i: nat)
    requires i < |ops|
    ensures KeysOf(ops[..i + 1]) == KeysOf(ops[..i]) + {ops[i].key}
  {
    forall k | k in KeysOf(ops[..i + 1]) ensures k in KeysOf(ops[..i]) + {ops[i].key} {
      var j :| 0 <= j < i + 1 && ops[..i + 1][j].key == k;
      if j < i { assert ops[..i][j].key == k; }
    }
    forall k | k in KeysOf(ops[..i]) + {ops[i].key} ensures k in KeysOf(ops[..i + 1]) {
      if k in KeysOf(ops[..i]) {
        var j :| 0 <= j < i && ops[..i][j].key == k;
        assert ops[..i + 1][j].key == k;
      } else {
        assert ops[..i + 1][i].key == k;
      }
    }
  }

  lemma {:induction false} KeysWithin(ops: seq<KeyedOp>, i: nat)
    requires i <= |ops|
    ensures |KeysOf(ops[..i])| <= |KeysOf(ops)|
  {
    forall k | k in KeysOf(ops[..i]) ensures k in KeysOf(ops) {
      var j :| 0 <= j < i && ops[..i][j].key == k;
      assert ops[j].key == k;
    }
    SubsetSize(KeysOf(ops[..i]), KeysOf(ops));
  }

  lemma {:induction false} OneKeyTooMany(stored: set<Key>, seen: set<Key>, key: Key)
    requires stored <= seen && key !in stored
    ensures |stored| < |seen + {key}|
  {
    SubsetSize(stored + {key}, seen + {key});
  }

  function Held<R>(receipts: map<Key, seq<R>>, key: Key): seq<R> { if key in receipts then receipts[key] else [] }

  /** The store stands where the ledgers of the operations taken stand, with no
      other keys than those seen and no later clock. */
  ghost predicate MemoryFollows(limiter: MemoryAttemptLimiter, policies: Key -> AttemptPolicy, done: seq<KeyedOp>,
                                seen: set<Key>, clock: nat, receipts: map<Key, seq<Receipt>>)
    reads limiter
  {
    && limiter.Valid() && limiter.policyOf == policies && limiter.now <= clock
    && limiter.entries.Keys <= seen && limiter.generation <= |done|
    && forall key: Key ::
         && limiter.HistoryOf(key) == LedgerOf(policies, done, key)
         && ReceiptsMatch(limiter, Held(receipts, key), key)
  }

  ghost predicate ReceiptsMatch(limiter: MemoryAttemptLimiter, held: seq<Receipt>, key: Key)
    reads limiter
  {
    && |held| == |limiter.IssuedTo(key)| == |limiter.HistoryOf(key)|
    && forall j | 0 <= j < |held| :: held[j] == Receipt(limiter, key, limiter.IssuedTo(key)[j])
  }

  /** An operation that moved its own key's history as its ledger moved, and no
      other, keeps the store in step with the ledgers. */
  twostate lemma {:induction false} MemoryMovesOn(limiter: MemoryAttemptLimiter, new done: seq<KeyedOp>,
                                                  new since: seq<KeyedOp>, new key: Key, new seen: set<Key>,
                                                  new earlier: nat, new clock: nat, new before: map<Key, seq<Receipt>>,
                                                  new after: map<Key, seq<Receipt>>)
    requires old(allocated(before)) && old(MemoryFollows(limiter, limiter.policyOf, done, seen, earlier, before))
    requires forall k: Key | k != key :: LedgerOf(limiter.policyOf, since, k) == LedgerOf(limiter.policyOf, done, k)
    requires limiter.Valid() && limiter.now <= clock && limiter.generation <= |since|
    requires limiter.entries.Keys <= old(limiter.entries).Keys + {key}
    requires limiter.HistoryOf(key) == LedgerOf(limiter.policyOf, since, key)
             && ReceiptsMatch(limiter, Held(after, key), key)
    requires forall k: Key | k != key ::
               limiter.HistoryOf(k) == old(limiter.HistoryOf(k)) && limiter.IssuedTo(k) == old(limiter.IssuedTo(k))
               && Held(after, k) == Held(before, k)
    ensures MemoryFollows(limiter, limiter.policyOf, since, seen + {key}, clock, after)
  {
    hide LedgerOf, MemoryAttemptLimiter.Valid, MemoryAttemptLimiter.HistoryOf, MemoryAttemptLimiter.IssuedTo;
    forall k: Key
      ensures limiter.HistoryOf(k) == LedgerOf(limiter.policyOf, since, k) && ReceiptsMatch(limiter, Held(after, k), k)
    {
      assert old(ReceiptsMatch(limiter, Held(before, k), k));
    }
  }

  /** An admission on the process-local store. */
  method ArriveMemory(limiter: MemoryAttemptLimiter, policies: Key -> AttemptPolicy, done: seq<KeyedOp>, next: KeyedOp,
                      ghost seen: set<Key>, ghost clock: nat, receipts: map<Key, seq<Receipt>>)
    returns (verdict: Option<Verdict>, after: map<Key, seq<Receipt>>)
    requires next.op.Arrive? && clock <= next.op.now && MemoryFollows(limiter, policies, done, seen, clock, receipts)
    modifies limiter
    ensures Judge(policies(next.key), LedgerOf(policies, done, next.key), next.op.now) ==
            if verdict.Some? then verdict.value else AttemptLedger.Verdict.Admit
    ensures MemoryFollows(limiter, policies, if verdict.Some? then done + [next] else done, seen + {next.key},
                          next.op.now, after)
    ensures verdict.None? ==> |seen + {next.key}| > limiter.capacity || |done| >= U64_MAX
  {
    hide LedgerOf, Judge, Admitted, SweptAround, MemoryAttemptLimiter.Valid;
    var key, now := next.key, next.op.now;
    after := receipts;
    assert ReceiptsMatch(limiter, Held(receipts, key), key);
    AdmittedLength(policies(key), limiter.HistoryOf(key), now);
    LedgerSteps(policies, done, next);
    ghost var before, cursor := limiter.entries, limiter.cursor;
    var r := limiter.Admit(key, policies(key), now);
    NoOtherKeys(before, cursor, limiter.entries, limiter.cursor, key, limiter.now);
    match r {
      case Ok(Admission(receipt)) =>
        after := receipts[key := Held(receipts, key) + [receipt]];
        verdict := Some(AttemptLedger.Verdict.Admit);
      case Ok(Denial(DeniedBusy(d))) => verdict := Some(Busy(d));
      case Ok(Denial(DeniedBackoff(d))) => verdict := Some(Backoff(d));
      case Ok(Denial(StorageCapacity)) =>
        OneKeyTooMany(limiter.entries.Keys, seen, key);
        verdict := None;
      case Err(_) => verdict := None;
    }
    MemoryMovesOn(limiter, done, if verdict.Some? then done + [next] else done, key, seen, clock, now, receipts, after);
  }

  lemma {:induction false} AdmittedLength(p: AttemptPolicy, h: History, now: nat)
    ensures |Admitted(p, h, now)| == |h| + 1
  {
  }

  /** A completion on the process-local store, with whatever receipt is held. */
  method FinishMemory(limiter: MemoryAttemptLimiter, policies: Key -> AttemptPolicy, done: seq<KeyedOp>, next: KeyedOp,
                      ghost seen: set<Key>, ghost clock: nat, receipts: map<Key, seq<Receipt>>)
    returns (completion: Completion)
    requires next.op.Finish? && clock <= next.op.now && MemoryFollows(limiter, policies, done, seen, clock, receipts)
    modifies limiter
    ensures var op := next.op;
            completion == AttemptLedger.Complete(policies(next.key), LedgerOf(policies, done, next.key), op.index,
                                                 op.outcome, op.now).1
    ensures MemoryFollows(limiter, policies, done + [next], seen + {next.key}, next.op.now, receipts)
  {
    hide LedgerOf, AttemptLedger.Complete, MemoryAttemptLimiter.Valid;
    var key := next.key;
    var Finish(index, outcome, now) := next.op;
    assert ReceiptsMatch(limiter, Held(receipts, key), key);
    ghost var h := limiter.HistoryOf(key);
    CompletionKeepsLength(policies(key), h, index, outcome, now);
    LedgerSteps(policies, done, next);
    if index < |Held(receipts, key)| {
      completion := limiter.Complete(Held(receipts, key)[index], outcome, now);
    } else {
      NoSuchAttempt(policies(key), h, index, outcome, now);
      completion := Stale;
    }
    MemoryMovesOn(limiter, done, done + [next], key, seen, clock, now, receipts, receipts);
  }

  /** One operation on the process-local store. */
  method StepMemory(limiter: MemoryAttemptLimiter, policies: Key -> AttemptPolicy, done: seq<KeyedOp>, next: KeyedOp,
                    ghost seen: set<Key>, ghost clock: nat, receipts: map<Key, seq<Receipt>>)
    returns (answer: Option<Answer>, after: map<Key, seq<Receipt>>)
    requires clock <= next.op.now && MemoryFollows(limiter, policies, done, seen, clock, receipts)
    modifies limiter
    ensures Shown(answer) == Demanded(policies, done, next)
    ensures MemoryFollows(limiter, policies, if answer.Some? then done + [next] else done, seen + {next.key},
                          next.op.now, after)
    ensures answer.None? ==> |seen + {next.key}| > limiter.capacity || |done| >= U64_MAX
  {
    hide LedgerOf, Judge, AttemptLedger.Complete, MemoryFollows;
    if next.op.Arrive? {
      var verdict;
      verdict, after := ArriveMemory(limiter, policies, done, next, seen, clock, receipts);
      answer := if verdict.Some? then Some(Asked(verdict.value)) else None;
    } else {
      var completion := FinishMemory(limiter, policies, done, next, seen, clock, receipts);
      answer, after := Some(Finished(completion)), receipts;
    }
  }

  lemma {:induction false} EndsBefore(ops: seq<KeyedOp>, i: nat)
    requires i < |ops| && NeverBack(ops)
    ensures EndClock(ops[..i]) <= ops[i].op.now == EndClock(ops[..i + 1])
    ensures EndClock(ops[..i]) == if i == 0 then 0 else ops[i - 1].op.now
  {
  }

  /** The first clock reading of every operation falls after the operation before. */
  predicate Timely(ops: seq<KeyedOp>, choices: seq<Choice>) {
    && |choices| == |ops|
    && forall i | 0 <= i < |ops| :: (if i == 0 then 0 else ops[i - 1].op.now) <= choices[i].cleanedAt <= ops[i].op.now
  }

  /** Generated tokens never repeat. */
  predicate Distinct(tokens: seq<nat>) { forall i, j | 0 <= i < j < |tokens| :: tokens[i] != tokens[j] }

  ghost predicate RowsFollow(shard: AttemptShard, policies: Key -> AttemptPolicy, done: seq<KeyedOp>, seen: set<Key>,
                             clock: nat, receipts: map<Key, seq<RowReceipt>>, used: seq<nat>)
    reads shard
  {
    && shard.Valid() && shard.policyOf == policies && shard.latest <= clock
    && shard.rows.Keys <= seen && (forall t | t in shard.used :: t in used)
    && forall key: Key ::
         && shard.HistoryOf(key) == LedgerOf(policies, done, key)
         && RowReceiptsMatch(shard, policies(key), Held(receipts, key), key)
  }

  ghost predicate RowReceiptsMatch(shard: AttemptShard, policy: AttemptPolicy, held: seq<RowReceipt>, key: Key)
    reads shard
  {
    && |held| == |shard.TokensOf(key)| == |shard.HistoryOf(key)|
    && forall j | 0 <= j < |held| :: held[j] == RowReceipt(policy, key, shard.TokensOf(key)[j])
  }

  twostate lemma {:induction false} RowsMoveOn(shard: AttemptShard, new done: seq<KeyedOp>, new since: seq<KeyedOp>,
                                               new key: Key, new seen: set<Key>, new earlier: nat, new clock: nat,
                                               new before: map<Key, seq<RowReceipt>>,
                                               new after: map<Key, seq<RowReceipt>>, new used: seq<nat>, new token: nat)
    requires old(RowsFollow(shard, shard.policyOf, done, seen, earlier, before, used))
    requires forall k: Key | k != key :: LedgerOf(shard.policyOf, since, k) == LedgerOf(shard.policyOf, done, k)
    requires shard.Valid() && shard.latest <= clock && shard.used <= old(shard.used) + {token}
    requires shard.rows.Keys <= old(shard.rows).Keys + {key}
    requires shard.HistoryOf(key) == LedgerOf(shard.policyOf, since, key)
             && RowReceiptsMatch(shard, shard.policyOf(key), Held(after, key), key)
    requires forall k: Key | k != key ::
               shard.HistoryOf(k) == old(shard.HistoryOf(k)) && shard.TokensOf(k) == old(shard.TokensOf(k))
               && Held(after, k) == Held(before, k)
    ensures RowsFollow(shard, shard.policyOf, since, seen + {key}, clock, after, used + [token])
  {
    hide LedgerOf, AttemptShard.Valid, AttemptShard.HistoryOf, AttemptShard.TokensOf;
    forall k: Key
      ensures shard.HistoryOf(k) == LedgerOf(shard.policyOf, since, k)
      ensures RowReceiptsMatch(shard, shard.policyOf(k), Held(after, k), k)
    {
      assert old(RowReceiptsMatch(shard, shard.policyOf(k), Held(before, k), k));
    }
  }

  lemma {:induction false} NextToken(tokens: seq<nat>, i: nat)
    requires i < |tokens| && Distinct(tokens)
    ensures tokens[i] !in tokens[..i] && tokens[..i + 1] == tokens[..i] + [tokens[i]]
  {
  }

  /** An admission on a clock that has not run back: the history's answer, unless
      the row maximum is reached. */
  method AskRows(shard: AttemptShard, key: Key, policy: AttemptPolicy, choice: Choice, now: nat, token: nat)
    returns (r: RowAdmission)
    requires shard.Valid() && policy == shard.policyOf(key) && token !in shard.used
             && shard.latest <= choice.cleanedAt <= now
    modifies shard
    ensures shard.Valid() && shard.latest == now && shard.used <= old(shard.used) + {token}
    ensures forall k: Key | k != key ::
            shard.HistoryOf(k) == old(shard.HistoryOf(k)) && shard.TokensOf(k) == old(shard.TokensOf(k))
    ensures shard.rows.Keys <= old(shard.rows).Keys + {key}
    ensures AsDemanded(r, Judge(policy, old(shard.HistoryOf(key)), now))
    ensures match r
            case RowAdmitted(receipt) =>
              && receipt == RowReceipt(policy, key, token)
              && shard.HistoryOf(key) == Admitted(policy, old(shard.HistoryOf(key)), now)
                 && shard.TokensOf(key) == old(shard.TokensOf(key)) + [token]
            case RowDenied(denial) =>
              && shard.HistoryOf(key) == old(shard.HistoryOf(key)) && shard.TokensOf(key) == old(shard.TokensOf(key))
              && (denial.StorageCapacity? ==> key !in shard.rows && |shard.rows| >= choice.maximum)
  {
    hide Judge, Admitted, Recalled, Faithful, Outcomes, AsDemanded, Expired, SweptBut, AttemptShard.Valid;
    shard.KeyStands(key);
    ghost var h, tokens := shard.HistoryOf(key), shard.TokensOf(key);
    ghost var found;
    r, found := shard.Admit(key, policy, choice.maximum, choice.locked, choice.cleanedAt, now, token);
    FaithfulOutcome(policy, key, h, tokens, now, token, found, r, shard.HistoryOf(key), shard.TokensOf(key));
  }

  /** An admission on the PostgreSQL store. */
  method ArriveRows(shard: AttemptShard, policies: Key -> AttemptPolicy, done: seq<KeyedOp>, next: KeyedOp,
                    ghost seen: set<Key>, ghost clock: nat, receipts: map<Key, seq<RowReceipt>>, choice: Choice,
                    ghost used: seq<nat>, token: nat)
    returns (verdict: Option<Verdict>, after: map<Key, seq<RowReceipt>>)
    requires next.op.Arrive? && RowsFollow(shard, policies, done, seen, clock, receipts, used) && token !in used
    requires clock <= choice.cleanedAt <= next.op.now
    modifies shard
    ensures Judge(policies(next.key), LedgerOf(policies, done, next.key), next.op.now) ==
            if verdict.Some? then verdict.value else AttemptLedger.Verdict.Admit
    ensures RowsFollow(shard, policies, if verdict.Some? then done + [next] else done, seen + {next.key}, next.op.now,
                       after, used + [token])
    ensures verdict.None? ==> |seen + {next.key}| > choice.maximum
  {
    hide LedgerOf, Judge, Admitted, AttemptShard.Valid;
    var key, now := next.key, next.op.now;
    after := receipts;
    assert RowReceiptsMatch(shard, policies(key), Held(receipts, key), key);
    AdmittedLength(policies(key), shard.HistoryOf(key), now);
    LedgerSteps(policies, done, next);
    var r := AskRows(shard, key, policies(key), choice, now, token);
    match r {
      case RowAdmitted(receipt) =>
        after := receipts[key := Held(receipts, key) + [receipt]];
        verdict := Some(AttemptLedger.Verdict.Admit);
      case RowDenied(DeniedBusy(d)) => verdict := Some(Busy(d));
      case RowDenied(DeniedBackoff(d)) => verdict := Some(Backoff(d));
      case RowDenied(StorageCapacity) =>
        OneKeyTooMany(shard.rows.Keys, seen, key);
        verdict := None;
    }
    RowsMoveOn(shard, done, if verdict.Some? then done + [next] else done, key, seen, clock, now, receipts, after, used,
               token);
  }

  /** Where nothing departs, an admission is the ledger's step. */
  lemma {:induction false} FaithfulOutcome(p: AttemptPolicy, key: Key, h: History, tokens: seq<nat>, clock: nat,
                                           token: nat, found: bool, r: RowAdmission, after: History,
                                           afterTokens: seq<nat>)
    requires Outcomes(p, key, h, tokens, clock, token, found, r, after, afterTokens)
    requires Faithful(p, h, clock, found) && (found || !Recalled(p, h, clock))
    ensures AsDemanded(r, Judge(p, h, clock))
    ensures r.RowAdmitted? ==>
            r.receipt == RowReceipt(p, key, token) && after == Admitted(p, h, clock) && afterTokens == tokens + [token]
    ensures r.RowDenied? ==> after == h && afterTokens == tokens
  {
    hide Judge, Admitted, Recalled, Faithful;
  }

  /** A completion on the PostgreSQL store. */
  method FinishRows(shard: AttemptShard, policies: Key -> AttemptPolicy, done: seq<KeyedOp>, next: KeyedOp,
                    ghost seen: set<Key>, ghost clock: nat, receipts: map<Key, seq<RowReceipt>>, ghost used: seq<nat>,
                    ghost token: nat)
    returns (completion: Completion)
    requires next.op.Finish? && clock <= next.op.now && RowsFollow(shard, policies, done, seen, clock, receipts, used)
    modifies shard
    ensures var op := next.op;
            completion == AttemptLedger.Complete(policies(next.key), LedgerOf(policies, done, next.key), op.index,
                                                 op.outcome, op.now).1
    ensures RowsFollow(shard, policies, done + [next], seen + {next.key}, next.op.now, receipts, used + [token])
  {
    hide LedgerOf, AttemptLedger.Complete, Live, AttemptShard.Valid;
    var key := next.key;
    var Finish(index, outcome, now) := next.op;
    assert RowReceiptsMatch(shard, policies(key), Held(receipts, key), key);
    ghost var h := shard.HistoryOf(key);
    CompletionKeepsLength(policies(key), h, index, outcome, now);
    LedgerSteps(policies, done, next);
    if index < |Held(receipts, key)| {
      completion := shard.Complete(Held(receipts, key)[index], outcome, now);
    } else {
      NoSuchAttempt(policies(key), h, index, outcome, now);
      completion := Stale;
    }
    RowsMoveOn(shard, done, done + [next], key, seen, clock, now, receipts, receipts, used, token);
  }

  /** One operation on the PostgreSQL store. */
  method StepRows(shard: AttemptShard, policies: Key -> AttemptPolicy, done: seq<KeyedOp>, next: KeyedOp,
                  ghost seen: set<Key>, ghost clock: nat, receipts: map<Key, seq<RowReceipt>>, choice: Choice,
                  ghost used: seq<nat>, token: nat)
    returns (answer: Option<Answer>, after: map<Key, seq<RowReceipt>>)
    requires RowsFollow(shard, policies, done, seen, clock, receipts, used) && token !in used
    requires clock <= choice.cleanedAt <= next.op.now
    modifies shard
    ensures Shown(answer) == Demanded(policies, done, next)
    ensures RowsFollow(shard, policies, if answer.Some? then done + [next] else done, seen + {next.key}, next.op.now,
                       after, used + [token])
    ensures answer.None? ==> |seen + {next.key}| > choice.maximum
  {
    hide LedgerOf, Judge, AttemptLedger.Complete, RowsFollow;
    if next.op.Arrive? {
      var verdict;
      verdict, after := ArriveRows(shard, policies, done, next, seen, clock, receipts, choice, used, token);
      answer := if verdict.Some? then Some(Asked(verdict.value)) else None;
    } else {
      var completion := FinishRows(shard, policies, done, next, seen, clock, receipts, used, token);
      answer, after := Some(Finished(completion)), receipts;
    }
  }

  /** A run on the process-local store. It refuses an admission only when callers
      have named more keys than it has room for, or used up its generations. */
  method RunMemory(capacity: nat, policies: Key -> AttemptPolicy, ops: seq<KeyedOp>)
    returns (answers: seq<Option<Answer>>)
    requires capacity >= 1 && NeverBack(ops) && forall key: Key :: ValidAttemptPolicy(policies(key))
    ensures |answers| == |ops| && AnswersAsLedger(policies, ops, answers)
    ensures forall i | 0 <= i < |ops| && answers[i].None? :: |KeysOf(ops[..i + 1])| > capacity || i >= U64_MAX
  {
    hide Taken, AnswersAsLedger, Demanded, Shown, NeverBack, EndClock, KeysOf, MemoryFollows;
    var limiter := StartMemory(capacity, policies);
    var receipts: map<Key, seq<Receipt>> := map[];
    answers := [];
    NothingTaken(policies, ops);
    for i := 0 to |ops|
      invariant |answers| == i && AnswersAsLedger(policies, ops, answers)
      invariant forall j | 0 <= j < i && answers[j].None? :: |KeysOf(ops[..j + 1])| > capacity || j >= U64_MAX
      invariant fresh(limiter) && limiter.capacity == capacity
      invariant MemoryFollows(limiter, policies, Taken(ops, answers), KeysOf(ops[..i]), EndClock(ops[..i]), receipts)
    {
      EndsBefore(ops, i);
      KeysGrow(ops, i);
      TakenSize(ops, answers);
      var answer;
      answer, receipts :=
        StepMemory(limiter, policies, Taken(ops, answers), ops[i], KeysOf(ops[..i]), EndClock(ops[..i]), receipts);
      AnswersGrow(policies, ops, answers, answer);
      answers := answers + [answer];
    }
  }

  method StartMemory(capacity: nat, policies: Key -> AttemptPolicy) returns (limiter: MemoryAttemptLimiter)
    requires capacity >= 1 && forall key: Key :: ValidAttemptPolicy(policies(key))
    ensures fresh(limiter) && limiter.capacity == capacity && MemoryFollows(limiter, policies, [], {}, 0, map[])
  {
    hide MemoryAttemptLimiter.Valid;
    limiter := new MemoryAttemptLimiter(capacity, policies);
  }

  lemma {:induction false} NothingTaken(policies: Key -> AttemptPolicy, ops: seq<KeyedOp>)
    ensures Taken(ops, []) == [] && AnswersAsLedger(policies, ops, []) && KeysOf(ops[..0]) == {}
            && EndClock(ops[..0]) == 0
  {
  }

  /** The same run on the PostgreSQL store. */
  method RunRows(policies: Key -> AttemptPolicy, ops: seq<KeyedOp>, choices: seq<Choice>, tokens: seq<nat>)
    returns (answers: seq<Option<Answer>>)
    requires NeverBack(ops) && Timely(ops, choices) && |tokens| == |ops| && Distinct(tokens)
    requires forall key: Key :: ValidAttemptPolicy(policies(key))
    ensures |answers| == |ops| && AnswersAsLedger(policies, ops, answers)
    ensures forall i | 0 <= i < |ops| && answers[i].None? :: |KeysOf(ops[..i + 1])| > choices[i].maximum
  {
    hide Taken, AnswersAsLedger, Demanded, Shown, NeverBack, Distinct, EndClock, KeysOf, RowsFollow;
    var shard := StartRows(policies);
    var receipts: map<Key, seq<RowReceipt>> := map[];
    answers := [];
    NothingTaken(policies, ops);
    for i := 0 to |ops|
      invariant |answers| == i && AnswersAsLedger(policies, ops, answers)
      invariant forall j | 0 <= j < i && answers[j].None? :: |KeysOf(ops[..j + 1])| > choices[j].maximum
      invariant fresh(shard)
      invariant RowsFollow(shard, policies, Taken(ops, answers), KeysOf(ops[..i]), EndClock(ops[..i]), receipts,
                           tokens[..i])
    {
      EndsBefore(ops, i);
      KeysGrow(ops, i);
      NextToken(tokens, i);
      var answer;
      answer, receipts :=
        StepRows(shard, policies, Taken(ops, answers), ops[i], KeysOf(ops[..i]), EndClock(ops[..i]), receipts,
                 choices[i], tokens[..i], tokens[i]);
      AnswersGrow(policies, ops, answers, answer);
      answers := answers + [answer];
    }
  }

  method StartRows(policies: Key -> AttemptPolicy) returns (shard: AttemptShard)
    requires forall key: Key :: ValidAttemptPolicy(policies(key))
    ensures fresh(shard) && RowsFollow(shard, policies, [], {}, 0, map[], [])
  {
    hide AttemptShard.Valid;
    shard := new AttemptShard(policies);
  }

  /** Both stores refused the same of the first `n` operations. */
  predicate RefusedAlike(memory: seq<Option<Answer>>, rows: seq<Option<Answer>>, n: nat)
    requires n <= |memory| == |rows|
  {
    forall j | 0 <= j < n :: memory[j].None? <==> rows[j].None?
  }

  /** Both stores give every operation the same answer, delays included, as long as
      they refuse the same admissions; with room for every key they refuse none. */
  method RunBoth(capacity: nat, policies: Key -> AttemptPolicy, ops: seq<KeyedOp>, choices: seq<Choice>,
                 tokens: seq<nat>)
    returns (memory: seq<Option<Answer>>, rows: seq<Option<Answer>>)
    requires capacity >= 1 && NeverBack(ops) && Timely(ops, choices) && |tokens| == |ops| && Distinct(tokens)
    requires forall key: Key :: ValidAttemptPolicy(policies(key))
    ensures |memory| == |rows| == |ops|
    ensures forall i | 0 <= i < |ops| && RefusedAlike(memory, rows, i) && memory[i].Some? && rows[i].Some? ::
            memory[i] == rows[i]
    ensures |KeysOf(ops)| <= capacity && |ops| <= U64_MAX ==> forall i | 0 <= i < |ops| :: memory[i].Some?
    ensures (forall i | 0 <= i < |ops| :: |KeysOf(ops)| <= choices[i].maximum) ==> forall i | 0 <= i < |ops| ::
            rows[i].Some?
  {
    hide AnswersAsLedger, KeysOf, NeverBack, Distinct;
    memory := RunMemory(capacity, policies, ops);
    rows := RunRows(policies, ops, choices, tokens);
    forall i | 0 <= i < |ops|
      ensures memory[i].None? ==> |KeysOf(ops)| > capacity || |ops| > U64_MAX
      ensures rows[i].None? ==> |KeysOf(ops)| > choices[i].maximum
    {
      KeysWithin(ops, i + 1);
    }
    forall i | 0 <= i < |ops| && RefusedAlike(memory, rows, i) && memory[i].Some? && rows[i].Some?
      ensures memory[i] == rows[i] {
      LedgerDecides(policies, ops, memory, rows, i);
    }
  }

  /** The ledger leaves two stores that refused alike no choice. */
  lemma {:induction false} LedgerDecides(policies: Key -> AttemptPolicy, ops: seq<KeyedOp>, first: seq<Option<Answer>>,
                      second: seq<Option<Answer>>, i: nat)
    requires AnswersAsLedger(policies, ops, first) && AnswersAsLedger(policies, ops, second)
    requires i < |first| == |second| && RefusedAlike(first, second, i)
    ensures Shown(first[i]) == Shown(second[i])
  {
    hide Demanded, Shown;
    TakenAlike(ops, first[..i], second[..i]);
  }

  lemma {:induction false} TakenAlike(ops: seq<KeyedOp>, first: seq<Option<Answer>>, second: seq<Option<Answer>>)
    requires |first| == |second| <= |ops| && RefusedAlike(first, second, |first|)
    ensures Taken(ops, first) == Taken(ops, second)
  {
    if first != [] { TakenAlike(ops, first[..|first| - 1], second[..|first| - 1]); }
  }

  /** In every run on either store, full ones included, the histories stay legal:
      no attempt is admitted before the delay its key's failures demand. */
  lemma {:induction false} LedgersAreLegal(policies: Key -> AttemptPolicy, ops: seq<KeyedOp>,
                                           answers: seq<Option<Answer>>, key: Key)
    requires NeverBack(ops) && |answers| <= |ops|
    ensures Legal(policies(key), LedgerOf(policies, Taken(ops, answers), key))
  {
    hide Run, Legal, NeverBack;
    TakenForward(ops, answers);
    ProjectForward(Taken(ops, answers), key);
    RunsAreLegal(policies(key), Project(Taken(ops, answers), key));
  }

  lemma {:induction false} TakenForward(ops: seq<KeyedOp>, answers: seq<Option<Answer>>)
    requires NeverBack(ops) && |answers| <= |ops|
    ensures NeverBack(Taken(ops, answers))
    ensures forall i | 0 <= i < |Taken(ops, answers)| :: Taken(ops, answers)[i].op.now <= EndClock(ops[..|answers|])
  {
    if answers != [] { TakenForward(ops, answers[..|answers| - 1]); }
  }

  lemma {:induction false} ProjectForward(ops: seq<KeyedOp>, key: Key)
    requires NeverBack(ops)
    ensures Forward(Project(ops, key))
            && forall i | 0 <= i < |Project(ops, key)| :: Project(ops, key)[i].now <= EndClock(ops)
  {
    if ops != [] { ProjectForward(ops[..|ops| - 1], key); }
  }

  /** The `i`-th operation presents the receipt of the key's `index`-th attempt. */
  predicate Presents(ops: seq<KeyedOp>, i: nat, key: Key, index: nat) {
    i < |ops| && ops[i].key == key && ops[i].op.Finish? && ops[i].op.index == index
  }

  /** In every run on either store, full ones included, a receipt once applied is
      stale whenever it is presented again. */
  lemma {:induction false} ReceiptsApplyOnce(policies: Key -> AttemptPolicy, ops: seq<KeyedOp>,
                                             answers: seq<Option<Answer>>, i: nat, j: nat, key: Key, index: nat)
    requires AnswersAsLedger(policies, ops, answers) && i < j < |answers|
    requires Presents(ops, i, key, index) && Presents(ops, j, key, index)
    requires answers[i].Some? && answers[i].value.Finished? && answers[i].value.completion.Applied?
    ensures answers[j] == Some(Finished(Stale))
  {
    hide Run, Dead;
    var p, op := policies(key), ops[i].op;
    var before, since := Taken(ops, answers[..i]), Taken(ops, answers[..i + 1]);
    assert answers[..i + 1][..i] == answers[..i];
    LedgerSteps(policies, before, ops[i]);
    var h := LedgerOf(policies, before, key);
    AppliedIsDead(p, h, index, op.outcome, op.now);
    var more := TakenExtends(ops, answers[..i + 1], answers[..j], key);
    DeadReceiptsStayDead(p, Project(since, key), more, index, ops[j].op.outcome, ops[j].op.now);
    assert Shown(answers[j]) == Demanded(policies, Taken(ops, answers[..j]), ops[j]);
  }

  lemma {:induction false} AppliedIsDead(p: AttemptPolicy, h: History, index: nat, outcome: Outcome, now: nat)
    ensures AttemptLedger.Complete(p, h, index, outcome, now).1.Applied? ==>
            Dead(AttemptLedger.Complete(p, h, index, outcome, now).0, index)
  {
    hide Streak, Delay;
    if Live(h, now) && index == |h| - 1 { assert Last(Closed(h, now, outcome)).ending != Open; }
  }

  lemma {:induction false} TakenExtends(ops: seq<KeyedOp>, earlier: seq<Option<Answer>>, later: seq<Option<Answer>>,
                                        key: Key) returns (more: seq<Op>)
    requires earlier <= later && |later| <= |ops|
    ensures Project(Taken(ops, later), key) == Project(Taken(ops, earlier), key) + more
  {
    if |earlier| == |later| {
      assert earlier == later;
      return [];
    }
    var n := |later| - 1;
    var rest := TakenExtends(ops, earlier, later[..n], key);
    var kept := Taken(ops, later[..n]);
    if later[n].None? {
      assert Taken(ops, later) == kept;
      return rest;
    }
    ProjectGrows(kept, ops[n], key);
    more := rest + if ops[n].key == key then [ops[n].op] else [];
  }

  lemma {:induction false} NoOtherKeys(before: map<Key, Entry>, cursor: Option<Key>, after: map<Key, Entry>,
                                       moved: Option<Key>, key: Key, now: nat)
    requires SweptAround(before, cursor, after, moved, key, now)
    ensures after.Keys <= before.Keys + {key}
  {
    hide IsBatch, Reclaimable;
  }

  lemma {:induction false} CompletionKeepsLength(p: AttemptPolicy, h: History, index: nat, outcome: Outcome, now: nat)
    ensures |AttemptLedger.Complete(p, h, index, outcome, now).0| == |h|
  {
  }

  lemma {:induction false} NoSuchAttempt(p: AttemptPolicy, h: History, index: nat, outcome: Outcome, now: nat)
    requires index >= |h|
    ensures AttemptLedger.Complete(p, h, index, outcome, now) == (h, Stale)
  {
  }
}

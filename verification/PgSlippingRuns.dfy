/** Whole runs of the PostgreSQL attempt store on a clock that slips: as long as
    the quiet period outlasts the longest delay by more than the slips, every
    answer is the ledger's, but for callers told to wait for a recorded success. */
module PgSlippingRuns {
  import opened Basics
  import opened AttemptPolicies
  import opened AttemptLedger
  import opened MemoryAttempts
  import opened PgAttempts

  /** One transaction on the shard, on whatever the server clock reads. */
  datatype Call =
    | Ask(key: Key, maximum: nat, locked: set<Key>, cleanedAt: nat, clock: nat, token: nat)
    | Tell(receipt: RowReceipt, outcome: Outcome, clock: nat)
  {
    function Reading(): nat { if Ask? then Max(cleanedAt, clock) else clock }

    function Key(): MemoryAttempts.Key { if Ask? then key else receipt.key }
  }

  datatype Reply = Asking(admission: RowAdmission) | Telling(completion: Completion)

  /** The latest reading of the clock. */
  function LatestOf(calls: seq<Call>): nat {
    if calls == [] then 0 else Max(LatestOf(calls[..|calls| - 1]), calls[|calls| - 1].Reading())
  }

  /** No call reads the clock more than `back` behind an earlier reading. */
  predicate SlipsBy(calls: seq<Call>, back: nat) {
    forall i | 0 <= i < |calls| :: LatestOf(calls[..i + 1]) <= calls[i].clock + back
  }

  /** What a store may still know of a key: its attempts and their tokens. */
  datatype Memory = Memory(history: History, tokens: seq<nat>) {
    predicate Opened(token: nat, clock: nat) {
      Live(history, clock) && |tokens| == |history| && tokens[|history| - 1] == token
    }

    /** The memory after one more call. A call that forgets admitted the key as if
        it had no attempts. */
    function After(p: AttemptPolicy, call: Call, reply: Reply, forgets: bool): Memory {
      match (call, reply)
      case (Ask(_, _, _, _, clock, token), Asking(RowAdmitted(_))) =>
        if forgets then Memory(Admitted(p, [], clock), [token])
           else Memory(Admitted(p, history, clock), tokens + [token])
      case (Tell(_, outcome, clock), Telling(Applied(_, _, _))) =>
        if history == [] then this else Memory(Closed(history, clock, outcome), tokens)
      case _ => this
    }
  }

  /** What the calls so far leave in the memory of a key. */
  function Remembered(policies: Key -> AttemptPolicy, calls: seq<Call>, replies: seq<Reply>, forgets: seq<bool>,
                      key: Key): Memory
    requires |calls| == |replies| == |forgets|
  {
    if calls == [] then Memory([], [])
    else
      var n := |calls| - 1;
      var before := Remembered(policies, calls[..n], replies[..n], forgets[..n], key);
      if calls[n].Key() == key then before.After(policies(key), calls[n], replies[n], forgets[n]) else before
  }

  /** Every reply is the ledger's on what is remembered, and a failure is forgotten
      only after some reading past its quiet period. */
  predicate AnswersAsRemembered(policies: Key -> AttemptPolicy, calls: seq<Call>, replies: seq<Reply>,
                                forgets: seq<bool>)
    requires |calls| == |replies| == |forgets|
  {
    forall i | 0 <= i < |calls| ::
      Demanded(policies(calls[i].Key()), calls[..i + 1], replies[i], forgets[i],
               Remembered(policies, calls[..i], replies[..i], forgets[..i], calls[i].Key()))
  }

  /** The reply to the last of some calls: an admission is never early; what is
      denied must wait, or was recorded as a success after the clock's reading, or
      finds no room; a receipt is applied exactly while its lease is live. */
  predicate Demanded(p: AttemptPolicy, calls: seq<Call>, reply: Reply, forgets: bool, m: Memory)
    requires calls != []
  {
    && (forgets ==> m.history != [] && Last(m.history).finish + p.quiet <= LatestOf(calls))
    && match (calls[|calls| - 1], reply)
       case (Ask(key, maximum, _, _, clock, token), Asking(admission)) =>
         var verdict := Judge(p, m.history, clock);
         (match admission
          case RowAdmitted(receipt) => verdict == AttemptLedger.Verdict.Admit && receipt == RowReceipt(p, key, token)
          case RowDenied(DeniedBusy(d)) => verdict == Busy(d)
          case RowDenied(DeniedBackoff(d)) =>
            verdict == Backoff(d) || (SucceededLater(m.history, clock) && d == Last(m.history).finish - clock)
          case RowDenied(StorageCapacity) => verdict == AttemptLedger.Verdict.Admit && |KeysAsked(calls)| > maximum)
       case (Tell(receipt, outcome, clock), Telling(completion)) =>
         completion == if m.Opened(receipt.token, clock) then
                         AttemptLedger.Complete(p, m.history, |m.history| - 1, outcome, clock).1
                       else Stale
       case _ => false
  }

  function KeysAsked(calls: seq<Call>): set<Key> {
    if calls == [] then {}
    else KeysAsked(calls[..|calls| - 1]) + if calls[|calls| - 1].Ask? then {calls[|calls| - 1].key} else {}
  }

  predicate FreshTokens(calls: seq<Call>) {
    forall i, j | 0 <= i < j < |calls| && calls[i].Ask? && calls[j].Ask? :: calls[i].token != calls[j].token
  }

  /** Every run of the real shard, with any receipts, on a clock that slips by no
      more than the quiet period outlasts the longest delay. */
  method RunSlipping(policies: Key -> AttemptPolicy, calls: seq<Call>, ghost back: nat)
    returns (replies: seq<Reply>, ghost forgets: seq<bool>)
    requires forall key: Key :: ValidAttemptPolicy(policies(key)) && back + policies(key).maximum <= policies(key).quiet
    requires SlipsBy(calls, back) && FreshTokens(calls)
    requires forall i | 0 <= i < |calls| && calls[i].Tell? :: calls[i].receipt.policy == policies(calls[i].receipt.key)
    ensures |replies| == |forgets| == |calls| && AnswersAsRemembered(policies, calls, replies, forgets)
  {
    hide Remembered, AnswersAsRemembered, KeysAsked, AttemptShard.Valid;
    var shard := new AttemptShard(policies);
    replies, forgets := [], [];
    NothingRemembered(policies);
    for i := 0 to |calls|
      invariant |replies| == |forgets| == i && AnswersAsRemembered(policies, calls[..i], replies, forgets)
      invariant fresh(shard) && Remembers(shard, policies, calls[..i], replies, forgets)
    {
      var reply;
      ghost var forgot;
      assert calls[..i + 1] == calls[..i] + [calls[i]];
      reply, forgot := Play(shard, policies, calls[..i], replies, forgets, calls[i], back);
      OneMoreReply(policies, calls[..i], replies, forgets, calls[i], reply, forgot);
      replies, forgets := replies + [reply], forgets + [forgot];
    }
    assert calls[..|calls|] == calls;
  }

  ghost predicate Remembers(shard: AttemptShard, policies: Key -> AttemptPolicy, calls: seq<Call>, replies: seq<Reply>,
                            forgets: seq<bool>)
    requires |calls| == |replies| == |forgets|
    reads shard
  {
    && shard.Valid() && shard.policyOf == policies && shard.latest == LatestOf(calls)
       && shard.rows.Keys <= KeysAsked(calls)
    && (forall t | t in shard.used :: exists i :: 0 <= i < |calls| && calls[i].Ask? && calls[i].token == t)
    && forall key: Key :: MemoryOf(shard, key) == Remembered(policies, calls, replies, forgets, key)
  }

  ghost function MemoryOf(shard: AttemptShard, key: Key): Memory
    reads shard
  {
    Memory(shard.HistoryOf(key), shard.TokensOf(key))
  }

  lemma {:induction false} NothingRemembered(policies: Key -> AttemptPolicy)
    ensures AnswersAsRemembered(policies, [], [], []) && KeysAsked([]) == {}
    ensures forall key: Key :: Remembered(policies, [], [], [], key) == Memory([], [])
  {
  }

  lemma {:induction false} OneMoreReply(policies: Key -> AttemptPolicy, calls: seq<Call>, replies: seq<Reply>,
                                        forgets: seq<bool>, call: Call, reply: Reply, forgot: bool)
    requires |calls| == |replies| == |forgets| && AnswersAsRemembered(policies, calls, replies, forgets)
    requires Demanded(policies(call.Key()), calls + [call], reply, forgot,
                      Remembered(policies, calls, replies, forgets, call.Key()))
    ensures AnswersAsRemembered(policies, calls + [call], replies + [reply], forgets + [forgot])
  {
    hide Demanded, Remembered;
    var n, longer, answered, forgotten := |calls|, calls + [call], replies + [reply], forgets + [forgot];
    forall i | 0 <= i <= n
      ensures Demanded(policies(longer[i].Key()), longer[..i + 1], answered[i], forgotten[i],
                       Remembered(policies, longer[..i], answered[..i], forgotten[..i], longer[i].Key()))
    {
      assert longer[..i] == calls[..i] && answered[..i] == replies[..i] && forgotten[..i] == forgets[..i];
      if i == n {
        assert calls[..n] == calls && replies[..n] == replies && forgets[..n] == forgets && longer[..n + 1] == longer;
      } else {
        assert longer[..i + 1] == calls[..i + 1];
      }
    }
  }

  lemma {:induction false} RememberedNext(policies: Key -> AttemptPolicy, calls: seq<Call>, replies: seq<Reply>,
                                          forgets: seq<bool>, call: Call, reply: Reply, forgot: bool, key: Key)
    requires |calls| == |replies| == |forgets|
    ensures var before := Remembered(policies, calls, replies, forgets, key);
            Remembered(policies, calls + [call], replies + [reply], forgets + [forgot], key) ==
            if call.Key() == key then before.After(policies(key), call, reply, forgot) else before
  {
    hide Memory.After;
    assert (calls + [call])[..|calls|] == calls && (replies + [reply])[..|calls|] == replies
           && (forgets + [forgot])[..|calls|] == forgets;
  }

  method Play(shard: AttemptShard, policies: Key -> AttemptPolicy, ghost calls: seq<Call>, ghost replies: seq<Reply>,
              ghost forgets: seq<bool>, call: Call, ghost back: nat)
    returns (reply: Reply, ghost forgot: bool)
    requires |calls| == |replies| == |forgets| && Remembers(shard, policies, calls, replies, forgets)
    requires back + policies(call.Key()).maximum <= policies(call.Key()).quiet
             && LatestOf(calls + [call]) <= call.clock + back
    requires call.Ask? ==> forall i | 0 <= i < |calls| && calls[i].Ask? :: calls[i].token != call.token
    requires call.Tell? ==> call.receipt.policy == policies(call.receipt.key)
    modifies shard
    ensures Remembers(shard, policies, calls + [call], replies + [reply], forgets + [forgot])
    ensures Demanded(policies(call.Key()), calls + [call], reply, forgot,
                     Remembered(policies, calls, replies, forgets, call.Key()))
  {
    hide Memory.After, Remembered, Demanded, AttemptShard.Valid;
    assert (calls + [call])[..|calls|] == calls;
    reply, forgot := Serve(shard, policies(call.Key()), calls, call, back);
    forall key: Key
      ensures MemoryOf(shard, key) == Remembered(policies, calls + [call], replies + [reply], forgets + [forgot], key)
    {
      RememberedNext(policies, calls, replies, forgets, call, reply, forgot, key);
    }
    forall t | t in shard.used
      ensures exists i :: 0 <= i < |calls + [call]| && (calls + [call])[i].Ask? && (calls + [call])[i].token == t
    {
      if call.Ask? && t == call.token {
        assert (calls + [call])[|calls|].token == t;
      } else {
        var i :| 0 <= i < |calls| && calls[i].Ask? && calls[i].token == t;
        assert (calls + [call])[i].token == t;
      }
    }
  }

  /** One call on the shard. */
  method Serve(shard: AttemptShard, policy: AttemptPolicy, ghost calls: seq<Call>, call: Call, ghost back: nat)
    returns (reply: Reply, ghost forgot: bool)
    requires shard.Valid() && policy == shard.policyOf(call.Key()) && back + policy.maximum <= policy.quiet
    requires shard.latest == LatestOf(calls)
             && LatestOf(calls + [call]) == Max(LatestOf(calls), call.Reading()) <= call.clock + back
    requires shard.rows.Keys <= KeysAsked(calls)
    requires if call.Ask? then call.token !in shard.used else call.receipt.policy == policy
    modifies shard
    ensures shard.Valid() && shard.latest == LatestOf(calls + [call]) && shard.rows.Keys <= KeysAsked(calls + [call])
    ensures shard.used <= old(shard.used) + if call.Ask? then {call.token} else {}
    ensures forall k: Key | k != call.Key() :: MemoryOf(shard, k) == old(MemoryOf(shard, k))
    ensures MemoryOf(shard, call.Key()) == old(MemoryOf(shard, call.Key())).After(policy, call, reply, forgot)
    ensures Demanded(policy, calls + [call], reply, forgot, old(MemoryOf(shard, call.Key())))
  {
    hide AttemptShard.Valid, Judge, Admitted, Closed, Live, SweptBut, Stands, Faithful, SucceededLater, Outcomes,
         Expired, AttemptLedger.Complete, LatestOf, KeysAsked;
    shard.KeyStands(call.Key());
    AskedNext(calls, call);
    ghost var h, tokens, earlier := shard.HistoryOf(call.Key()), shard.TokensOf(call.Key()), shard.latest;
    match call
    case Ask(key, maximum, locked, cleanedAt, clock, token) =>
      ghost var rows := shard.rows;
      ForgottenIsPast(policy, rows, locked, key, h, tokens, earlier, cleanedAt, clock);
      var r, found := shard.Admit(key, policy, maximum, locked, cleanedAt, clock, token);
      reply, forgot := Asking(r), r.RowAdmitted? && !found && Recalled(policy, h, clock);
      AdmittedAsDemanded(policy, key, h, tokens, clock, token, found, r, shard.HistoryOf(key), shard.TokensOf(key));
      if r.RowDenied? && r.denial.StorageCapacity? { MoreThanStored(shard.rows.Keys, KeysAsked(calls + [call]), key); }
    case Tell(receipt, outcome, clock) =>
      var completion := shard.Complete(receipt, outcome, clock);
      reply, forgot := Telling(completion), false;
      LastTokenDecides(policy, h, tokens, receipt.token, outcome, clock);
  }

  lemma {:induction false} AskedNext(calls: seq<Call>, call: Call)
    ensures KeysAsked(calls + [call]) == KeysAsked(calls) + if call.Ask? then {call.key} else {}
    ensures LatestOf(calls + [call]) == Max(LatestOf(calls), call.Reading())
  {
    assert (calls + [call])[..|calls|] == calls;
  }

  lemma {:induction false} MoreThanStored(stored: set<Key>, asked: set<Key>, key: Key)
    requires stored <= asked && key in asked && key !in stored
    ensures |stored| < |asked|
  {
    SubsetSize(stored + {key}, asked);
  }

  /** A receipt is applied only while the lease of its key's last attempt is live. */
  lemma {:induction false} LastTokenDecides(p: AttemptPolicy, h: History, tokens: seq<nat>, token: nat,
                                            outcome: Outcome, now: nat)
    requires |tokens| == |h| && forall i, j | 0 <= i < j < |tokens| :: tokens[i] != tokens[j]
    ensures forall index: nat | index < |tokens| && tokens[index] == token ::
              var (after, completion) := AttemptLedger.Complete(p, h, index, outcome, now);
              if Memory(h, tokens).Opened(token, now) then
                (after, completion) == (Closed(h, now, outcome), AttemptLedger.Complete(p, h, |h| - 1, outcome, now).1)
                && completion.Applied?
              else (after, completion) == (h, Stale)
    ensures token !in tokens ==> !Memory(h, tokens).Opened(token, now)
  {
    hide Streak, Delay, Closed;
  }

  /** A row is missing only after a reading past the quiet period. */
  lemma {:induction false} ForgottenIsPast(p: AttemptPolicy, rows: map<Key, Row>, locked: set<Key>, key: Key,
                                           h: History, tokens: seq<nat>, latest: nat, cleanedAt: nat, clock: nat)
    requires Stands(p, if key in rows then Some(rows[key]) else None, h, tokens, latest)
    ensures |tokens| == |h| && forall i, j | 0 <= i < j < |tokens| :: tokens[i] != tokens[j]
    ensures key !in rows || key in Expired(rows, locked, cleanedAt) ==>
              Recalled(p, h, clock) ==> h != [] && Last(h).finish + p.quiet <= Max(latest, cleanedAt)
  {
    hide Streak, Delay;
  }

  lemma {:induction false} AdmittedAsDemanded(p: AttemptPolicy, key: Key, h: History, tokens: seq<nat>, clock: nat,
                                              token: nat, found: bool, r: RowAdmission, after: History,
                                              afterTokens: seq<nat>)
    requires Outcomes(p, key, h, tokens, clock, token, found, r, after, afterTokens)
    requires found || Faithful(p, h, clock, false)
    ensures match r
            case RowAdmitted(receipt) =>
              var forgets := !found && Recalled(p, h, clock);
              && Judge(p, h, clock) == AttemptLedger.Verdict.Admit && receipt == RowReceipt(p, key, token)
              && after == Admitted(p, if forgets then [] else h, clock)
                 && afterTokens == (if forgets then [] else tokens) + [token]
            case RowDenied(denial) =>
              && after == h && afterTokens == tokens
              && match denial
                 case DeniedBusy(d) => Judge(p, h, clock) == Busy(d)
                 case DeniedBackoff(d) =>
                   Judge(p, h, clock) == Backoff(d) || (SucceededLater(h, clock) && d == Last(h).finish - clock)
                 case StorageCapacity => Judge(p, h, clock) == AttemptLedger.Verdict.Admit
  {
    hide Streak, Delay, Admitted;
  }
}

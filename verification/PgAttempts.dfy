/** PostgreSQL attempt reservations for one capacity shard: an admission cleans
    up, reconciles its row in local variables and commits or rolls back; only a
    completion ever writes a reconciled row. */
module PgAttempts {
  import opened Basics
  import opened AttemptPolicies
  import opened AttemptLedger
  import opened MemoryAttempts
  import opened ExpiryOrder

  datatype RowLease = RowLease(token: nat, until: nat)

  datatype Row = Row(slot: nat, failures: nat, lastFailure: nat, retryAt: nat, quiet: nat, lease: Option<RowLease>)

  datatype RowReceipt = RowReceipt(policy: AttemptPolicy, key: Key, token: nat)

  datatype RowAdmission = RowAdmitted(receipt: RowReceipt) | RowDenied(denial: AttemptDenial)

  /** `COALESCE(lease_until_ms, last_failure_ms) + quiet_ms`. */
  function ExpiryOf(r: Row): nat { (if r.lease.Some? then r.lease.value.until else r.lastFailure) + r.quiet }

  /** How a row stands for the eager history of its key: an expired lease is kept
      as it is, and a success keeps its row. */
  predicate Stands(p: AttemptPolicy, row: Option<Row>, h: History, tokens: seq<nat>, now: nat) {
    && |tokens| == |h|
    && (forall i, j | 0 <= i < j < |tokens| :: tokens[i] != tokens[j])
    && match row
       case None => h == [] || Last(h).ending == Succeeded || now >= Last(h).finish + p.quiet
       case Some(r) =>
         && h != [] && r.quiet == p.quiet
         && match r.lease
            case Some(l) =>
              && Last(h).ending == Open && Last(h).finish == l.until && l.token == tokens[|h| - 1]
              && r.failures == Min(Streak(p, h) - 1, U32_MAX)
            case None =>
              && Last(h).ending != Open && r.lastFailure == Last(h).finish <= now
              && r.failures == Min(Streak(p, h), U32_MAX) && r.retryAt == r.lastFailure + Delay(p, Streak(p, h))
  }

  lemma {:induction false} StandsLater(p: AttemptPolicy, row: Option<Row>, h: History, tokens: seq<nat>, now: nat,
                                       later: nat)
    requires Stands(p, row, h, tokens, now) && now <= later
    ensures Stands(p, row, h, tokens, later)
  {
  }

  /** Rows a cleanup statement may delete. */
  function Expired(rows: map<Key, Row>, locked: set<Key>, now: nat): (due: set<Key>)
    ensures due <= rows.Keys
  {
    set k | k in rows && k !in locked && ExpiryOf(rows[k]) <= now
  }

  function ExpiriesOf(rows: map<Key, Row>, due: set<Key>): (expiries: Expiries)
    requires due <= rows.Keys
    ensures expiries.Keys == due
  {
    map k | k in due :: ExpiryOf(rows[k])
  }

  /** At most sixteen of the rows due, earliest first. */
  ghost predicate Earliest(rows: map<Key, Row>, due: set<Key>, chosen: set<Key>)
    requires due <= rows.Keys
  {
    Soonest(ExpiriesOf(rows, due), CLEANUP_LIMIT, chosen)
  }

  /** The cleanup statement: the sixteen expired rows that expired first, except
      those another transaction has locked. */
  method DeleteExpired(rows: map<Key, Row>, locked: set<Key>, now: nat) returns (kept: map<Key, Row>)
    ensures kept.Keys <= rows.Keys && kept == rows - (rows.Keys - kept.Keys)
    ensures Earliest(rows, Expired(rows, locked, now), rows.Keys - kept.Keys)
  {
    hide ExpiryOf;
    var due := Expired(rows, locked, now);
    var deleted := TakeSoonest(ExpiriesOf(rows, due), CLEANUP_LIMIT);
    kept := rows - deleted;
    assert rows.Keys - kept.Keys == deleted;
  }

  /** The rows left by one cleanup statement, and those inserted after it. */
  ghost predicate SweptBut(before: map<Key, Row>, locked: set<Key>, at: nat, after: map<Key, Row>, inserted: set<Key>) {
    exists swept | Earliest(before, Expired(before, locked, at), swept) :: after.Keys == before.Keys - swept + inserted
  }

  lemma {:induction false} CleanupSweeps(before: map<Key, Row>, locked: set<Key>, at: nat, after: map<Key, Row>)
    requires after.Keys <= before.Keys && Earliest(before, Expired(before, locked, at), before.Keys - after.Keys)
    ensures SweptBut(before, locked, at, after, {})
  {
    hide Earliest, Expired;
    assert after.Keys == before.Keys - (before.Keys - after.Keys) + {};
  }

  lemma {:induction false} SweptThenWritten(before: map<Key, Row>, locked: set<Key>, at: nat, kept: map<Key, Row>,
                                            after: map<Key, Row>, key: Key)
    requires SweptBut(before, locked, at, kept, {}) && after.Keys == kept.Keys + {key}
    ensures SweptBut(before, locked, at, after, {key})
  {
    hide Earliest, Expired;
    var swept :| Earliest(before, Expired(before, locked, at), swept) && kept.Keys == before.Keys - swept + {};
    assert after.Keys == before.Keys - swept + {key};
  }

  lemma {:induction false} SweptIsExpired(before: map<Key, Row>, locked: set<Key>, at: nat, after: map<Key, Row>,
                                          key: Key)
    requires Earliest(before, Expired(before, locked, at), before.Keys - after.Keys)
    ensures key in before && key !in after ==> key in Expired(before, locked, at)
  {
    hide Expired, ExpiryOf;
  }

  lemma {:induction false} DeletedAreExpired(rows: map<Key, Row>, locked: set<Key>, now: nat, deleted: set<Key>)
    requires Expired(rows, locked, now) <= rows.Keys && Earliest(rows, Expired(rows, locked, now), deleted)
    ensures forall k | k in deleted :: k in rows && ExpiryOf(rows[k]) <= now
  {
    hide ExpiryOf;
  }

  /** Slots taken by the stored rows. */
  function Slots(rows: map<Key, Row>): set<nat> { set k | k in rows :: rows[k].slot }

  predicate DistinctSlots(rows: map<Key, Row>)
  {
    forall j, k | j in rows && k in rows && j != k :: rows[j].slot != rows[k].slot
  }

  function SlotsBelow(n: nat): (s: set<nat>)
    ensures |s| == n && forall i: nat :: i in s <==> i < n
  {
    if n == 0 then {} else SlotsBelow(n - 1) + {n - 1}
  }

  lemma {:induction false} NoMoreSlotsThanRows(rows: map<Key, Row>)
    ensures |Slots(rows)| <= |rows|
  {
    if rows.Keys == {} {
      assert Slots(rows) == {};
    } else {
      var k :| k in rows;
      var rest := rows - {k};
      NoMoreSlotsThanRows(rest);
      assert Slots(rows) == Slots(rest) + {rows[k].slot};
      assert rows.Keys == rest.Keys + {k};
    }
  }

  /** The least free slot under the maximum. Below the occupancy limit there is one. */
  method LeastFreeSlot(rows: map<Key, Row>, maximum: nat) returns (slot: Option<nat>)
    ensures match slot
            case Some(s) => s < maximum && s !in Slots(rows) && forall i: nat | i < s :: i in Slots(rows)
            case None => forall i: nat | i < maximum :: i in Slots(rows)
    ensures |rows| < maximum ==> slot.Some?
  {
    for i := 0 to maximum
      invariant forall j: nat | j < i :: j in Slots(rows)
    {
      if i !in Slots(rows) { return Some(i); }
    }
    assert SlotsBelow(maximum) <= Slots(rows);
    SubsetSize(SlotsBelow(maximum), Slots(rows));
    NoMoreSlotsThanRows(rows);
    slot := None;
  }

  /** A failure whose quiet period is not over at `now`. */
  predicate Recalled(p: AttemptPolicy, h: History, now: nat) {
    h != [] && Last(h).ending != Succeeded && now < Last(h).finish + p.quiet
  }

  /** What a missing row leaves of a history: a failure it should still recall is
      forgotten, with everything before it. */
  function Kept(p: AttemptPolicy, h: History, now: nat): History { if Recalled(p, h, now) then [] else h }

  function KeptTokens(p: AttemptPolicy, h: History, tokens: seq<nat>, now: nat): seq<nat>
  {
    if Recalled(p, h, now) then [] else tokens
  }

  /** The answer is the one the history demands; a storage denial comes only where
      the history admits. */
  predicate AsDemanded(r: RowAdmission, verdict: AttemptLedger.Verdict) {
    match r
    case RowDenied(DeniedBusy(d)) => verdict == Busy(d)
    case RowDenied(DeniedBackoff(d)) => verdict == Backoff(d)
    case RowDenied(StorageCapacity) => verdict == AttemptLedger.Verdict.Admit
    case RowAdmitted(_) => verdict == AttemptLedger.Verdict.Admit
  }

  /** Where the answer is the history's: for a stored row, unless the clock is from
      before a recorded success; for a missing one, once the wait is over. */
  predicate Faithful(p: AttemptPolicy, h: History, clock: nat, found: bool) {
    if found then !SucceededLater(h, clock) else clock >= WaitEnd(p, h)
  }

  /** What an admission answers and leaves, from the history and tokens before it. */
  predicate Outcomes(p: AttemptPolicy, key: Key, h: History, tokens: seq<nat>, clock: nat, token: nat, found: bool,
                     r: RowAdmission, after: History, afterTokens: seq<nat>) {
    && (AsDemanded(r, Judge(p, h, clock)) <==> Faithful(p, h, clock, found))
    && match r
       case RowAdmitted(receipt) =>
         && receipt == RowReceipt(p, key, token)
         && after == Admitted(p, if found then h else Kept(p, h, clock), clock)
         && afterTokens == (if found then tokens else KeptTokens(p, h, tokens, clock)) + [token]
       case RowDenied(denial) =>
         && after == h && afterTokens == tokens && (denial.StorageCapacity? <==> !found)
         && (found && SucceededLater(h, clock) ==> denial == DeniedBackoff(Last(h).finish - clock))
  }

  /** A success completed after `now`: only a clock that ran back can see one. */
  predicate SucceededLater(h: History, now: nat) { h != [] && Last(h).ending == Succeeded && now < Last(h).finish }

  /** Reconciles a fetched row in local variables and says why the caller must
      wait, if it must. Under any clock the answer is the history's, except that
      a clock from before a success still backs off until that success. */
  method Examine(row: Row, policy: AttemptPolicy, now: nat, ghost h: History, ghost tokens: seq<nat>, ghost latest: nat)
    returns (failures: nat, lastFailure: nat, denial: Option<AttemptDenial>)
    requires ValidAttemptPolicy(policy) && Stands(policy, Some(row), h, tokens, latest)
    ensures h != [] && row.quiet == policy.quiet
    ensures SucceededLater(h, now) ==>
            denial == Some(DeniedBackoff(Last(h).finish - now)) && Judge(policy, h, now) == AttemptLedger.Verdict.Admit
    ensures !SucceededLater(h, now) ==>
            match denial
            case None =>
              && Judge(policy, h, now) == AttemptLedger.Verdict.Admit
              && failures == if now < Last(h).finish + policy.quiet then Min(Streak(policy, h), U32_MAX) else 0
            case Some(DeniedBusy(d)) => Judge(policy, h, now) == Busy(d)
            case Some(DeniedBackoff(d)) => Judge(policy, h, now) == Backoff(d)
            case Some(StorageCapacity) => false
  {
    hide Delay, Streak;
    failures, lastFailure := row.failures, row.lastFailure;
    var retry := row.retryAt;
    if row.lease.Some? {
      var until := row.lease.value.until;
      if now < until {
        denial := Some(DeniedBusy(until - now));
        return;
      }
      failures := Min(failures + 1, U32_MAX);
      lastFailure := until;
      retry := until + Delay(policy, failures);
      SaturatedCountKeepsDelay(policy, Streak(policy, h));
    }
    SuccessHasNoStreak(policy, h);
    DelayGrows(policy, 0, Streak(policy, h));
    NoFailuresNoDelay(policy);
    if now >= lastFailure + policy.quiet {
      failures := 0;
      retry := now;
    }
    denial := if now < retry then Some(DeniedBackoff(retry - now)) else None;
  }

  lemma {:induction false} SuccessHasNoStreak(p: AttemptPolicy, h: History)
    requires h != []
    ensures Streak(p, h) == 0 <==> Last(h).ending == Succeeded
  {
  }

  /** The delay in the completion statement: `LEAST(maximum, initial * 2^LEAST(failures, 63))`. */
  function StatementDelay(p: AttemptPolicy, failures: nat): nat { Min(p.maximum, p.initial * Pow2(Min(failures, 63))) }

  /** Cutting the exponent at 63 never shows: the statement and the in-memory
      policy compute the same delay. */
  lemma {:induction false} StatementDelayIsPolicyDelay(p: AttemptPolicy, failures: nat)
    requires ValidAttemptPolicy(p)
    ensures StatementDelay(p, failures) == Delay(p, failures + 1)
  {
    hide Delay;
    DelayIsCappedDoubling(p, failures + 1);
    if failures > 63 {
      Pow2Of64();
      assert Pow2(64) == 2 * Pow2(63);
      Pow2Monotone(63, failures);
      MulMonotone(1, p.initial, Pow2(63));
      MulMonotone(1, p.initial, Pow2(failures));
    }
  }

  class AttemptShard {
    var rows: map<Key, Row>
    ghost const policyOf: Key -> AttemptPolicy
    ghost var latest: nat
    ghost var histories: map<Key, History>
    ghost var issued: map<Key, seq<nat>>
    ghost var used: set<nat>

    /** The attempts of a key since the last one admitted as if it had none. */
    ghost function HistoryOf(key: Key): History
      reads this`histories
    {
      if key in histories then histories[key] else []
    }

    ghost function TokensOf(key: Key): seq<nat>
      reads this`issued
    {
      if key in issued then issued[key] else []
    }

    ghost function RowOf(key: Key): Option<Row>
      reads this`rows
    {
      if key in rows then Some(rows[key]) else None
    }

    ghost predicate KeyValid(key: Key)
      reads this
    {
      && ValidAttemptPolicy(policyOf(key))
      && Stands(policyOf(key), RowOf(key), HistoryOf(key), TokensOf(key), latest)
      && forall t | t in TokensOf(key) :: t in used
    }

    /** Every stored or missing row stands for its key's history as of the latest
        clock reading, and no two rows share a slot. */
    ghost predicate Valid()
      reads this
    {
      DistinctSlots(rows) && forall key: Key :: KeyValid(key)
    }

    constructor (ghost policyOf: Key -> AttemptPolicy)
      requires forall key: Key :: ValidAttemptPolicy(policyOf(key))
      ensures Valid() && this.policyOf == policyOf && rows == map[] && latest == 0 && used == {}
      ensures forall key: Key :: HistoryOf(key) == [] && TokensOf(key) == []
    {
      this.policyOf := policyOf;
      rows, latest, histories, issued, used := map[], 0, map[], map[], {};
    }

    /** One admission transaction. `cleanedAt` and `clock` are its two readings of
        the server clock, whatever they are, `locked` the rows held by completions
        meanwhile and `token` the generated lease token. `found` says whether the
        key still had a row once the cleanup was done. */
    method Admit(key: Key, policy: AttemptPolicy, maximum: nat, locked: set<Key>, cleanedAt: nat, clock: nat,
                 token: nat)
      returns (r: RowAdmission, ghost found: bool)
      requires Valid() && policy == policyOf(key) && token !in used
      modifies this
      ensures Valid() && latest == Max(old(latest), Max(cleanedAt, clock)) && used <= old(used) + {token}
      ensures forall k: Key | k != key :: HistoryOf(k) == old(HistoryOf(k)) && TokensOf(k) == old(TokensOf(k))
      ensures |rows| <= Max(|old(rows)|, maximum)
      ensures forall k | k in rows && k != key :: k in old(rows) && rows[k] == old(rows)[k]
      ensures r.RowAdmitted? || r.denial.StorageCapacity? ==>
                SweptBut(old(rows), locked, cleanedAt, rows, if r.RowAdmitted? then {key} else {})
      ensures found ==> key in old(rows)
      ensures key in old(rows) && !found ==> key in Expired(old(rows), locked, cleanedAt)
      ensures (if found then latest <= clock else latest + policy.maximum <= clock + policy.quiet) ==>
                Faithful(policy, old(HistoryOf(key)), clock, found)
      ensures latest <= clock ==> found || !Recalled(policy, old(HistoryOf(key)), clock)
      ensures Outcomes(policy, key, old(HistoryOf(key)), old(TokensOf(key)), clock, token, found, r, HistoryOf(key),
                       TokensOf(key))
      ensures match r
              case RowDenied(StorageCapacity) => key !in rows && |rows| >= maximum && rows.Keys <= old(rows).Keys
              case RowDenied(_) => rows == old(rows)
              case RowAdmitted(_) => key in rows
    {
      hide AttemptShard.Valid, Judge, Expired, Earliest, SweptBut, Recalled, Faithful, Outcomes, Stands;
      var begun := rows;
      Prepare(key, locked, cleanedAt, clock);
      ghost var kept := rows;
      KeyStands(key);
      RecentClockIsFaithful(policy, RowOf(key), HistoryOf(key), TokensOf(key), latest, clock);
      r, found := Decide(key, policy, maximum, clock, token);
      if r.RowAdmitted? {
        SweptThenWritten(begun, locked, cleanedAt, kept, rows, key);
      } else if !r.denial.StorageCapacity? {
        rows := begun;
        StillStands(old(latest));
      }
    }

    /** Cleans up, then reads the clock again. */
    method Prepare(ghost key: Key, locked: set<Key>, cleanedAt: nat, ghost clock: nat)
      requires Valid()
      modifies this`rows, this`latest
      ensures Valid() && latest == Max(old(latest), Max(cleanedAt, clock))
      ensures rows.Keys <= old(rows).Keys && |rows| <= |old(rows)| && forall k | k in rows :: rows[k] == old(rows)[k]
      ensures SweptBut(old(rows), locked, cleanedAt, rows, {})
      ensures key in old(rows) && key !in rows ==> key in Expired(old(rows), locked, cleanedAt)
    {
      hide AttemptShard.Valid, Expired, Earliest, SweptBut;
      ghost var begun := rows;
      Cleanup(locked, cleanedAt);
      CleanupSweeps(begun, locked, cleanedAt, rows);
      SweptIsExpired(begun, locked, cleanedAt, rows, key);
      label cleaned:
      latest := Max(latest, clock);
      StillStands@cleaned(old@cleaned(latest));
    }

    /** The transaction once its cleanup is done. */
    method Decide(key: Key, policy: AttemptPolicy, maximum: nat, clock: nat, token: nat)
      returns (r: RowAdmission, ghost found: bool)
      requires Valid() && policy == policyOf(key) && token !in used
      modifies this`rows, this`histories, this`issued, this`used
      ensures Valid() && used <= old(used) + {token} && old(used) <= used
      ensures forall k: Key | k != key :: HistoryOf(k) == old(HistoryOf(k)) && TokensOf(k) == old(TokensOf(k))
      ensures found <==> key in old(rows)
      ensures Outcomes(policy, key, old(HistoryOf(key)), old(TokensOf(key)), clock, token, found, r, HistoryOf(key),
                       TokensOf(key))
      ensures forall k | k in old(rows) && k != key :: k in rows && rows[k] == old(rows)[k]
      ensures |rows| <= Max(|old(rows)|, maximum)
      ensures if r.RowAdmitted? then rows.Keys == old(rows).Keys + {key}
              else rows == old(rows) && histories == old(histories) && issued == old(issued) && used == old(used)
                   && (r.denial.StorageCapacity? ==> key !in rows && |rows| >= maximum)
    {
      hide AttemptShard.Valid, Outcomes;
      found := key in rows;
      if key in rows {
        RenewedDenial(policy, key, HistoryOf(key), TokensOf(key), clock, token);
        r := Renew(key, policy, clock, token);
        assert rows.Keys == old(rows).Keys + {key};
      } else {
        r := Insert(key, policy, maximum, clock, token);
      }
    }

    lemma {:induction false} KeyStands(key: Key)
      requires Valid()
      ensures ValidAttemptPolicy(policyOf(key))
              && Stands(policyOf(key), RowOf(key), HistoryOf(key), TokensOf(key), latest)
      ensures forall t | t in TokensOf(key) :: t in used
    {
      assert KeyValid(key);
    }

    /** Reserves the row a key already has, unless it shows a wait. */
    method Renew(key: Key, policy: AttemptPolicy, clock: nat, token: nat) returns (r: RowAdmission)
      requires Valid() && policy == policyOf(key) && key in rows && token !in used
      modifies this`rows, this`histories, this`issued, this`used
      ensures Valid() && rows.Keys == old(rows).Keys && |rows| == |old(rows)|
              && old(used) <= used <= old(used) + {token}
      ensures forall k: Key | k != key :: HistoryOf(k) == old(HistoryOf(k)) && TokensOf(k) == old(TokensOf(k))
      ensures forall k | k in rows && k != key :: rows[k] == old(rows)[k]
      ensures Outcomes(policy, key, old(HistoryOf(key)), old(TokensOf(key)), clock, token, true, r, HistoryOf(key),
                       TokensOf(key))
      ensures r.RowDenied? ==>
              rows == old(rows) && histories == old(histories) && issued == old(issued) && used == old(used)
    {
      hide Stands, Delay, Streak, Judge, Admitted, SucceededLater;
      KeyStands(key);
      ghost var h, tokens := HistoryOf(key), TokensOf(key);
      var row := rows[key];
      var failures, lastFailure, denial := Examine(row, policy, clock, h, tokens, latest);
      if denial.Some? { return RowDenied(denial.value); }
      row := row.(failures := failures, lastFailure := lastFailure, retryAt := clock,
                  lease := Some(RowLease(token, clock + policy.lease)));
      ReservedStands(policy, RowOf(key), row, h, tokens, clock, latest, token);
      Write(key, policy, row, clock, token, h, tokens);
      return RowAdmitted(RowReceipt(policy, key, token));
    }

    /** Inserts a row for a key that has none, into the least free slot. */
    method Insert(key: Key, policy: AttemptPolicy, maximum: nat, clock: nat, token: nat) returns (r: RowAdmission)
      requires Valid() && policy == policyOf(key) && key !in rows && token !in used
      modifies this`rows, this`histories, this`issued, this`used
      ensures Valid() && old(used) <= used <= old(used) + {token}
      ensures forall k: Key | k != key :: HistoryOf(k) == old(HistoryOf(k)) && TokensOf(k) == old(TokensOf(k))
      ensures forall k | k in old(rows) :: k in rows && rows[k] == old(rows)[k]
      ensures Outcomes(policy, key, old(HistoryOf(key)), old(TokensOf(key)), clock, token, false, r, HistoryOf(key),
                       TokensOf(key))
      ensures if |old(rows)| < maximum then
                && r == RowAdmitted(RowReceipt(policy, key, token))
                && rows.Keys == old(rows).Keys + {key} && |rows| == |old(rows)| + 1
                && (forall i: nat | i < rows[key].slot :: i in Slots(old(rows)))
              else
                && r == RowDenied(AttemptDenial.StorageCapacity)
                && rows == old(rows) && histories == old(histories) && issued == old(issued) && used == old(used)
    {
      hide Stands, Admitted, Slots, Judge, WaitEnd, Recalled;
      KeyStands(key);
      AdmitsAfterWait(policy, HistoryOf(key), clock);
      if |rows| >= maximum { return RowDenied(AttemptDenial.StorageCapacity); }
      var slot := LeastFreeSlot(rows, maximum);
      if slot.None? { return RowDenied(AttemptDenial.StorageCapacity); }
      var row := Row(slot.value, 0, clock, clock, policy.quiet, Some(RowLease(token, clock + policy.lease)));
      ghost var h, tokens := Kept(policy, HistoryOf(key), clock),
                KeptTokens(policy, HistoryOf(key), TokensOf(key), clock);
      KeptStands(policy, HistoryOf(key), TokensOf(key), latest, clock);
      ReservedStands(policy, None, row, h, tokens, clock, latest, token);
      Write(key, policy, row, clock, token, h, tokens);
      return RowAdmitted(RowReceipt(policy, key, token));
    }

    /** Deletes expired rows, whatever the clock reads. */
    method Cleanup(locked: set<Key>, clock: nat)
      requires Valid()
      modifies this`rows, this`latest
      ensures Valid() && latest == Max(old(latest), clock)
      ensures rows.Keys <= old(rows).Keys && |rows| <= |old(rows)|
      ensures forall k | k in rows :: rows[k] == old(rows)[k]
      ensures Earliest(old(rows), Expired(old(rows), locked, clock), old(rows).Keys - rows.Keys)
    {
      hide Stands, ExpiryOf, Expired;
      rows := DeleteExpired(rows, locked, clock);
      latest := Max(latest, clock);
      SmallerMap(rows, old(rows));
      ghost var deleted := old(rows).Keys - rows.Keys;
      DeletedAreExpired(old(rows), locked, clock, deleted);
      forall key: Key ensures KeyValid(key) {
        assert old(KeyValid(key));
        StandsLater(policyOf(key), old(RowOf(key)), HistoryOf(key), TokensOf(key), old(latest), latest);
        if key in deleted { DeletedStands(policyOf(key), old(rows)[key], HistoryOf(key), TokensOf(key), latest); }
      }
    }

    /** When a row is due can be read off its key's history. */
    lemma {:induction false} QuietTimes() returns (quietAt: map<Key, nat>)
      requires Valid()
      ensures quietAt.Keys == rows.Keys
      ensures forall key | key in rows ::
                HistoryOf(key) != []
                && quietAt[key] == ExpiryOf(rows[key]) == Last(HistoryOf(key)).finish + policyOf(key).quiet
    {
      hide Stands, ExpiryOf;
      quietAt := map key | key in rows :: ExpiryOf(rows[key]);
      forall key | key in rows
        ensures HistoryOf(key) != [] && ExpiryOf(rows[key]) == Last(HistoryOf(key)).finish + policyOf(key).quiet
      {
        assert KeyValid(key);
        ExpiryByHistory(policyOf(key), rows[key], HistoryOf(key), TokensOf(key), latest);
      }
    }

    /** Inserts or updates the reserved row, going on from the history `h`. */
    method Write(key: Key, policy: AttemptPolicy, row: Row, ghost clock: nat, ghost token: nat, ghost h: History,
                 ghost tokens: seq<nat>)
      requires Valid() && policy == policyOf(key)
      requires if key in rows then row.slot == rows[key].slot else row.slot !in Slots(rows)
      requires Stands(policy, Some(row), Admitted(policy, h, clock), tokens + [token], latest)
               && forall t | t in tokens :: t in used
      modifies this`rows, this`histories, this`issued, this`used
      ensures Valid() && rows == old(rows)[key := row] && |rows| == |old(rows)| + if key in old(rows) then 0 else 1
      ensures HistoryOf(key) == Admitted(policy, h, clock) && TokensOf(key) == tokens + [token]
              && used == old(used) + {token}
      ensures forall k: Key | k != key :: HistoryOf(k) == old(HistoryOf(k)) && TokensOf(k) == old(TokensOf(k))
    {
      hide Stands, Admitted;
      RoomForOne(rows, key, row);
      histories := histories[key := Admitted(policy, h, clock)];
      issued := issued[key := tokens + [token]];
      used := used + {token};
      rows := rows[key := row];
      forall k: Key ensures KeyValid(k) { assert old(KeyValid(k)); }
    }

    /** The completion statement: it applies to a row whose token matches and whose
        lease is live, and leaves everything else as it is. Its answer is the
        history's under any clock, unless the row is gone and the clock ran back
        into the lease, by more than the quiet period: then the receipt is stale
        where the history would apply it. */
    method Complete(receipt: RowReceipt, outcome: Outcome, clock: nat) returns (completion: Completion)
      requires Valid() && receipt.policy == policyOf(receipt.key)
      modifies this
      ensures Valid() && latest == Max(old(latest), clock) && rows.Keys == old(rows).Keys && used == old(used)
      ensures forall k: Key :: TokensOf(k) == old(TokensOf(k))
      ensures forall k: Key | k != receipt.key :: HistoryOf(k) == old(HistoryOf(k)) && RowOf(k) == old(RowOf(k))
      ensures forall index: nat | index < |TokensOf(receipt.key)| && TokensOf(receipt.key)[index] == receipt.token ::
                receipt.key in rows || index != |old(HistoryOf(receipt.key))| - 1
                || !Live(old(HistoryOf(receipt.key)), clock) ==>
                  (HistoryOf(receipt.key), completion) ==
                  AttemptLedger.Complete(policyOf(receipt.key), old(HistoryOf(receipt.key)), index, outcome, clock)
      ensures latest <= clock + receipt.policy.quiet ==>
              receipt.key in rows || !Live(old(HistoryOf(receipt.key)), clock)
      ensures receipt.token !in TokensOf(receipt.key) || receipt.key !in rows ==> completion == Stale
      ensures completion == Stale ==> rows == old(rows) && HistoryOf(receipt.key) == old(HistoryOf(receipt.key))
    {
      hide AttemptShard.Valid, Stands, Delay, Streak, StatementDelay, Live, Closed, AttemptLedger.Complete,
           ValidAttemptPolicy;
      latest := Max(latest, clock);
      StillStands(old(latest));
      var key := receipt.key;
      ghost var p, h, tokens := policyOf(key), HistoryOf(key), TokensOf(key);
      KeyStands(key);
      RowAnswers(p, RowOf(key), h, tokens, latest, clock, receipt.token, outcome);
      if key !in rows { return Stale; }
      var row := rows[key];
      if row.lease.None? || row.lease.value.token != receipt.token || row.lease.value.until <= clock { return Stale; }
      var failures := if outcome == Success then 0 else Min(row.failures + 1, U32_MAX);
      var delay := if outcome == Success then 0 else StatementDelay(receipt.policy, row.failures);
      row := row.(failures := failures, lastFailure := clock, retryAt := clock + delay, lease := None);
      CompletedStands(p, rows[key], row, h, tokens, latest, clock, outcome);
      Close(key, row, clock, outcome);
      completion := Completed(outcome, failures, delay);
    }

    /** Writes the row of a completed attempt. */
    method Close(key: Key, row: Row, ghost clock: nat, outcome: Outcome)
      requires Valid() && key in rows && row.slot == rows[key].slot && HistoryOf(key) != []
      requires Stands(policyOf(key), Some(row), Closed(HistoryOf(key), clock, outcome), TokensOf(key), latest)
      modifies this`rows, this`histories
      ensures Valid() && rows == old(rows)[key := row] && rows.Keys == old(rows).Keys
      ensures HistoryOf(key) == Closed(old(HistoryOf(key)), clock, outcome)
      ensures forall k: Key | k != key :: HistoryOf(k) == old(HistoryOf(k)) && RowOf(k) == old(RowOf(k))
    {
      hide Stands, Closed;
      histories := histories[key := Closed(HistoryOf(key), clock, outcome)];
      rows := rows[key := row];
      assert rows.Keys == old(rows).Keys;
      forall k: Key ensures KeyValid(k) { assert old(KeyValid(k)); }
    }

    twostate lemma {:induction false} StillStands(earlier: nat)
      requires earlier == old(latest) <= latest && unchanged(this`rows, this`histories, this`issued)
               && old(used) <= used
      requires old(Valid())
      ensures Valid()
    {
      hide Stands;
      forall key: Key ensures KeyValid(key) {
        assert old(KeyValid(key));
        StandsLater(policyOf(key), RowOf(key), HistoryOf(key), TokensOf(key), earlier, latest);
      }
    }
  }

  lemma {:induction false} RenewedDenial(p: AttemptPolicy, key: Key, h: History, tokens: seq<nat>, clock: nat,
                                         token: nat)
    ensures forall denial: AttemptDenial, after: History, afterTokens: seq<nat> |
              Outcomes(p, key, h, tokens, clock, token, true, RowDenied(denial), after, afterTokens) ::
                !denial.StorageCapacity?
  {
    hide Faithful, AsDemanded;
  }

  /** How far a clock may run back before an answer departs from the history: for
      a stored row not at all, for a missing one by the time that the quiet period
      outlasts every delay. */
  lemma {:induction false} RecentClockIsFaithful(p: AttemptPolicy, row: Option<Row>, h: History, tokens: seq<nat>,
                                                 latest: nat, clock: nat)
    requires ValidAttemptPolicy(p) && Stands(p, row, h, tokens, latest)
    ensures (if row.Some? then latest <= clock else latest + p.maximum <= clock + p.quiet) ==>
            Faithful(p, h, clock, row.Some?)
    ensures latest <= clock ==> row.Some? || !Recalled(p, h, clock)
  {
    hide Delay, Streak;
    DelayGrows(p, 0, Streak(p, h));
  }

  /** Until somebody touches the history, what an admission answered stays true: a
      caller told to wait is admitted from then on and not before. */
  lemma {:induction false} OutcomeLasts(p: AttemptPolicy, key: Key, h: History, tokens: seq<nat>, clock: nat,
                                        token: nat, found: bool, r: RowAdmission, after: History, afterTokens: seq<nat>)
    requires Outcomes(p, key, h, tokens, clock, token, found, r, after, afterTokens)
    ensures r.RowAdmitted? ==> forall later: nat | later >= clock :: Live(after, later) <==> later < clock + p.lease
    ensures r.RowDenied? && r.denial.DeniedBusy? ==>
              forall later: nat | later >= clock :: Live(after, later) <==> later < clock + r.denial.retryAfter
    ensures r.RowDenied? && r.denial.DeniedBackoff? ==>
              && after != []
              && forall later: nat | later >= clock ::
                   later >= clock + r.denial.retryAfter <==>
                   Judge(p, after, later) == AttemptLedger.Verdict.Admit
                   && (Last(after).ending == Succeeded ==> Last(after).finish <= later)
  {
    hide Judge, Live, Admitted, Delay, Streak;
    AnswersLast(p, h, clock);
    AnswersLast(p, Kept(p, h, clock), clock);
    BackoffAfterFailure(p, h, clock);
  }

  lemma {:induction false} BackoffAfterFailure(p: AttemptPolicy, h: History, now: nat)
    ensures Judge(p, h, now).Backoff? || Judge(p, h, now).Busy? ==> h != [] && Last(h).ending != Succeeded
    ensures h != [] && Last(h).ending == Succeeded ==>
              forall later: nat :: Judge(p, h, later) == AttemptLedger.Verdict.Admit
  {
    hide Delay, Streak;
  }

  lemma {:induction false} KeptStands(p: AttemptPolicy, h: History, tokens: seq<nat>, latest: nat, clock: nat)
    requires Stands(p, None, h, tokens, latest)
    ensures Stands(p, None, Kept(p, h, clock), KeptTokens(p, h, tokens, clock), latest)
    ensures !Recalled(p, Kept(p, h, clock), clock)
    ensures forall t | t in KeptTokens(p, h, tokens, clock) :: t in tokens
  {
    hide Delay, Streak;
  }

  /** What a cleanup leaves, row by row, given when each is due. */
  lemma {:induction false} GoneByQuiet(rows: map<Key, Row>, locked: set<Key>, clock: nat, gone: set<Key>,
                                       quietAt: map<Key, nat>)
    requires rows.Keys == quietAt.Keys && Earliest(rows, Expired(rows, locked, clock), gone)
    requires forall k | k in rows :: quietAt[k] == ExpiryOf(rows[k])
    ensures |gone| <= 16 && forall k | k in gone :: k in rows && k !in locked && quietAt[k] <= clock
    ensures |gone| < 16 ==> forall k | k in rows.Keys - gone :: k in locked || quietAt[k] > clock
    ensures forall k, left | k in gone && left in rows.Keys - gone && left !in locked :: quietAt[k] <= quietAt[left]
  {
    hide ExpiryOf;
    var due := Expired(rows, locked, clock);
    assert forall k | k in rows :: k in due <==> k !in locked && quietAt[k] <= clock;
    if |gone| < 16 { SoonestTakesAll(ExpiriesOf(rows, due), CLEANUP_LIMIT, gone); }
  }

  lemma {:induction false} ExpiryByHistory(p: AttemptPolicy, r: Row, h: History, tokens: seq<nat>, now: nat)
    requires Stands(p, Some(r), h, tokens, now)
    ensures h != [] && ExpiryOf(r) == Last(h).finish + p.quiet
  {
    hide Streak, Delay;
  }

  lemma {:induction false} DeletedStands(p: AttemptPolicy, r: Row, h: History, tokens: seq<nat>, now: nat)
    requires Stands(p, Some(r), h, tokens, now) && ExpiryOf(r) <= now
    ensures Stands(p, None, h, tokens, now)
  {
  }

  lemma {:induction false} ReservedStands(p: AttemptPolicy, before: Option<Row>, r: Row, h: History, tokens: seq<nat>,
                                          clock: nat, latest: nat, token: nat)
    requires Stands(p, before, h, tokens, latest) && token !in tokens
    requires r.lease == Some(RowLease(token, clock + p.lease)) && r.quiet == p.quiet
    requires match before
             case Some(b) =>
               h != []
               && r.failures == if clock < Last(h).finish + p.quiet then Min(Streak(p, h), U32_MAX) else 0
             case None => r.failures == 0 && !Recalled(p, h, clock)
    ensures Stands(p, Some(r), Admitted(p, h, clock), tokens + [token], latest)
  {
    hide Delay;
    AdmittedStreak(p, h, clock);
  }

  lemma {:induction false} OnlyLastRowIsLive(p: AttemptPolicy, row: Option<Row>, h: History, tokens: seq<nat>,
                                             latest: nat, clock: nat)
    requires Stands(p, row, h, tokens, latest)
    ensures row.Some? && row.value.lease.Some? ==> row.value.lease.value.token in tokens
    ensures row.Some? ==> (Live(h, clock) <==> row.value.lease.Some? && clock < row.value.lease.value.until)
    ensures row.None? && latest <= clock + p.quiet ==> !Live(h, clock)
    ensures row.Some? && row.value.lease.Some? ==>
              forall index: nat | index < |tokens| :: tokens[index] == row.value.lease.value.token <==> index == |h| - 1
    ensures |tokens| == |h|
  {
    hide Streak, Delay;
  }

  /** The row whose live lease a token opened. */
  predicate Opened(row: Option<Row>, token: nat, clock: nat) {
    row.Some? && row.value.lease.Some? && row.value.lease.value.token == token && clock < row.value.lease.value.until
  }

  /** Presenting a token against a row, in the terms of the history. */
  lemma {:induction false} RowAnswers(p: AttemptPolicy, row: Option<Row>, h: History, tokens: seq<nat>, latest: nat,
                                      clock: nat, token: nat, outcome: Outcome)
    requires Stands(p, row, h, tokens, latest)
    ensures Opened(row, token, clock) ==> token in tokens && h != [] && Live(h, clock)
    ensures row.None? && latest <= clock + p.quiet ==> !Live(h, clock)
    ensures forall index: nat | index < |tokens| && tokens[index] == token ::
              AttemptLedger.Complete(p, h, index, outcome, clock) ==
              if (if row.None? then index == |h| - 1 && Live(h, clock) else Opened(row, token, clock)) then
                var after := Closed(h, clock, outcome);
                (after, Applied(outcome, Min(Streak(p, after), U32_MAX), Delay(p, Streak(p, after))))
              else (h, Stale)
  {
    hide Streak, Delay, Stands, Closed;
    OnlyLastRowIsLive(p, row, h, tokens, latest, clock);
  }

  lemma {:induction false} CompletedStands(p: AttemptPolicy, before: Row, after: Row, h: History, tokens: seq<nat>,
                                           latest: nat, clock: nat, outcome: Outcome)
    requires ValidAttemptPolicy(p) && Stands(p, Some(before), h, tokens, latest) && Live(h, clock) && before.lease.Some?
             && clock <= latest
    requires after == before.(failures := if outcome == Success then 0 else Min(before.failures + 1, U32_MAX),
                              lastFailure := clock,
                              retryAt := clock + if outcome == Success then 0 else StatementDelay(p, before.failures),
                              lease := None)
    ensures Stands(p, Some(after), Closed(h, clock, outcome), tokens, latest)
    ensures var streak := Streak(p, Closed(h, clock, outcome));
            && after.failures == Min(streak, U32_MAX) && after.retryAt == clock + Delay(p, streak)
            && (streak == 0 <==> outcome == Success) && (Delay(p, streak) == 0 <==> outcome == Success)
  {
    hide Delay, StatementDelay;
    ClosedStreak(p, h, clock, outcome);
    NoFailuresNoDelay(p);
    SuccessHasNoStreak(p, h);
    if outcome != Success {
      var streak := Streak(p, h);
      SaturatedCountKeepsDelay(p, streak);
      StatementDelayIsPolicyDelay(p, before.failures);
      SaturatedCountKeepsDelay(p, before.failures + 1);
      assert Min(before.failures + 1, U32_MAX) == Min(streak, U32_MAX);
      DelayGrows(p, 0, streak);
    }
  }
}

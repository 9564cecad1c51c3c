/** Cleanup statements of the PostgreSQL stores: the rows that expired first, up to
    a limit. */
module ExpiryOrder {
  import opened Basics

  /** When each row that may go expired. */
  type Expiries = map<nat, nat>

  /** As many rows as the limit and the expired ones allow, none of which expired
      later than one left behind. */
  ghost predicate Soonest(due: Expiries, limit: nat, chosen: set<nat>) {
    && chosen <= due.Keys && |chosen| == Min(limit, |due.Keys|)
    && forall gone, left | gone in chosen && left in due.Keys - chosen :: due[gone] <= due[left]
  }

  lemma {:induction false} SoonestExists(due: Expiries, keys: set<nat>)
    requires keys != {} && keys <= due.Keys
    ensures exists k :: k in keys && forall j | j in keys :: due[k] <= due[j]
  {
    var k :| k in keys;
    var rest := keys - {k};
    if rest == {} {
      assert keys == {k};
    } else {
      SoonestExists(due, rest);
      var least :| least in rest && forall j | j in rest :: due[least] <= due[j];
      var m := if due[k] <= due[least] then k else least;
      forall j | j in keys ensures due[m] <= due[j] { if j != k { assert j in rest; } }
      assert m in keys;
    }
  }

  /** `ORDER BY` expiry `LIMIT`. */
  method TakeSoonest(due: Expiries, limit: nat) returns (chosen: set<nat>)
    ensures Soonest(due, limit, chosen)
  {
    chosen := {};
    var rest := due.Keys;
    for i := 0 to limit
      invariant |chosen| == i && chosen <= due.Keys && rest == due.Keys - chosen
      invariant forall gone, left | gone in chosen && left in rest :: due[gone] <= due[left]
    {
      if rest == {} {
        assert chosen == due.Keys;
        return;
      }
      SoonestExists(due, rest);
      var next :| next in rest && forall j | j in rest :: due[next] <= due[j];
      chosen, rest := chosen + {next}, rest - {next};
    }
    SubsetSize(chosen, due.Keys);
  }

  /** A limit that all the expired rows fit into leaves none of them. */
  lemma {:induction false} SoonestTakesAll(due: Expiries, limit: nat, chosen: set<nat>)
    requires Soonest(due, limit, chosen) && |due.Keys| <= limit
    ensures chosen == due.Keys
  {
    assert due.Keys == chosen + (due.Keys - chosen);
  }
}

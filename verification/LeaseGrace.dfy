/** What the grace period does to the number of sessions of an account. */
module LeaseGrace {
  import opened Bytes
  import opened IpPool
  import opened Ownership
  import opened Lease
  import opened LeaseLimits
  import opened LeaseSafety
  import opened LeaseRuns
  import opened LeaseRequests

  // ---------------------------------------------------------------- sessions pile up

  /** k sessions of account 0 and no others, all with a full lease. */
  predicate Pile(c: Config, s: State, k: nat) {
    PartlyRenewed(c, s, k, k)
  }

  /** k sessions of account 0 and no others; those from j on have just expired, but for the
      last. Keys and tokens are the ids. */
  predicate PartlyRenewed(c: Config, s: State, j: nat, k: nat) {
    && s.hand.Idle? && |s.rows| == k
    && forall i | 0 <= i < k :: RowIs(s.rows[i], i, if j <= i < k - 1 then s.now - 1 else s.now + c.ttl)
  }

  predicate RowIs(r: Session, i: nat, expiresAt: int) {
    r.account == 0 && r.key == i && r.token == i && !r.revoked && r.expiresAt == expiresAt
  }

  /** A full lease later the sessions have expired, and none counts as active. */
  lemma ThenLogin(c: Config, s: State, k: nat) returns (events: seq<Event>, s': State)
    requires c.Valid() && Pile(c, s, k) && Hosts(c.pool) - s.used != {}
    ensures AllUnconditional(events) && s' == Run(c, s, events) && PartlyRenewed(c, s', 0, k + 1)
    ensures |Hosts(c.pool) - s'.used| + 1 == |Hosts(c.pool) - s.used|
  {
    var s1 := Next(c, s, Tick(c.ttl + 1));
    s' := LoginWhenExpired(c, s1, k);
    events := [Tick(c.ttl + 1)] + LoginEvents(0, k, true, true, k);
    RunFirst(c, s, Tick(c.ttl + 1), LoginEvents(0, k, true, true, k));
  }

  lemma LoginWhenExpired(c: Config, s: State, k: nat) returns (s': State)
    requires c.Valid() && Pile(c, s.(now := s.now - c.ttl - 1), k) && Hosts(c.pool) - s.used != {}
    ensures s' == Run(c, s, LoginEvents(0, k, true, true, k)) && PartlyRenewed(c, s', 0, k + 1)
    ensures |Hosts(c.pool) - s'.used| + 1 == |Hosts(c.pool) - s.used|
  {
    CountNone(s.rows, ActiveFor(0, s.now));
    AllocateTakesHost(c.pool, s.used);
    LoginSuccess(c, s, 0, k, k);
    s' := LoggedIn(c, s, 0, k, k);
  }

  /** Within the grace period the expired ones are renewed, one after the other. */
  lemma {:induction false} RenewRest(c: Config, s: State, j: nat, k: nat) returns (events: seq<Event>, s': State)
    requires c.Valid() && c.grace > 0 && j < k && PartlyRenewed(c, s, j, k)
    ensures AllUnconditional(events) && s' == Run(c, s, events) && Pile(c, s', k) && s'.used == s.used
    decreases k - j
  {
    if j == k - 1 {
      events, s' := [], s;
    } else {
      var s1 := RenewOne(c, s, j, k);
      var rest;
      rest, s' := RenewRest(c, s1, j + 1, k);
      RunConcat(c, s, RenewEvents(j), rest);
      events := RenewEvents(j) + rest;
    }
  }

  lemma RenewOne(c: Config, s: State, j: nat, k: nat) returns (s': State)
    requires c.Valid() && c.grace > 0 && j < k - 1 && PartlyRenewed(c, s, j, k)
    ensures s' == Run(c, s, RenewEvents(j)) && PartlyRenewed(c, s', j + 1, k) && s'.used == s.used
  {
    Run2(c, s, RenewBegin(j), RenewEnd);
    s' := Run(c, s, RenewEvents(j));
    assert RowIs(s.rows[j], j, s.now - 1);
    LookupFinds(s.rows, j, j);
  }

  /** With a grace period, an account gathers as many active sessions as the pool has hosts. */
  lemma {:induction false} GracePiles(c: Config, n: nat) returns (events: seq<Event>, s: State)
    requires c.Valid() && c.grace > 0 && n <= |Hosts(c.pool)|
    ensures AllUnconditional(events) && s == Run(c, Started(c, [], 0), events) && Pile(c, s, n)
    ensures |Hosts(c.pool) - s.used| + n == |Hosts(c.pool)|
    decreases n
  {
    if n == 0 {
      events, s := [], Started(c, [], 0);
      assert Hosts(c.pool) - s.used == Hosts(c.pool);
    } else {
      var before, s1 := GracePiles(c, n - 1);
      var login, s2 := ThenLogin(c, s1, n - 1);
      var renewals;
      renewals, s := RenewRest(c, s2, 0, n);
      RunConcat(c, Started(c, [], 0), before, login);
      RunConcat(c, Started(c, [], 0), before + login, renewals);
      events := before + login + renewals;
    }
  }

  lemma {:induction false} CountAll(rows: Table, sel: Session -> bool)
    requires forall k :: 0 <= k < |rows| ==> sel(rows[k])
    ensures Count(rows, sel) == |rows|
    decreases |rows|
  {
    if rows != [] {
      CountAll(rows[..|rows| - 1], sel);
    }
  }

  /** All sessions of the pile are active at once. */
  lemma PileIsActive(c: Config, s: State, n: nat)
    requires Pile(c, s, n)
    ensures Count(s.rows, ActiveFor(0, s.now)) == n
  {
    forall k | 0 <= k < |s.rows|
      ensures ActiveFor(0, s.now)(s.rows[k])
    {
      assert RowIs(s.rows[k], k, s.now + c.ttl);
    }
    CountAll(s.rows, ActiveFor(0, s.now));
  }

  // ---------------------------------------------------------------- what the pool allows

  lemma {:induction false} DistinctIpsAreFew(rows: Table, hosts: set<nat>)
    requires forall id | 0 <= id < |rows| && !rows[id].revoked :: rows[id].ip in hosts
    requires forall a, b | 0 <= a < b < |rows| && !rows[a].revoked && !rows[b].revoked :: rows[a].ip != rows[b].ip
    ensures Count(rows, Unrevoked()) <= |hosts|
    decreases |rows|
  {
    if rows != [] {
      var n := |rows| - 1;
      var front := rows[..n];
      assert forall k :: 0 <= k < n ==> front[k] == rows[k];
      if rows[n].revoked {
        DistinctIpsAreFew(front, hosts);
      } else {
        DistinctIpsAreFew(front, hosts - {rows[n].ip});
      }
    }
  }

  lemma ExactIsFew(p: Pool, used: set<nat>, rows: Table)
    requires AddressesExact(p, used, rows)
    ensures Count(rows, Unrevoked()) <= |Hosts(p)|
  {
    var owned := set id | 0 <= id < |rows| && !rows[id].revoked :: rows[id].ip;
    forall id | 0 <= id < |rows| && !rows[id].revoked
      ensures rows[id].ip in Hosts(p)
    {
      assert rows[id].ip in owned;
    }
    DistinctIpsAreFew(rows, Hosts(p));
  }

  /** And never more, in any state with nothing half done. */
  lemma PoolBoundsSessions(c: Config, s: State, account: int)
    requires Exact(c, s) && Quiet(s)
    ensures Count(s.rows, ActiveFor(account, s.now)) <= |Hosts(c.pool)|
  {
    OwnershipIsExact(c, s);
    ExactIsFew(c.pool, s.used, s.rows);
    CountLess(s.rows, Unrevoked(), s.rows, ActiveFor(account, s.now));
  }

  // ---------------------------------------------------------------- the cap

  /** No account passes the cap in any run from a start on any table. */
  ghost predicate CapInEveryRun(c: Config)
    requires c.Valid()
  {
    forall rows: Table, now: int, events: seq<Event>, account: int ::
      var s := Run(c, Started(c, rows, now), events);
      Count(s.rows, ActiveFor(account, s.now)) <= MAX_SESSIONS
  }

  /** The cap of five sessions holds in every run if and only if there is no grace period,
      for every pool that has more hosts than the cap allows sessions. */
  lemma CapHoldsExactlyWithoutGrace(c: Config)
    requires c.Valid() && |Hosts(c.pool)| > MAX_SESSIONS
    ensures CapInEveryRun(c) <==> c.grace == 0
  {
    if c.grace == 0 {
      forall rows: Table, now: int, events: seq<Event>, account: int
        ensures var s := Run(c, Started(c, rows, now), events);
                Count(s.rows, ActiveFor(account, s.now)) <= MAX_SESSIONS
      {
        EveryRunIsLimited(c, rows, now, events);
      }
    } else {
      var events, s := GracePiles(c, MAX_SESSIONS + 1);
      PileIsActive(c, s, MAX_SESSIONS + 1);
      assert Count(s.rows, ActiveFor(0, s.now)) > MAX_SESSIONS;
    }
  }
}

/** The limits on sessions, how many are active and for how long, hold in every run of the
    lease machine, however the two threads meet. */
module LeaseLimits {
  import opened Bytes
  import opened IpPool
  import opened Ownership
  import opened Lease

  // ---------------------------------------------------------------- one event

  /** Where no account gains, the cap is kept. */
  lemma CapStays(c: Config, s: State, s': State)
    requires Capped(c, s) && forall account :: Load(s', account) <= Load(s, account)
    ensures Capped(c, s')
  {}

  /** Nobody gains when rows only expire or are revoked, and nothing more is in flight. */
  lemma NobodyGains(s: State, s': State)
    requires |CapRows(s')| == |CapRows(s)| && s'.now >= s.now
    requires forall k | 0 <= k < |CapRows(s)| ::
               CapRows(s')[k] == CapRows(s)[k] || CapRows(s')[k] == CapRows(s)[k].(revoked := true)
               || (CapRows(s')[k] == CapRows(s)[k].(expiresAt := s'.now) && CapRows(s)[k].expiresAt >= s.now)
    requires s'.now == s.now || s'.hand == s.hand
    requires forall account :: InFlight(s'.hand, account) <= InFlight(s.hand, account)
    ensures forall account :: Load(s', account) <= Load(s, account)
  {
    forall account
      ensures Load(s', account) <= Load(s, account)
    {
      CountLess(CapRows(s), ActiveFor(account, s.now), CapRows(s'), ActiveFor(account, s'.now));
    }
  }

  /** A login starts only below the cap, and takes one place. */
  lemma LoginBeginCapped(c: Config, s: State, account: int, key: int)
    requires Capped(c, s)
    ensures Capped(c, DoLoginBegin(c, s, account, key))
  {
    var s' := DoLoginBegin(c, s, account, key);
    forall a | c.grace == 0
      ensures Load(s', a) <= MAX_SESSIONS
    {
      assert Load(s, a) <= MAX_SESSIONS;
    }
  }

  /** The place becomes a row. */
  lemma LoginInsertCapped(c: Config, s: State, ok: bool, token: int)
    requires Capped(c, s)
    ensures Capped(c, DoLoginInsert(c, s, ok, token))
  {
    var s' := DoLoginInsert(c, s, ok, token);
    if s.hand.Peered? && ok && Lookup(s.rows, token).None? {
      forall account
        ensures Load(s', account) <= Load(s, account)
      {
        CountAppend(s.rows, s'.rows[|s.rows|], ActiveFor(account, s.now));
      }
    }
    forall account
      ensures Load(s', account) <= Load(s, account)
    {}
  }

  /** Without a grace period a renewal takes in hand only what is active already. */
  lemma RenewBeginCapped(c: Config, s: State, token: int)
    requires Capped(c, s)
    ensures Capped(c, DoRenewBegin(c, s, token))
  {
    if c.grace == 0 {
      NobodyGains(s, DoRenewBegin(c, s, token));
    }
  }

  lemma RenewEndCapped(c: Config, s: State)
    requires Capped(c, s)
    ensures Capped(c, DoRenewEnd(c, s))
  {
    var s' := DoRenewEnd(c, s);
    forall account
      ensures Load(s', account) <= Load(s, account)
    {
      CountLess(CapRows(s), ActiveFor(account, s.now), CapRows(s'), ActiveFor(account, s'.now));
    }
  }

  lemma RestartCapped(c: Config, s: State)
    requires c.Valid()
    ensures Capped(c, DoRestart(c, s))
  {
    var s' := DoRestart(c, s);
    forall account
      ensures Load(s', account) == 0
    {
      CountNone(s'.rows, ActiveFor(account, s'.now));
    }
  }

  lemma NextKeepsCap(c: Config, s: State, e: Event)
    requires c.Valid() && Capped(c, s)
    ensures Capped(c, Next(c, s, e))
  {
    match e
    case LoginBegin(account, key) => LoginBeginCapped(c, s, account, key);
    case LoginInsert(ok, token) => LoginInsertCapped(c, s, ok, token);
    case RenewBegin(token) => RenewBeginCapped(c, s, token);
    case RenewEnd => RenewEndCapped(c, s);
    case Restart => RestartCapped(c, s);
    case _ => NobodyGains(s, Next(c, s, e));
  }

  lemma NextKeepsLifetimes(c: Config, s: State, e: Event)
    requires c.Valid() && LifetimesOk(c, s) && RenewOk(c, s)
    ensures LifetimesOk(c, Next(c, s, e)) && RenewOk(c, Next(c, s, e))
  {}

  /** Every event keeps the limits, in every state. */
  lemma NextKeepsLimits(c: Config, s: State, e: Event)
    requires c.Valid() && Limits(c, s)
    ensures Limits(c, Next(c, s, e))
  {
    NextKeepsCap(c, s, e);
    NextKeepsLifetimes(c, s, e);
  }

  // ---------------------------------------------------------------- whole runs

  lemma {:induction false} RunKeepsLimits(c: Config, s: State, events: seq<Event>)
    requires c.Valid() && Limits(c, s)
    ensures Limits(c, Run(c, s, events))
    decreases |events|
  {
    if events != [] {
      NextKeepsLimits(c, s, events[0]);
      RunKeepsLimits(c, Next(c, s, events[0]), events[1..]);
    }
  }

  lemma StartIsLimited(c: Config, rows: Table, now: int)
    requires c.Valid()
    ensures Limits(c, Started(c, rows, now))
  {
    RestartCapped(c, Fresh(rows, now));
  }

  /** Without a grace period no account has more than five active sessions. */
  lemma CapHolds(c: Config, s: State, account: int)
    requires Limits(c, s) && c.grace == 0
    ensures Count(s.rows, ActiveFor(account, s.now)) <= MAX_SESSIONS
  {
    assert Load(s, account) <= MAX_SESSIONS;
    CountLess(CapRows(s), ActiveFor(account, s.now), s.rows, ActiveFor(account, s.now));
  }

  /** In every run of the server, from a start on any table and without any condition on how
      the threads meet: no session outlives a fresh one, and without a grace period no account
      has more than five active sessions. */
  lemma EveryRunIsLimited(c: Config, rows: Table, now: int, events: seq<Event>)
    requires c.Valid()
    ensures var s := Run(c, Started(c, rows, now), events);
            && (forall k | 0 <= k < |s.rows| && !s.rows[k].revoked :: s.rows[k].expiresAt <= s.now + c.ttl)
            && (c.grace == 0 ==> forall account :: Count(s.rows, ActiveFor(account, s.now)) <= MAX_SESSIONS)
  {
    StartIsLimited(c, rows, now);
    RunKeepsLimits(c, Started(c, rows, now), events);
    var s := Run(c, Started(c, rows, now), events);
    forall account | c.grace == 0
      ensures Count(s.rows, ActiveFor(account, s.now)) <= MAX_SESSIONS
    {
      CapHolds(c, s, account);
    }
  }

  // ---------------------------------------------------------------- expiry over a run

  /** No event moves the end of a lease to an earlier time. */
  lemma NextKeepsExpiry(c: Config, s: State, e: Event, id: nat)
    requires c.Valid() && RenewOk(c, s) && id < |s.rows|
    ensures var rows' := Next(c, s, e).rows;
            id < |rows'| && rows'[id].expiresAt >= s.rows[id].expiresAt
  {}

  lemma {:induction false} RunKeepsExpiry(c: Config, s: State, events: seq<Event>, id: nat)
    requires c.Valid() && Limits(c, s) && id < |s.rows|
    ensures var rows' := Run(c, s, events).rows;
            id < |rows'| && rows'[id].expiresAt >= s.rows[id].expiresAt
    decreases |events|
  {
    if events != [] {
      NextKeepsLimits(c, s, events[0]);
      NextKeepsExpiry(c, s, events[0], id);
      RunKeepsExpiry(c, Next(c, s, events[0]), events[1..], id);
    }
  }

  /** In no run, however it goes on, does the expiry of a session ever fall. */
  lemma ExpiryNeverFalls(c: Config, rows: Table, now: int, before: seq<Event>, after: seq<Event>, id: nat)
    requires c.Valid() && id < |Run(c, Started(c, rows, now), before).rows|
    ensures var s := Run(c, Started(c, rows, now), before);
            var rows' := Run(c, Started(c, rows, now), before + after).rows;
            id < |rows'| && rows'[id].expiresAt >= s.rows[id].expiresAt
  {
    StartIsLimited(c, rows, now);
    RunKeepsLimits(c, Started(c, rows, now), before);
    RunKeepsExpiry(c, Run(c, Started(c, rows, now), before), after, id);
    RunConcat(c, Started(c, rows, now), before, after);
  }
}

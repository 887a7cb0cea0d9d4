/** Runs in which requests are served whole, as the one polling thread of the interface serves
    them when the clock does not strike inside a request. */
module LeaseServing {
  import opened Bytes
  import opened IpPool
  import opened Ownership
  import opened Lease
  import opened LeaseLimits
  import opened LeaseSafety
  import opened LeaseRuns
  import opened LeaseProgress
  import opened LeaseRequests

  datatype Task =
    | Login(account: int, key: int, peerOk: bool, insertOk: bool, token: int)
    | Logout(token: int)
    | Renew(token: int)
    | SweepBegin(ids: seq<nat>)
    | SweepStep
    | WholeSweep(ids: seq<nat>)
    | Pause(seconds: nat)
    | Reboot

  function EventsOf(t: Task): seq<Event> {
    match t
    case Login(account, key, peerOk, insertOk, token) => LoginEvents(account, key, peerOk, insertOk, token)
    case Logout(token) => LogoutEvents(token)
    case Renew(token) => RenewEvents(token)
    case SweepBegin(ids) => [Snapshot(ids)]
    case SweepStep => REAP_ONE
    case WholeSweep(ids) => SweepEvents(ids)
    case Pause(seconds) => [Tick(seconds)]
    case Reboot => [Restart]
  }

  function Serve(c: Config, s: State, tasks: seq<Task>): State
    requires c.Valid()
    decreases |tasks|
  {
    if tasks == [] then s else Serve(c, Run(c, s, EventsOf(tasks[0])), tasks[1..])
  }

  /** A logout finds its session unlisted. */
  predicate Unlisted(s: State, t: Task) {
    t.Logout? ==> Separate(s, LogoutBegin(t.token))
  }

  predicate AllUnlisted(c: Config, s: State, tasks: seq<Task>)
    requires c.Valid()
    decreases |tasks|
  {
    tasks == [] || (Unlisted(s, tasks[0]) && AllUnlisted(c, Run(c, s, EventsOf(tasks[0])), tasks[1..]))
  }

  /** Between two tasks. */
  ghost predicate Settled(c: Config, s: State) {
    Inv(c, s) && Quiet(s)
  }

  /** A request leaves the reaper alone and nothing in hand. */
  predicate Returned(s: State, s': State) {
    s'.hand.Idle? && s'.phase == s.phase && s'.work == s.work
  }

  lemma LoginReturns(c: Config, s: State, account: int, key: int, peerOk: bool, insertOk: bool, token: int)
    requires c.Valid() && s.hand.Idle?
    ensures Returned(s, Run(c, s, LoginEvents(account, key, peerOk, insertOk, token)))
  {
    LoginOutcome(c, s, account, key, peerOk, insertOk, token);
    var s1 := DoLoginBegin(c, s, account, key);
    if s1.hand.Allocated? {
      EnrollOutcome(c, s1, peerOk, insertOk, token);
    }
  }

  lemma LogoutReturns(c: Config, s: State, token: int)
    requires c.Valid() && s.hand.Idle?
    ensures Returned(s, Run(c, s, LogoutEvents(token)))
  {
    Run4(c, s, LogoutBegin(token), LogoutPeer, LogoutRelease, LogoutRevoke);
  }

  lemma LoginSettles(c: Config, s: State, t: Task)
    requires c.Valid() && Settled(c, s) && t.Login?
    ensures Settled(c, Run(c, s, EventsOf(t)))
  {
    RequestsKeepInv(c, s, t.account, t.key, t.peerOk, t.insertOk, t.token);
    LoginReturns(c, s, t.account, t.key, t.peerOk, t.insertOk, t.token);
  }

  lemma LogoutSettles(c: Config, s: State, token: int)
    requires c.Valid() && Settled(c, s) && Separate(s, LogoutBegin(token))
    ensures Settled(c, Run(c, s, LogoutEvents(token)))
  {
    RequestsKeepInv(c, s, 0, 0, true, true, token);
    LogoutReturns(c, s, token);
  }

  lemma RenewReturns(c: Config, s: State, token: int)
    requires c.Valid() && s.hand.Idle?
    ensures Returned(s, Run(c, s, RenewEvents(token)))
  {
    Run2(c, s, RenewBegin(token), RenewEnd);
  }

  lemma RenewSettles(c: Config, s: State, token: int)
    requires c.Valid() && Settled(c, s)
    ensures Settled(c, Run(c, s, RenewEvents(token)))
  {
    RequestsKeepInv(c, s, 0, 0, true, true, token);
    RenewReturns(c, s, token);
  }

  lemma SweepStepSettles(c: Config, s: State)
    requires c.Valid() && Settled(c, s)
    ensures Settled(c, Run(c, s, REAP_ONE))
  {
    UnconditionalIsSeparate(c, s, REAP_ONE);
    RunKeeps(c, s, REAP_ONE);
    ReapOneRun(c, s);
  }

  /** n rounds of the reaper shorten the list by n. */
  lemma {:induction false} ReapedSettles(s: State, n: nat)
    requires WorkOk(s) && Quiet(s)
    ensures Quiet(Reaped(s, n)) && |Reaped(s, n).work| == if n < |s.work| then |s.work| - n else 0
    decreases n
  {
    if n > 0 {
      OneReapedSettles(s);
      ReapedSettles(OneReaped(s), n - 1);
    }
  }

  lemma OneReapedSettles(s: State)
    requires WorkOk(s) && Quiet(s)
    ensures var s' := OneReaped(s);
            WorkOk(s') && Quiet(s') && |s'.work| == if s.work == [] then 0 else |s.work| - 1
  {}

  lemma WholeSweepSettles(c: Config, s: State, ids: seq<nat>)
    requires c.Valid() && Settled(c, s)
    ensures Settled(c, Run(c, s, SweepEvents(ids)))
  {
    SweepKeepsInv(c, s, ids);
    SweepIsRun(c, s, ids);
    ReapedSettles(DoSnapshot(s, ids), |ids|);
  }

  lemma TaskSettles(c: Config, s: State, t: Task)
    requires c.Valid() && Settled(c, s) && Unlisted(s, t)
    ensures Settled(c, Run(c, s, EventsOf(t)))
  {
    match t
    case Login(_, _, _, _, _) => LoginSettles(c, s, t);
    case Logout(token) => LogoutSettles(c, s, token);
    case Renew(token) => RenewSettles(c, s, token);
    case SweepBegin(ids) =>
      RunFirst(c, s, Snapshot(ids), []);
      NextKeeps(c, s, Snapshot(ids));
    case SweepStep => SweepStepSettles(c, s);
    case WholeSweep(ids) => WholeSweepSettles(c, s, ids);
    case Pause(seconds) =>
      RunFirst(c, s, Tick(seconds), []);
      NextKeeps(c, s, Tick(seconds));
    case Reboot =>
      RunFirst(c, s, Restart, []);
      NextKeeps(c, s, Restart);
  }

  lemma {:induction false} ServingSettles(c: Config, s: State, tasks: seq<Task>)
    requires c.Valid() && Settled(c, s) && AllUnlisted(c, s, tasks)
    ensures Settled(c, Serve(c, s, tasks))
    decreases |tasks|
  {
    if tasks != [] {
      TaskSettles(c, s, tasks[0]);
      ServingSettles(c, Run(c, s, EventsOf(tasks[0])), tasks[1..]);
    }
  }

  lemma {:induction false} ServingKeepsLimits(c: Config, s: State, tasks: seq<Task>)
    requires c.Valid() && Limits(c, s)
    ensures Limits(c, Serve(c, s, tasks))
    decreases |tasks|
  {
    if tasks != [] {
      RunKeepsLimits(c, s, EventsOf(tasks[0]));
      ServingKeepsLimits(c, Run(c, s, EventsOf(tasks[0])), tasks[1..]);
    }
  }

  // ---------------------------------------------------------------- without a grace period

  /** A logout accepts no expired session. */
  lemma ListedIsUnlisted(s: State, t: Task)
    requires ListedExpired(s)
    ensures Unlisted(s, t)
  {}

  /** Each task keeps the listed sessions expired, where nobody renews an expired session. */
  lemma LoginKeepsListed(c: Config, s: State, t: Task)
    requires c.Valid() && Quiet(s) && ListedExpired(s) && t.Login?
    ensures ListedExpired(Run(c, s, EventsOf(t)))
  {
    LoginOutcome(c, s, t.account, t.key, t.peerOk, t.insertOk, t.token);
    LoginReturns(c, s, t.account, t.key, t.peerOk, t.insertOk, t.token);
    var s1 := DoLoginBegin(c, s, t.account, t.key);
    if s1.hand.Allocated? {
      EnrollOutcome(c, s1, t.peerOk, t.insertOk, t.token);
    }
  }

  lemma LogoutKeepsListed(c: Config, s: State, token: int)
    requires c.Valid() && Quiet(s) && ListedExpired(s)
    ensures ListedExpired(Run(c, s, LogoutEvents(token)))
  {
    Run4(c, s, LogoutBegin(token), LogoutPeer, LogoutRelease, LogoutRevoke);
  }

  lemma RenewKeepsListed(c: Config, s: State, token: int)
    requires c.Valid() && c.grace == 0 && Quiet(s) && ListedExpired(s)
    ensures ListedExpired(Run(c, s, RenewEvents(token)))
  {
    Run2(c, s, RenewBegin(token), RenewEnd);
  }

  lemma OneReapedKeepsListed(s: State)
    requires WorkOk(s) && Quiet(s) && ListedExpired(s)
    ensures ListedExpired(OneReaped(s))
  {}

  lemma {:induction false} ReapedKeepsListed(s: State, n: nat)
    requires WorkOk(s) && Quiet(s) && ListedExpired(s)
    ensures ListedExpired(Reaped(s, n))
    decreases n
  {
    if n > 0 {
      OneReapedSettles(s);
      OneReapedKeepsListed(s);
      ReapedKeepsListed(OneReaped(s), n - 1);
    }
  }

  lemma TaskKeepsListed(c: Config, s: State, t: Task)
    requires c.Valid() && c.grace == 0 && Settled(c, s) && ListedExpired(s)
    ensures ListedExpired(Run(c, s, EventsOf(t)))
  {
    match t
    case Login(_, _, _, _, _) => LoginKeepsListed(c, s, t);
    case Logout(token) => LogoutKeepsListed(c, s, token);
    case Renew(token) => RenewKeepsListed(c, s, token);
    case SweepBegin(ids) => EventKeepsListed(c, s, Snapshot(ids));
    case SweepStep =>
      ReapOneRun(c, s);
      OneReapedKeepsListed(s);
    case WholeSweep(ids) =>
      SweepIsRun(c, s, ids);
      ReapedKeepsListed(DoSnapshot(s, ids), |ids|);
    case Pause(seconds) => EventKeepsListed(c, s, Tick(seconds));
    case Reboot => EventKeepsListed(c, s, Restart);
  }

  lemma EventKeepsListed(c: Config, s: State, e: Event)
    requires c.Valid() && ListedExpired(s) && (e.Tick? || e.Snapshot? || e.Restart?)
    ensures ListedExpired(Run(c, s, [e]))
  {
    assert Run(c, s, [e]) == Next(c, s, e);
  }

  /** So without a grace period a logout never meets a listed session. */
  lemma {:induction false} GraceFreeIsUnlisted(c: Config, s: State, tasks: seq<Task>)
    requires c.Valid() && c.grace == 0 && Settled(c, s) && ListedExpired(s)
    ensures AllUnlisted(c, s, tasks)
    decreases |tasks|
  {
    if tasks != [] {
      ListedIsUnlisted(s, tasks[0]);
      TaskSettles(c, s, tasks[0]);
      TaskKeepsListed(c, s, tasks[0]);
      GraceFreeIsUnlisted(c, Run(c, s, EventsOf(tasks[0])), tasks[1..]);
    }
  }

  /** Requests served whole, between any two sessions of a sweep, in any order and number and
      with any failures: ownership is exact, sessions are conserved, and without a grace period
      the cap holds. Nothing more is asked without a grace period; with one, that no logout
      takes a session that the sweep under way has listed. */
  lemma ServedRunsAreSafe(c: Config, rows: Table, now: int, tasks: seq<Task>)
    requires c.Valid() && KeysDiffer(rows) && TokensDiffer(rows)
    requires c.grace > 0 ==> AllUnlisted(c, Started(c, rows, now), tasks)
    ensures var s := Serve(c, Started(c, rows, now), tasks);
            && AddressesExact(c.pool, s.used, s.rows) && PeersExact(s.peers, s.rows)
            && Count(s.rows, Unrevoked()) == s.logins - s.logouts - s.expirations
            && (c.grace == 0 ==> forall account :: Count(s.rows, ActiveFor(account, s.now)) <= MAX_SESSIONS)
  {
    var s0 := Started(c, rows, now);
    RestartEstablishes(c, Fresh(rows, now));
    if c.grace == 0 {
      GraceFreeIsUnlisted(c, s0, tasks);
    }
    ServingSettles(c, s0, tasks);
    StartIsLimited(c, rows, now);
    ServingKeepsLimits(c, s0, tasks);
    var s := Serve(c, s0, tasks);
    OwnershipIsExact(c, s);
    forall account | c.grace == 0
      ensures Count(s.rows, ActiveFor(account, s.now)) <= MAX_SESSIONS
    {
      CapHolds(c, s, account);
    }
  }
}

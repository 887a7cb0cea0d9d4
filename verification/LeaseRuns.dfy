/** What holds in every run of the server. */
module LeaseRuns {
  import opened Bytes
  import opened IpPool
  import opened Ownership
  import opened Lease
  import opened LeaseSafety

  lemma NextKeepsExact(c: Config, s: State, e: Event)
    requires c.Valid() && Exact(c, s) && Separate(s, e)
    ensures Exact(c, Next(c, s, e))
  {
    match e
    case Tick(_) =>
    case LoginBegin(account, key) => LoginBeginKeeps(c, s, account, key);
    case LoginPeer(ok) => LoginPeerKeeps(c, s, ok);
    case LoginInsert(ok, token) => LoginInsertKeeps(c, s, ok, token);
    case LoginUndo => LoginUndoKeeps(c, s);
    case LogoutBegin(token) => LogoutBeginKeeps(c, s, token);
    case LogoutPeer => LogoutPeerKeeps(c, s);
    case LogoutRelease => LogoutReleaseKeeps(c, s);
    case LogoutRevoke => LogoutRevokeKeeps(c, s);
    case RenewBegin(_) =>
    case RenewEnd => RenewEndKeeps(c, s);
    case Snapshot(ids) => SnapshotKeeps(c, s, ids);
    case ReapPeer => ReapPeerKeeps(c, s);
    case ReapRelease => ReapReleaseKeeps(c, s);
    case ReapRevoke => ReapRevokeKeeps(c, s);
    case Restart => RestartIsExact(c, s);
  }

  lemma NextKeeps(c: Config, s: State, e: Event)
    requires c.Valid() && Inv(c, s) && Separate(s, e)
    ensures Inv(c, Next(c, s, e))
  {
    NextKeepsExact(c, s, e);
    NextKeepsCount(c, s, e);
  }

  lemma {:induction false} RunKeeps(c: Config, s: State, events: seq<Event>)
    requires c.Valid() && Inv(c, s) && SeparateRun(c, s, events)
    ensures Inv(c, Run(c, s, events))
    decreases |events|
  {
    if events != [] {
      NextKeeps(c, s, events[0]);
      RunKeeps(c, Next(c, s, events[0]), events[1..]);
    }
  }

  /** Events that never bring one session into the hands of both threads. */
  predicate Unconditional(e: Event) {
    !e.Snapshot? && !e.LogoutBegin?
  }

  predicate AllUnconditional(events: seq<Event>) {
    forall e :: e in events ==> Unconditional(e)
  }

  lemma {:induction false} UnconditionalIsSeparate(c: Config, s: State, events: seq<Event>)
    requires c.Valid() && AllUnconditional(events)
    ensures SeparateRun(c, s, events)
    decreases |events|
  {
    if events != [] {
      assert Unconditional(events[0]);
      UnconditionalIsSeparate(c, Next(c, s, events[0]), events[1..]);
    }
  }

  lemma {:induction false} SeparateConcat(c: Config, s: State, before: seq<Event>, after: seq<Event>)
    requires c.Valid() && SeparateRun(c, s, before) && SeparateRun(c, Run(c, s, before), after)
    ensures SeparateRun(c, s, before + after)
    decreases |before|
  {
    if before == [] {
      assert before + after == after;
    } else {
      assert (before + after)[1..] == before[1..] + after;
      SeparateConcat(c, Next(c, s, before[0]), before[1..], after);
    }
  }

  // ---------------------------------------------------------------- ownership

  /** No handler and no reaping is half done. */
  predicate Quiet(s: State) {
    s.hand.Idle? && s.phase == Start
  }

  /** Whenever nothing is half done, in the middle of a sweep too: no two sessions share an
      address, no marked host lacks a session, and the peers are those of the sessions. */
  lemma OwnershipIsExact(c: Config, s: State)
    requires Exact(c, s) && Quiet(s)
    ensures AddressesExact(c.pool, s.used, s.rows) && PeersExact(s.peers, s.rows)
  {
    AddressesWhenQuiet(c.pool, s.used, s.rows);
    PeersWhenQuiet(s.peers, s.rows);
  }

  /** Even half way through a sweep and a request, nobody who still has a peer in the
      interface shares an address with anybody else who has one. */
  lemma PeersNeverClash(c: Config, s: State, a: int, b: int)
    requires Exact(c, s) && a in s.peers && b in s.peers && a != b
    ensures s.peers[a] != s.peers[b]
  {
    assert HasHolder(s.rows, Gone(s), PendingPeer(s.hand), a);
    assert HasHolder(s.rows, Gone(s), PendingPeer(s.hand), b);
    assert Freed(s) <= Gone(s);
    assert forall id :: Holds(s.rows, Gone(s), id) ==> Holds(s.rows, Freed(s), id);
  }

  // ---------------------------------------------------------------- from the start

  /** Every run in which no session comes into the hands of both threads, from a start of the
      server on whatever table an earlier process left, with any grace period. */
  lemma EveryRunIsSafe(c: Config, rows: Table, now: int, events: seq<Event>)
    requires c.Valid() && KeysDiffer(rows) && TokensDiffer(rows)
    requires SeparateRun(c, Started(c, rows, now), events)
    ensures var s := Run(c, Started(c, rows, now), events);
            && Inv(c, s)
            && (Quiet(s) ==> AddressesExact(c.pool, s.used, s.rows) && PeersExact(s.peers, s.rows))
            && Count(s.rows, Unrevoked()) == s.logins - s.logouts - s.expirations
  {
    RestartEstablishes(c, Fresh(rows, now));
    RunKeeps(c, Started(c, rows, now), events);
    var s := Run(c, Started(c, rows, now), events);
    if Quiet(s) {
      OwnershipIsExact(c, s);
    }
  }

  // ---------------------------------------------------------------- revoked sessions

  /** What no event changes of a row: its identity, and that it is revoked. */
  predicate RowKept(s: State, s': State, id: nat) {
    && id < |s.rows| && id < |s'.rows|
    && s'.rows[id].token == s.rows[id].token
    && s'.rows[id].key == s.rows[id].key
    && s'.rows[id].ip == s.rows[id].ip
    && s'.rows[id].account == s.rows[id].account
    && (s.rows[id].revoked ==> s'.rows[id].revoked)
  }

  lemma NextKeepsRow(c: Config, s: State, e: Event, id: nat)
    requires c.Valid() && id < |s.rows|
    ensures RowKept(s, Next(c, s, e), id)
  {}

  lemma NextKeepsTokens(c: Config, s: State, e: Event)
    requires c.Valid() && TokensDiffer(s.rows)
    ensures TokensDiffer(Next(c, s, e).rows)
  {
    forall id | 0 <= id < |s.rows|
      ensures RowKept(s, Next(c, s, e), id)
    {
      NextKeepsRow(c, s, e, id);
    }
  }

  lemma {:induction false} RunKeepsRow(c: Config, s: State, events: seq<Event>, id: nat)
    requires c.Valid() && TokensDiffer(s.rows) && id < |s.rows|
    ensures RowKept(s, Run(c, s, events), id) && TokensDiffer(Run(c, s, events).rows)
    decreases |events|
  {
    if events != [] {
      NextKeepsRow(c, s, events[0], id);
      NextKeepsTokens(c, s, events[0]);
      RunKeepsRow(c, Next(c, s, events[0]), events[1..], id);
    }
  }

  /** Once revoked, by logout, reaping or restart, a session is dead: in every later state of
      every run, however the threads meet, its token is refused by logout, renew and status. */
  lemma RevokedStaysDead(c: Config, s: State, events: seq<Event>, id: nat)
    requires c.Valid() && TokensDiffer(s.rows) && id < |s.rows| && s.rows[id].revoked
    ensures var s' := Run(c, s, events);
            var token := s.rows[id].token;
            !LogoutAccepts(s', token) && !RenewAccepts(c, s', token) && !StatusAccepts(s', token)
  {
    RunKeepsRow(c, s, events, id);
    LookupFinds(Run(c, s, events).rows, s.rows[id].token, id);
  }

  // ---------------------------------------------------------------- failed logins

  /** Two states that differ in nothing a client could notice: only marks of addresses that
      are never handed out. */
  predicate SameButMarks(c: Config, s: State, s': State) {
    && s' == s.(used := s'.used)
    && (forall i | 0 < i < c.pool.size :: c.pool.Host(i) ==> (i in s'.used <==> i in s.used))
    && s.used <= s'.used
  }

  lemma Run2(c: Config, s: State, e: Event, f: Event)
    requires c.Valid()
    ensures Run(c, s, [e, f]) == Next(c, Next(c, s, e), f)
  {
    assert [e, f][1..] == [f] && [f][1..] == [];
    assert Run(c, Next(c, s, e), [f]) == Next(c, Next(c, s, e), f);
  }

  lemma Run4(c: Config, s: State, e: Event, f: Event, g: Event, h: Event)
    requires c.Valid()
    ensures Run(c, s, [e, f, g, h]) == Next(c, Next(c, Next(c, Next(c, s, e), f), g), h)
  {
    assert [e, f, g, h][1..] == [f, g, h] && [f, g, h][1..] == [g, h];
    Run2(c, Next(c, Next(c, s, e), f), g, h);
  }

  /** What a login attempts, with the two effects that may fail. */
  function LoginEvents(account: int, key: int, peerOk: bool, insertOk: bool, token: int): seq<Event> {
    [LoginBegin(account, key), LoginPeer(peerOk), LoginInsert(insertOk, token), LoginUndo]
  }

  lemma LoginOutcome(c: Config, s: State, account: int, key: int, peerOk: bool, insertOk: bool, token: int)
    requires c.Valid()
    ensures Run(c, s, LoginEvents(account, key, peerOk, insertOk, token)) ==
            DoLoginUndo(DoLoginInsert(c, DoLoginPeer(DoLoginBegin(c, s, account, key), peerOk), insertOk, token))
  {
    Run4(c, s, LoginBegin(account, key), LoginPeer(peerOk), LoginInsert(insertOk, token), LoginUndo);
  }

  /** A login succeeds when the account is below the cap, an address is free, the token is
      new, and neither effect fails. */
  predicate LoginSucceeds(c: Config, s: State, account: int, peerOk: bool, insertOk: bool, token: int) {
    && Count(s.rows, ActiveFor(account, s.now)) < MAX_SESSIONS
    && Allocate(c.pool, s.used).Some?
    && peerOk && insertOk && Lookup(s.rows, token).None?
  }

  /** Giving the address back leaves nothing but marks of excluded addresses. */
  lemma MarksOnly(c: Config, s: State)
    requires c.Valid()
    ensures var used' := AfterAllocate(c.pool, s.used);
            var r := Allocate(c.pool, s.used);
            SameButMarks(c, s, s.(used := if r.Some? then used' - {r.value} else used'))
  {
    AllocateIsLowest(c.pool, s.used);
  }

  /** The state after a login that succeeds. */
  function LoggedIn(c: Config, s: State, account: int, key: int, token: int): State
    requires Allocate(c.pool, s.used).Some?
  {
    var ip := Allocate(c.pool, s.used).value;
    s.(used := AfterAllocate(c.pool, s.used),
       peers := s.peers[key := ip],
       rows := s.rows + [Session(account, key, ip, token, s.now + c.ttl, false)],
       logins := s.logins + 1)
  }

  lemma LoginSuccess(c: Config, s: State, account: int, key: int, token: int)
    requires c.Valid() && s.hand.Idle? && KeyIsNew(s.rows, key)
    requires LoginSucceeds(c, s, account, true, true, token)
    ensures Run(c, s, LoginEvents(account, key, true, true, token)) == LoggedIn(c, s, account, key, token)
  {
    LoginOutcome(c, s, account, key, true, true, token);
  }

  lemma CountOfOne(rows: Table, sel: Session -> bool)
    requires |rows| <= 1
    ensures Count(rows, sel) == if |rows| == 1 && sel(rows[0]) then 1 else 0
  {
    if |rows| == 1 {
      assert rows[..0] == [];
    }
  }

  /** What becomes of a login that has an address. */
  lemma EnrollOutcome(c: Config, s: State, peerOk: bool, insertOk: bool, token: int)
    requires s.hand.Allocated?
    ensures DoLoginUndo(DoLoginInsert(c, DoLoginPeer(s, peerOk), insertOk, token)) ==
            if peerOk && insertOk && Lookup(s.rows, token).None? then Enrolled(c, s, token)
            else Refused(s, peerOk)
  {}

  function Enrolled(c: Config, s: State, token: int): State
    requires s.hand.Allocated?
  {
    s.(peers := s.peers[s.hand.key := s.hand.ip],
       rows := s.rows + [Session(s.hand.account, s.hand.key, s.hand.ip, token, s.now + c.ttl, false)],
       hand := Idle, logins := s.logins + 1)
  }

  function Refused(s: State, peerAdded: bool): State
    requires s.hand.Allocated?
  {
    s.(peers := if peerAdded then s.peers[s.hand.key := s.hand.ip] - {s.hand.key} else s.peers,
       used := s.used - {s.hand.ip}, hand := Idle)
  }

  /** Login is all or nothing: it adds one session with the lowest free address and its peer,
      or it changes nothing but marks of excluded addresses. */
  lemma LoginIsAllOrNothing(c: Config, s: State, account: int, key: int, peerOk: bool, insertOk: bool, token: int)
    requires c.Valid() && Exact(c, s) && s.hand.Idle? && KeyIsNew(s.rows, key)
    ensures var s' := Run(c, s, LoginEvents(account, key, peerOk, insertOk, token));
            if LoginSucceeds(c, s, account, peerOk, insertOk, token) then s' == LoggedIn(c, s, account, key, token)
            else SameButMarks(c, s, s')
  {
    LoginSteps(c, s, account, key, peerOk, insertOk, token);
    MarksOnly(c, s);
    var r := Allocate(c.pool, s.used);
    if r.Some? {
      NewKeyHasNoPeer(s, key);
      assert s.peers[key := r.value] - {key} == s.peers;
    }
  }

  lemma LoginSteps(c: Config, s: State, account: int, key: int, peerOk: bool, insertOk: bool, token: int)
    requires c.Valid() && s.hand.Idle? && KeyIsNew(s.rows, key)
    ensures Run(c, s, LoginEvents(account, key, peerOk, insertOk, token)) ==
            var r := Allocate(c.pool, s.used);
            if Count(s.rows, ActiveFor(account, s.now)) >= MAX_SESSIONS then s
            else if r.None? then s.(used := AfterAllocate(c.pool, s.used))
            else if peerOk && insertOk && Lookup(s.rows, token).None? then LoggedIn(c, s, account, key, token)
            else s.(peers := if peerOk then s.peers[key := r.value] - {key} else s.peers,
                    used := AfterAllocate(c.pool, s.used) - {r.value})
  {
    LoginOutcome(c, s, account, key, peerOk, insertOk, token);
    var s1 := DoLoginBegin(c, s, account, key);
    if s1.hand.Allocated? {
      EnrollOutcome(c, s1, peerOk, insertOk, token);
    }
  }

  lemma NewKeyHasNoPeer(s: State, key: int)
    requires PeersOwned(s.peers, s.rows, Gone(s), PendingPeer(s.hand)) && s.hand.Idle? && KeyIsNew(s.rows, key)
    ensures key !in s.peers
  {
    assert key in s.peers ==> HasHolder(s.rows, Gone(s), None, key);
  }
}

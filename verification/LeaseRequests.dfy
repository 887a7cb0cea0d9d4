/** Requests and sweeps as runs of the lease machine. */
module LeaseRequests {
  import opened Bytes
  import opened IpPool
  import opened Ownership
  import opened Lease
  import opened LeaseRuns
  import opened LeaseProgress

  function LogoutEvents(token: int): seq<Event> {
    [LogoutBegin(token), LogoutPeer, LogoutRelease, LogoutRevoke]
  }

  function RenewEvents(token: int): seq<Event> {
    [RenewBegin(token), RenewEnd]
  }

  /** A logout is one step or none. */
  lemma LogoutOutcome(c: Config, s: State, token: int)
    requires c.Valid() && s.hand.Idle?
    ensures Run(c, s, LogoutEvents(token)) ==
            if !LogoutAccepts(s, token) then s
            else var id := Lookup(s.rows, token).value;
                 s.(peers := s.peers - {s.rows[id].key}, used := s.used - {s.rows[id].ip},
                    rows := Revoke(s.rows, id), logouts := s.logouts + 1)
  {
    Run4(c, s, LogoutBegin(token), LogoutPeer, LogoutRelease, LogoutRevoke);
  }

  /** A renewal, too. */
  lemma RenewOutcome(c: Config, s: State, token: int)
    requires c.Valid() && s.hand.Idle?
    ensures Run(c, s, RenewEvents(token)) ==
            if !RenewAccepts(c, s, token) then s
            else var id := Lookup(s.rows, token).value;
                 s.(rows := s.rows[id := s.rows[id].(expiresAt := s.now + c.ttl)])
  {
    Run2(c, s, RenewBegin(token), RenewEnd);
  }

  /** A request or a sweep whose first event is harmless keeps the invariant. */
  lemma FirstThenRest(c: Config, s: State, e: Event, rest: seq<Event>)
    requires c.Valid() && Inv(c, s) && Separate(s, e) && AllUnconditional(rest)
    ensures Inv(c, Run(c, s, [e] + rest))
  {
    RunFirst(c, s, e, rest);
    NextKeeps(c, s, e);
    UnconditionalIsSeparate(c, Next(c, s, e), rest);
    RunKeeps(c, Next(c, s, e), rest);
  }

  /** Whole logins and renewals keep the invariant at any time; a logout does when the session
      is not listed for the reaper. */
  lemma RequestsKeepInv(c: Config, s: State, account: int, key: int, peerOk: bool, insertOk: bool, token: int)
    requires c.Valid() && Inv(c, s)
    ensures Inv(c, Run(c, s, LoginEvents(account, key, peerOk, insertOk, token)))
    ensures Separate(s, LogoutBegin(token)) ==> Inv(c, Run(c, s, LogoutEvents(token)))
    ensures Inv(c, Run(c, s, RenewEvents(token)))
  {
    FirstThenRest(c, s, LoginBegin(account, key), [LoginPeer(peerOk), LoginInsert(insertOk, token), LoginUndo]);
    if Separate(s, LogoutBegin(token)) {
      FirstThenRest(c, s, LogoutBegin(token), [LogoutPeer, LogoutRelease, LogoutRevoke]);
    }
    FirstThenRest(c, s, RenewBegin(token), [RenewEnd]);
  }

  /** A whole sweep keeps it, too. */
  lemma SweepKeepsInv(c: Config, s: State, ids: seq<nat>)
    requires c.Valid() && Inv(c, s) && s.hand.Idle?
    ensures Inv(c, Run(c, s, SweepEvents(ids)))
  {
    ReapEventsUnconditional(|ids|);
    FirstThenRest(c, s, Snapshot(ids), ReapEvents(|ids|));
  }

  lemma {:induction false} ReapEventsUnconditional(n: nat)
    ensures AllUnconditional(ReapEvents(n))
  {
    if n > 0 {
      ReapEventsUnconditional(n - 1);
    }
  }
}

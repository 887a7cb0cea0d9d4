/** Which events put ownership at risk, exactly. */
module LeaseExactness {
  import opened Bytes
  import opened IpPool
  import opened Ownership
  import opened Lease
  import opened LeaseSafety
  import opened LeaseRuns
  import opened LeaseRaces

  // ---------------------------------------------------------------- late logouts

  /** A logout under way that has nothing to give back: the reaper has done it all, or has only
      the row left to revoke. */
  ghost predicate Idling(c: Config, s: State) {
    && LoggingOut(s.hand).Some?
    && var id := LoggingOut(s.hand).value;
       && id < |s.rows| && s.rows[id].ip !in s.used && s.rows[id].key !in s.peers
       && (!s.rows[id].revoked ==> s.phase == IpFreed && s.work != [] && s.work[0] == id)
       && Exact(c, s.(hand := Idle))
  }

  /** The reaper has only a row left to revoke that is revoked already. */
  ghost predicate Spent(c: Config, s: State) {
    && s.phase == IpFreed && s.work != [] && s.work[0] < |s.rows| && s.rows[s.work[0]].revoked
    && Exact(c, Skipped(s))
  }

  function Skipped(s: State): State
    requires s.work != []
  {
    s.(work := s.work[1..], phase := Start)
  }

  /** Ownership is in order, or will be once a late logout and the reaper are through. */
  ghost predicate InOrder(c: Config, s: State) {
    Exact(c, s) || Idling(c, s) || Spent(c, s)
  }

  lemma LateIsIdling(c: Config, s: State, e: Event)
    requires c.Valid() && Exact(c, s) && Late(s, e)
    ensures Idling(c, Next(c, s, e))
  {
    var id := s.work[0];
    assert s.hand == Idle && Next(c, s, e).(hand := Idle) == s;
    GoneHasNoPeer(s.peers, s.rows, Gone(s), id);
  }

  lemma GoneHasNoPeer(peers: map<int, nat>, rows: Table, gone: set<nat>, id: nat)
    requires PeersOwned(peers, rows, gone, None) && id < |rows| && id in gone
    ensures rows[id].key !in peers
  {
    assert rows[id].key in peers ==> HasHolder(rows, gone, None, rows[id].key);
  }

  /** The last step of a late logout. */
  lemma RevokedLate(c: Config, s: State)
    requires Idling(c, s) && s.hand.LogoutReleased?
    ensures InOrder(c, DoLogoutRevoke(s))
  {
    var id := s.hand.id;
    var s0, s' := s.(hand := Idle), DoLogoutRevoke(s);
    if s.rows[id].revoked {
      assert s'.rows == s.rows;
      SameExact(c, s0, s');
    } else {
      ReapRevokeKeeps(c, s0);
      SameExact(c, DoReapRevoke(s0), Skipped(s'));
    }
  }

  /** Clock and counts do not matter. */
  lemma SameExact(c: Config, s: State, s': State)
    requires Exact(c, s)
    requires s' == s.(now := s'.now, logins := s'.logins, logouts := s'.logouts, expirations := s'.expirations)
    ensures Exact(c, s')
  {}

  lemma NextWhileIdling(c: Config, s: State, e: Event)
    requires c.Valid() && Idling(c, s)
    ensures InOrder(c, Next(c, s, e))
  {
    if e.Restart? {
      RestartIsExact(c, s);
    } else if e.Snapshot? || e.ReapPeer? || e.ReapRelease? || e.ReapRevoke? {
      ReaperWhileIdling(c, s, e);
    } else if e.Tick? {
      SameExact(c, s.(hand := Idle), Next(c, s.(hand := Idle), e));
    } else if e.LogoutRevoke? && s.hand.LogoutReleased? {
      RevokedLate(c, s);
    } else {
      ServingWhileIdling(c, s, e);
    }
  }

  lemma ReaperWhileIdling(c: Config, s: State, e: Event)
    requires c.Valid() && Idling(c, s) && (e.Snapshot? || e.ReapPeer? || e.ReapRelease? || e.ReapRevoke?)
    ensures Idling(c, Next(c, s, e))
  {
    var s0 := s.(hand := Idle);
    NextKeepsExact(c, s0, e);
    assert Next(c, s, e).(hand := Idle) == Next(c, s0, e);
  }

  /** The logout goes on, and changes nothing. */
  lemma ServingWhileIdling(c: Config, s: State, e: Event)
    requires c.Valid() && Idling(c, s) && !e.Tick? && !e.Restart?
    requires !e.Snapshot? && !e.ReapPeer? && !e.ReapRelease? && !e.ReapRevoke?
    requires !(e.LogoutRevoke? && s.hand.LogoutReleased?)
    ensures Idling(c, Next(c, s, e))
  {
    var h := Next(c, s, e).hand;
    assert Next(c, s, e) == s.(hand := h) && LoggingOut(h) == LoggingOut(s.hand);
    assert Next(c, s, e).(hand := Idle) == s.(hand := Idle);
  }

  lemma NextWhileSpent(c: Config, s: State, e: Event)
    requires c.Valid() && Spent(c, s) && Separate(s, e)
    ensures InOrder(c, Next(c, s, e))
  {
    var s0 := Skipped(s);
    if e.Restart? {
      RestartIsExact(c, s);
    } else if e.ReapRevoke? {
      assert Next(c, s, e).rows == s.rows;
      SameExact(c, s0, Next(c, s, e));
    } else if !e.Snapshot? && !e.ReapPeer? && !e.ReapRelease? {
      NextBesideSpent(c, s, e);
      NextKeepsExact(c, s0, e);
      NextKeepsRow(c, s, e, s.work[0]);
    }
  }

  /** The serving thread does not look at the work list. */
  lemma NextBesideSpent(c: Config, s: State, e: Event)
    requires c.Valid() && s.work != []
    requires !e.Snapshot? && !e.ReapPeer? && !e.ReapRelease? && !e.ReapRevoke? && !e.Restart?
    ensures Next(c, s, e).work == s.work && Next(c, s, e).phase == s.phase
    ensures Skipped(Next(c, s, e)) == Next(c, Skipped(s), e)
  {}

  lemma NextKeepsOrder(c: Config, s: State, e: Event)
    requires c.Valid() && InOrder(c, s) && Separate(s, e)
    ensures InOrder(c, Next(c, s, e))
  {
    if Exact(c, s) {
      NextKeepsExact(c, s, e);
    } else if Idling(c, s) {
      NextWhileIdling(c, s, e);
    } else {
      NextWhileSpent(c, s, e);
    }
  }

  lemma {:induction false} RunKeepsOrder(c: Config, s: State, events: seq<Event>)
    requires c.Valid() && InOrder(c, s) && SeparateRun(c, s, events)
    ensures InOrder(c, Run(c, s, events))
    decreases |events|
  {
    if events != [] {
      NextKeepsOrder(c, s, events[0]);
      RunKeepsOrder(c, Next(c, s, events[0]), events[1..]);
    }
  }

  // ---------------------------------------------------------------- the theorem

  /** Nothing half done: addresses and peers are exactly those of the sessions. */
  ghost predicate Owning(c: Config, s: State) {
    Quiet(s) ==> AddressesExact(c.pool, s.used, s.rows) && PeersExact(s.peers, s.rows)
  }

  lemma OrderIsOwning(c: Config, s: State)
    requires InOrder(c, s)
    ensures Owning(c, s)
  {
    if Quiet(s) {
      OwnershipIsExact(c, s);
    }
  }

  lemma SharingIsNotOwning(c: Config, s: State)
    requires Quiet(s) && Shared(s.rows)
    ensures !Owning(c, s)
  {}

  /** An event of a sound state leaves ownership exact in every further run in which the threads
      keep apart, if and only if it brings no session into the hands of both threads, or is a
      logout too late to release anything. */
  lemma OwnershipSurvivesExactly(c: Config, s: State, e: Event)
    requires c.Valid() && Exact(c, s)
    ensures Separate(s, e) || Late(s, e) <==>
            forall more :: SeparateRun(c, Next(c, s, e), more) ==> Owning(c, Run(c, Next(c, s, e), more))
  {
    var s1 := Next(c, s, e);
    if Separate(s, e) || Late(s, e) {
      if Late(s, e) {
        LateIsIdling(c, s, e);
      } else {
        NextKeepsExact(c, s, e);
      }
      forall more | SeparateRun(c, s1, more)
        ensures Owning(c, Run(c, s1, more))
      {
        RunKeepsOrder(c, s1, more);
        OrderIsOwning(c, Run(c, s1, more));
      }
    } else {
      var more := RaceBreaksOwnership(c, s, e);
      SharingIsNotOwning(c, Run(c, s1, more));
    }
  }
}

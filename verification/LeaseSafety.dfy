/** Every event keeps the invariant of the lease machine, and what follows for whole runs. */
module LeaseSafety {
  import opened Bytes
  import opened IpPool
  import opened Ownership
  import opened Lease

  // ---------------------------------------------------------------- small facts

  /** Revoking one row takes one from the unrevoked rows. */
  lemma RevokeCounts(rows: Table, id: nat)
    requires id < |rows| && !rows[id].revoked
    ensures Count(Revoke(rows, id), Unrevoked()) + 1 == Count(rows, Unrevoked())
  {
    CountUpdate(rows, id, rows[id].(revoked := true), Unrevoked());
  }

  lemma LookupFinds(rows: Table, token: int, id: nat)
    requires TokensDiffer(rows) && id < |rows| && rows[id].token == token
    ensures Lookup(rows, token) == Some(id)
  {
    var k := Lookup(rows, token).value;
    assert k < |rows| && rows[k].token == token;
  }

  // ---------------------------------------------------------------- login

  lemma LoginBeginKeeps(c: Config, s: State, account: int, key: int)
    requires c.Valid() && Exact(c, s)
    ensures Exact(c, DoLoginBegin(c, s, account, key))
  {
    if s.hand.Idle? {
      AllocateKeepsIps(c.pool, s.used, s.rows, Freed(s));
    }
  }

  lemma LoginPeerKeeps(c: Config, s: State, ok: bool)
    requires Exact(c, s)
    ensures Exact(c, DoLoginPeer(s, ok))
  {
    if s.hand.Allocated? {
      if ok {
        AddKeepsPeers(s.peers, s.rows, Gone(s), Peer(s.hand.key, s.hand.ip));
      } else {
        ReleasePendingKeepsIps(c.pool, s.used, s.rows, Freed(s), s.hand.ip);
      }
    }
  }

  lemma LoginInsertKeeps(c: Config, s: State, ok: bool, token: int)
    requires Exact(c, s)
    ensures Exact(c, DoLoginInsert(c, s, ok, token))
  {
    if s.hand.Peered? {
      if ok && Lookup(s.rows, token).None? {
        Inserted(c, s, token);
      } else {
        RemovePendingKeepsPeers(s.peers, s.rows, Gone(s), Peer(s.hand.key, s.hand.ip));
      }
    }
  }

  lemma Inserted(c: Config, s: State, token: int)
    requires Exact(c, s) && s.hand.Peered? && Lookup(s.rows, token).None?
    ensures Exact(c, DoLoginInsert(c, s, true, token))
  {
    var s' := DoLoginInsert(c, s, true, token);
    var row := s'.rows[|s.rows|];
    InsertedHoldings(c, s, row);
    NewTokenDiffers(s.rows, row);
    assert Freed(s') == Freed(s) && Gone(s') == Gone(s);
  }

  lemma NewTokenDiffers(rows: Table, row: Session)
    requires TokensDiffer(rows) && Lookup(rows, row.token).None?
    ensures TokensDiffer(rows + [row])
  {}

  lemma InsertedHoldings(c: Config, s: State, row: Session)
    requires WorkOk(s) && Holdings(c, s) && s.hand.Peered?
    requires row.key == s.hand.key && row.ip == s.hand.ip && !row.revoked
    ensures IpsOwned(c.pool, s.used, s.rows + [row], Freed(s), None)
    ensures PeersOwned(s.peers, s.rows + [row], Gone(s), None)
  {
    InsertKeepsIps(c.pool, s.used, s.rows, Freed(s), row);
    InsertKeepsPeers(s.peers, s.rows, Gone(s), row);
  }

  lemma LoginUndoKeeps(c: Config, s: State)
    requires Exact(c, s)
    ensures Exact(c, DoLoginUndo(s))
  {
    if s.hand.Undone? {
      ReleasePendingKeepsIps(c.pool, s.used, s.rows, Freed(s), s.hand.ip);
    }
  }

  // ---------------------------------------------------------------- logout

  lemma LogoutBeginKeeps(c: Config, s: State, token: int)
    requires Exact(c, s) && Separate(s, LogoutBegin(token))
    ensures Exact(c, DoLogoutBegin(s, token))
  {}

  lemma LogoutPeerKeeps(c: Config, s: State)
    requires Exact(c, s)
    ensures Exact(c, DoLogoutPeer(s))
  {
    if s.hand.LogoutChecked? {
      RemoveKeepsPeers(s.peers, s.rows, Gone(s), None, s.hand.id);
      assert Gone(DoLogoutPeer(s)) == Gone(s) + {s.hand.id};
    }
  }

  lemma LogoutReleaseKeeps(c: Config, s: State)
    requires Exact(c, s)
    ensures Exact(c, DoLogoutRelease(s))
  {
    var s' := DoLogoutRelease(s);
    if s.hand.LogoutPeerGone? {
      ReleaseKeepsIps(c.pool, s.used, s.rows, Freed(s), None, s.hand.id);
      assert Freed(s') == Freed(s) + {s.hand.id} && Gone(s') == Gone(s);
    }
  }

  lemma LogoutRevokeKeeps(c: Config, s: State)
    requires Exact(c, s)
    ensures Exact(c, DoLogoutRevoke(s))
  {
    var s' := DoLogoutRevoke(s);
    if s.hand.LogoutReleased? {
      RevokedHoldings(c, s, s.hand.id);
      assert Freed(s') == Freed(s) - {s.hand.id} && Gone(s') == Gone(s) - {s.hand.id};
    }
  }

  lemma RevokedHoldings(c: Config, s: State, id: nat)
    requires Holdings(c, s) && id < |s.rows| && id in Freed(s) && id in Gone(s)
    ensures IpsOwned(c.pool, s.used, Revoke(s.rows, id), Freed(s) - {id}, Pending(s.hand))
    ensures PeersOwned(s.peers, Revoke(s.rows, id), Gone(s) - {id}, PendingPeer(s.hand))
  {
    RevokeKeepsIps(c.pool, s.used, s.rows, Freed(s), Pending(s.hand), id);
    RevokeKeepsPeers(s.peers, s.rows, Gone(s), PendingPeer(s.hand), id);
  }

  // ---------------------------------------------------------------- renewal

  lemma RenewEndKeeps(c: Config, s: State)
    requires Exact(c, s)
    ensures Exact(c, DoRenewEnd(c, s))
  {
    var s' := DoRenewEnd(c, s);
    if s.hand.RenewChecked? && s.hand.id < |s.rows| {
      RenewedHoldings(c, s);
      assert Freed(s') == Freed(s) && Gone(s') == Gone(s);
    }
  }

  lemma RenewedHoldings(c: Config, s: State)
    requires Holdings(c, s) && s.hand.RenewChecked? && s.hand.id < |s.rows|
    ensures var rows' := DoRenewEnd(c, s).rows;
            IpsOwned(c.pool, s.used, rows', Freed(s), None) && PeersOwned(s.peers, rows', Gone(s), None)
  {
    var rows' := DoRenewEnd(c, s).rows;
    assert forall k, away: set<nat> | 0 <= k < |rows'| :: Holds(rows', away, k) == Holds(s.rows, away, k);
    SameHoldersIps(c.pool, s.used, s.rows, Freed(s), None, rows', Freed(s));
    SameHoldersPeers(s.peers, s.rows, Gone(s), None, rows', Gone(s));
  }

  // ---------------------------------------------------------------- the reaper

  lemma SnapshotKeeps(c: Config, s: State, ids: seq<nat>)
    requires Exact(c, s) && Separate(s, Snapshot(ids))
    ensures Exact(c, DoSnapshot(s, ids))
  {}

  lemma ReapPeerKeeps(c: Config, s: State)
    requires Exact(c, s)
    ensures Exact(c, DoReapPeer(s))
  {
    if s.work != [] && s.phase == Start {
      RemoveKeepsPeers(s.peers, s.rows, Gone(s), PendingPeer(s.hand), s.work[0]);
      assert Gone(DoReapPeer(s)) == Gone(s) + {s.work[0]};
    }
  }

  lemma ReapReleaseKeeps(c: Config, s: State)
    requires Exact(c, s)
    ensures Exact(c, DoReapRelease(s))
  {
    var s' := DoReapRelease(s);
    if s.work != [] && s.phase == PeerGone {
      ReleaseKeepsIps(c.pool, s.used, s.rows, Freed(s), Pending(s.hand), s.work[0]);
      assert Freed(s') == Freed(s) + {s.work[0]} && Gone(s') == Gone(s);
    }
  }

  lemma ReapRevokeKeeps(c: Config, s: State)
    requires Exact(c, s)
    ensures Exact(c, DoReapRevoke(s))
  {
    var s' := DoReapRevoke(s);
    if s.work != [] && s.phase == IpFreed {
      var id := s.work[0];
      RevokedHoldings(c, s, id);
      assert Freed(s') == Freed(s) - {id} && Gone(s') == Gone(s) - {id};
    }
  }

  // ---------------------------------------------------------------- restart

  /** Whatever the old process left behind. */
  lemma RestartIsExact(c: Config, s: State)
    requires c.Valid() && KeysDiffer(s.rows) && TokensDiffer(s.rows)
    ensures Exact(c, DoRestart(c, s))
  {
    var s' := DoRestart(c, s);
    NobodyOwns(c.pool, s'.rows);
    NoPeers(s'.rows);
  }

  // ---------------------------------------------------------------- counts

  lemma LoginInsertCounts(c: Config, s: State, ok: bool, token: int)
    requires Counted(s)
    ensures Counted(DoLoginInsert(c, s, ok, token))
  {
    var s' := DoLoginInsert(c, s, ok, token);
    if s'.rows != s.rows {
      CountAppend(s.rows, s'.rows[|s.rows|], Unrevoked());
    }
  }

  lemma LogoutRevokeCounts(s: State)
    requires HandOk(s) && Counted(s)
    ensures Counted(DoLogoutRevoke(s))
  {
    if s.hand.LogoutReleased? {
      RevokeCounts(s.rows, s.hand.id);
    }
  }

  lemma RenewEndCounts(c: Config, s: State)
    requires Counted(s)
    ensures Counted(DoRenewEnd(c, s))
  {
    if s.hand.RenewChecked? && s.hand.id < |s.rows| {
      CountUpdate(s.rows, s.hand.id, DoRenewEnd(c, s).rows[s.hand.id], Unrevoked());
    }
  }

  lemma ReapRevokeCounts(s: State)
    requires WorkOk(s) && Counted(s)
    ensures Counted(DoReapRevoke(s))
  {
    if s.work != [] {
      RevokeCounts(s.rows, s.work[0]);
    }
  }

  /** Sessions are conserved by every event that finds its row unrevoked. */
  lemma NextKeepsCount(c: Config, s: State, e: Event)
    requires c.Valid() && WorkOk(s) && HandOk(s) && Counted(s)
    ensures Counted(Next(c, s, e))
  {
    match e
    case LoginInsert(ok, token) => LoginInsertCounts(c, s, ok, token);
    case LogoutRevoke => LogoutRevokeCounts(s);
    case RenewEnd => RenewEndCounts(c, s);
    case ReapRevoke => ReapRevokeCounts(s);
    case Restart => CountNone(DoRestart(c, s).rows, Unrevoked());
    case _ =>
  }

  lemma RestartEstablishes(c: Config, s: State)
    requires c.Valid() && KeysDiffer(s.rows) && TokensDiffer(s.rows)
    ensures Inv(c, DoRestart(c, s))
  {
    RestartIsExact(c, s);
    CountNone(DoRestart(c, s).rows, Unrevoked());
  }
}

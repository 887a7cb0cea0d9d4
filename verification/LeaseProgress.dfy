/** What a sweep of the reaper gets done. */
module LeaseProgress {
  import opened Bytes
  import opened IpPool
  import opened Ownership
  import opened Lease
  import opened LeaseRuns

  /** The effects on the first session of the work list. */
  const REAP_ONE: seq<Event> := [ReapPeer, ReapRelease, ReapRevoke]

  function ReapEvents(n: nat): seq<Event> {
    if n == 0 then [] else REAP_ONE + ReapEvents(n - 1)
  }

  /** One sweep with nothing in between. */
  function SweepEvents(ids: seq<nat>): seq<Event> {
    [Snapshot(ids)] + ReapEvents(|ids|)
  }

  lemma ReapOneRun(c: Config, s: State)
    requires c.Valid()
    ensures Run(c, s, REAP_ONE) == DoReapRevoke(DoReapRelease(DoReapPeer(s)))
  {
    assert REAP_ONE[1..] == [ReapRelease, ReapRevoke] && [ReapRelease, ReapRevoke][1..] == [ReapRevoke];
    Run2(c, DoReapPeer(s), ReapRelease, ReapRevoke);
  }

  /** The listed sessions are expired, as they are when a sweep begins. */
  predicate ListedExpired(s: State) {
    forall k :: 0 <= k < |s.work| ==> s.work[k] < |s.rows| && ExpiredAt(s.now)(s.rows[s.work[k]])
  }

  /** Rows in the work list, whether revoked or not. */
  predicate ListInTable(s: State) {
    forall k :: 0 <= k < |s.work| ==> s.work[k] < |s.rows|
  }

  lemma ReapFirst(c: Config, s: State) returns (s': State)
    requires c.Valid() && WorkOk(s) && ListedExpired(s) && s.work != [] && s.phase == Start
    ensures s' == Run(c, s, REAP_ONE)
    ensures var id := s.work[0];
            s' == s.(rows := Revoke(s.rows, id), peers := s.peers - {s.rows[id].key}, used := s.used - {s.rows[id].ip},
                     work := s.work[1..], expirations := s.expirations + 1)
    ensures WorkOk(s') && ListedExpired(s')
    ensures Count(s'.rows, ExpiredAt(s.now)) + 1 == Count(s.rows, ExpiredAt(s.now))
  {
    ReapOneRun(c, s);
    s' := Run(c, s, REAP_ONE);
    CountUpdate(s.rows, s.work[0], s'.rows[s.work[0]], ExpiredAt(s.now));
  }

  lemma ReapNext(c: Config, s: State, n: nat)
    requires c.Valid()
    ensures Run(c, s, ReapEvents(n + 1)) == Run(c, Run(c, s, REAP_ONE), ReapEvents(n))
  {
    RunConcat(c, s, REAP_ONE, ReapEvents(n));
  }

  lemma SweepStarts(c: Config, s: State, ids: seq<nat>)
    requires c.Valid()
    ensures Run(c, s, SweepEvents(ids)) == Run(c, DoSnapshot(s, ids), ReapEvents(|ids|))
  {
    RunFirst(c, s, Snapshot(ids), ReapEvents(|ids|));
  }

  function OneReaped(s: State): State {
    DoReapRevoke(DoReapRelease(DoReapPeer(s)))
  }

  function Reaped(s: State, n: nat): State
    decreases n
  {
    if n == 0 then s else Reaped(OneReaped(s), n - 1)
  }

  lemma {:induction false} ReapedNext(s: State, n: nat)
    ensures Reaped(s, n + 1) == OneReaped(Reaped(s, n))
    decreases n
  {
    if n > 0 {
      ReapedNext(OneReaped(s), n - 1);
    }
  }

  lemma {:induction false} ReapedIsRun(c: Config, s: State, n: nat)
    requires c.Valid()
    ensures Run(c, s, ReapEvents(n)) == Reaped(s, n)
    decreases n
  {
    if n > 0 {
      ReapNext(c, s, n - 1);
      ReapOneRun(c, s);
      ReapedIsRun(c, OneReaped(s), n - 1);
    }
  }

  lemma SweepIsRun(c: Config, s: State, ids: seq<nat>)
    requires c.Valid()
    ensures Run(c, s, SweepEvents(ids)) == Reaped(DoSnapshot(s, ids), |ids|)
  {
    SweepStarts(c, s, ids);
    ReapedIsRun(c, DoSnapshot(s, ids), |ids|);
  }

  function RevokeEach(rows: Table, ids: seq<nat>): (r: Table)
    requires forall k :: 0 <= k < |ids| ==> ids[k] < |rows|
    ensures |r| == |rows|
    decreases |ids|
  {
    if ids == [] then rows else RevokeEach(Revoke(rows, ids[0]), ids[1..])
  }

  lemma {:induction false} RevokeEachAt(rows: Table, ids: seq<nat>, id: nat)
    requires (forall k :: 0 <= k < |ids| ==> ids[k] < |rows|) && id < |rows|
    ensures RevokeEach(rows, ids)[id] == if id in ids then rows[id].(revoked := true) else rows[id]
    decreases |ids|
  {
    if ids != [] {
      RevokeEachAt(Revoke(rows, ids[0]), ids[1..], id);
      assert ids == [ids[0]] + ids[1..];
    }
  }

  /** Working off the list revokes just the listed sessions. */
  lemma {:induction false} ReapAll(c: Config, s: State) returns (s': State)
    requires c.Valid() && WorkOk(s) && ListedExpired(s) && s.phase == Start
    ensures s' == Run(c, s, ReapEvents(|s.work|))
    ensures s'.work == [] && s'.phase == Start && s'.now == s.now && s'.hand == s.hand
    ensures s'.expirations == s.expirations + |s.work| && s'.logins == s.logins && s'.logouts == s.logouts
    ensures s'.rows == RevokeEach(s.rows, s.work)
    ensures Count(s'.rows, ExpiredAt(s.now)) + |s.work| == Count(s.rows, ExpiredAt(s.now))
    decreases |s.work|
  {
    if s.work == [] {
      s' := s;
    } else {
      var s1 := ReapFirst(c, s);
      s' := ReapAll(c, s1);
      ReapNext(c, s, |s1.work|);
    }
  }

  /** One sweep revokes the lesser of one hundred and all the sessions expired when it
      starts, and nothing else. */
  lemma SweepRevokes(c: Config, s: State, ids: seq<nat>) returns (s': State)
    requires c.Valid() && s.work == [] && s.phase == Start && SweepOf(s.rows, s.now, ids)
    ensures s' == Run(c, s, SweepEvents(ids))
    ensures s'.work == [] && s'.phase == Start && s'.now == s.now && s'.hand == s.hand && |s'.rows| == |s.rows|
    ensures forall id | 0 <= id < |s.rows| ::
              s'.rows[id] == if id in ids then s.rows[id].(revoked := true) else s.rows[id]
    ensures var n := Count(s.rows, ExpiredAt(s.now));
            s'.expirations == s.expirations + Min(SWEEP_LIMIT, n) &&
            Count(s'.rows, ExpiredAt(s.now)) == n - Min(SWEEP_LIMIT, n)
  {
    var s1 := Next(c, s, Snapshot(ids));
    s' := ReapAll(c, s1);
    forall id | 0 <= id < |s.rows|
      ensures s'.rows[id] == if id in ids then s.rows[id].(revoked := true) else s.rows[id]
    {
      RevokeEachAt(s.rows, ids, id);
    }
    SweepStarts(c, s, ids);
  }
}

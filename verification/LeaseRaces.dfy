/** What happens when one session does come into the hands of both threads: from whichever state,
    counts are lost, and two sessions may come to hold one address. */
module LeaseRaces {
  import opened Bytes
  import opened IpPool
  import opened Ownership
  import opened Lease
  import opened LeaseSafety
  import opened LeaseRuns
  import opened LeaseProgress
  import opened LeaseRequests

  // ---------------------------------------------------------------- both threads finish

  /** What is left of a logout, from any point of it. */
  const FINISH: seq<Event> := [LogoutPeer, LogoutRelease, LogoutRevoke]

  function Finished(s: State): State {
    DoLogoutRevoke(DoLogoutRelease(DoLogoutPeer(s)))
  }

  lemma FinishRun(c: Config, s: State)
    requires c.Valid()
    ensures Run(c, s, FINISH) == Finished(s)
  {
    assert FINISH[1..] == [LogoutRelease, LogoutRevoke] && [LogoutRelease, LogoutRevoke][1..] == [LogoutRevoke];
    Run2(c, DoLogoutPeer(s), LogoutRelease, LogoutRevoke);
  }

  /** The session is in the hands of both threads. */
  predicate Clash(s: State, id: nat) {
    && LoggingOut(s.hand) == Some(id)
    && id in s.work && id < |s.rows| && !s.rows[id].revoked
    && WorkOk(s)
  }

  /** The logout completes. */
  lemma FinishedClash(s: State, id: nat)
    requires Clash(s, id)
    ensures var s' := Finished(s);
            && s'.hand.Idle? && s'.rows == Revoke(s.rows, id) && s'.work == s.work && s'.phase == s.phase
            && s'.logouts == s.logouts + 1 && s'.logins == s.logins && s'.expirations == s.expirations
            && s'.now == s.now && ListInTable(s')
    ensures Finished(s).used == if s.hand.LogoutReleased? then s.used else s.used - {s.rows[id].ip}
  {}

  /** Every session that was counted in, one way or another. */
  function Total(s: State): int {
    Count(s.rows, Unrevoked()) + s.logouts + s.expirations
  }

  lemma OneReapedTotal(s: State)
    requires s.work != [] && ListInTable(s)
    ensures var s' := OneReaped(s);
            && s'.work == s.work[1..] && s'.phase == Start && s'.hand == s.hand && ListInTable(s')
            && |s'.rows| == |s.rows| && s'.logins == s.logins
            && s'.rows == Revoke(s.rows, s.work[0])
            && Total(s') == Total(s) + if s.rows[s.work[0]].revoked then 1 else 0
  {
    CountUpdate(s.rows, s.work[0], s.rows[s.work[0]].(revoked := true), Unrevoked());
  }

  /** Reaping a session that is revoked already counts it twice. */
  lemma {:induction false} ReapedTotal(s: State)
    requires ListInTable(s) && (s.phase != Start ==> s.work != [])
    ensures var s' := Reaped(s, |s.work|);
            && s'.work == [] && s'.phase == Start && s'.hand == s.hand && s'.logins == s.logins
            && Total(s') >= Total(s)
            && ((exists k :: 0 <= k < |s.work| && s.rows[s.work[k]].revoked) ==> Total(s') > Total(s))
    decreases |s.work|
  {
    if s.work != [] {
      OneReapedTotal(s);
      var s1 := OneReaped(s);
      ReapedTotal(s1);
      if k :| 0 <= k < |s.work| && s.rows[s.work[k]].revoked {
        if k > 0 {
          assert s1.work[k - 1] == s.work[k] && s1.rows[s1.work[k - 1]].revoked;
        }
      }
    }
  }

  /** From a clash, both threads finishing is enough to lose count. */
  lemma ClashLosesCount(c: Config, s: State, id: nat) returns (more: seq<Event>)
    requires c.Valid() && Clash(s, id) && Counted(s)
    ensures AllUnconditional(more) && Quiet(Run(c, s, more)) && !Counted(Run(c, s, more))
  {
    more := FINISH + ReapEvents(|s.work|);
    RunConcat(c, s, FINISH, ReapEvents(|s.work|));
    FinishRun(c, s);
    FinishedClash(s, id);
    var s1 := Finished(s);
    RevokeCounts(s.rows, id);
    assert Total(s1) == Total(s);
    ReapedIsRun(c, s1, |s.work|);
    var k :| 0 <= k < |s.work| && s.work[k] == id;
    assert s1.rows[s1.work[k]].revoked;
    ReapedTotal(s1);
    ReapEventsUnconditional(|s.work|);
  }

  /** The session that comes into the hands of both threads. */
  function Contested(s: State, e: Event): nat
    requires !Separate(s, e)
  {
    match e
    case Snapshot(ids) => LoggingOut(s.hand).value
    case LogoutBegin(token) => Lookup(s.rows, token).value
  }

  /** A step that is not separate leads to a clash. */
  lemma Clashes(c: Config, s: State, e: Event)
    requires c.Valid() && Exact(c, s) && !Separate(s, e)
    ensures Clash(Next(c, s, e), Contested(s, e))
    ensures var s' := Next(c, s, e);
            && s'.used == s.used && s'.rows == s.rows && s'.phase == s.phase
            && s'.logins == s.logins && s'.logouts == s.logouts && s'.expirations == s.expirations
    ensures e.Snapshot? ==> Next(c, s, e).hand == s.hand && s.phase == Start
    ensures e.LogoutBegin? ==>
              && s.hand.Idle? && Next(c, s, e).hand.LogoutChecked?
              && Next(c, s, e).work == s.work && Contested(s, e) in s.work
  {}

  /** Exactly the separate steps are harmless: a step of a sound state is followed by counted
      sessions in every further separate run if and only if it is separate itself. */
  lemma HarmlessExactlyWhenSeparate(c: Config, s: State, e: Event)
    requires c.Valid() && Inv(c, s)
    ensures Separate(s, e) <==>
            forall more :: SeparateRun(c, Next(c, s, e), more) ==> Counted(Run(c, Next(c, s, e), more))
  {
    var s1 := Next(c, s, e);
    if Separate(s, e) {
      NextKeeps(c, s, e);
      forall more | SeparateRun(c, s1, more)
        ensures Counted(Run(c, s1, more))
      {
        RunKeeps(c, s1, more);
      }
    } else {
      Clashes(c, s, e);
      var more := ClashLosesCount(c, s1, Contested(s, e));
      UnconditionalIsSeparate(c, s1, more);
      assert SeparateRun(c, s1, more) && !Counted(Run(c, s1, more));
    }
  }

  // ---------------------------------------------------------------- the address of the session

  /** Above every account, key and token of the table. */
  function Above(rows: Table): (n: int)
    ensures forall k :: 0 <= k < |rows| ==> rows[k].account < n && rows[k].key < n && rows[k].token < n
  {
    if rows == [] then 0
    else
      var r := rows[|rows| - 1];
      var n := Above(rows[..|rows| - 1]);
      assert forall k :: 0 <= k < |rows| - 1 ==> rows[..|rows| - 1][k] == rows[k];
      Max(n, Max(r.account + 1, Max(r.key + 1, r.token + 1)))
  }

  /** A newcomer logs in while a host is free. */
  lemma Newcomer(c: Config, s: State) returns (more: seq<Event>, s': State, ip: nat)
    requires c.Valid() && s.hand.Idle? && Hosts(c.pool) - s.used != {}
    ensures AllUnconditional(more) && s' == Run(c, s, more)
    ensures s'.hand.Idle? && s'.work == s.work && s'.phase == s.phase && s'.now == s.now
    ensures s.rows < s'.rows && |s'.rows| == |s.rows| + 1
    ensures s'.rows[|s.rows|].ip == ip && !s'.rows[|s.rows|].revoked
    ensures ip in Hosts(c.pool) - s.used && Hosts(c.pool) - s'.used == Hosts(c.pool) - s.used - {ip}
  {
    var n := Above(s.rows);
    AllocateTakesHost(c.pool, s.used);
    CountNone(s.rows, ActiveFor(n, s.now));
    LoginSuccess(c, s, n, n, n);
    more := LoginEvents(n, n, true, true, n);
    s' := LoggedIn(c, s, n, n, n);
    ip := Allocate(c.pool, s.used).value;
  }

  /** Newcomers log in until one of them gets the address. */
  lemma {:induction false} TakeUntil(c: Config, s: State, ip: nat) returns (more: seq<Event>, s': State, k: nat)
    requires c.Valid() && s.hand.Idle? && ip in Hosts(c.pool) - s.used
    ensures AllUnconditional(more) && s' == Run(c, s, more)
    ensures s'.hand.Idle? && s'.work == s.work && s'.phase == s.phase
    ensures s.rows <= s'.rows && |s.rows| <= k < |s'.rows| && s'.rows[k].ip == ip && !s'.rows[k].revoked
    decreases |Hosts(c.pool) - s.used|
  {
    var got;
    more, s', got := Newcomer(c, s);
    k := |s.rows|;
    if got != ip {
      var rest;
      var s1 := s';
      rest, s', k := TakeUntil(c, s1, ip);
      RunConcat(c, s, more, rest);
      more := more + rest;
    }
  }

  /** The sweep gives every listed address back, and leaves later rows alone. */
  lemma {:induction false} ReapedFrees(s: State, id: nat, k: nat)
    requires ListInTable(s) && id in s.work && id < |s.rows| && k < |s.rows| && k !in s.work
    requires s.phase == IpFreed ==> s.work[0] != id
    ensures var s' := Reaped(s, |s.work|);
            && k < |s'.rows| && s'.rows[k] == s.rows[k] && s.rows[id].ip !in s'.used
    decreases |s.work|
  {
    OneReapedFrees(s, id, k);
    if s.work[0] == id {
      ReapedShrinks(OneReaped(s), k);
    } else {
      ReapedFrees(OneReaped(s), id, k);
    }
  }

  lemma OneReapedFrees(s: State, id: nat, k: nat)
    requires ListInTable(s) && id in s.work && id < |s.rows| && k < |s.rows| && k !in s.work
    requires s.phase == IpFreed ==> s.work[0] != id
    ensures var s' := OneReaped(s);
            && ListInTable(s') && |s'.work| + 1 == |s.work| && s'.phase == Start && |s'.rows| == |s.rows|
            && k !in s'.work && s'.rows[k] == s.rows[k] && s'.rows[id].ip == s.rows[id].ip
            && if s.work[0] == id then s.rows[id].ip !in s'.used else id in s'.work
  {
    OneReapedTotal(s);
    assert s.work == [s.work[0]] + s.work[1..];
  }

  lemma {:induction false} ReapedShrinks(s: State, k: nat)
    requires ListInTable(s) && k < |s.rows| && k !in s.work
    ensures var s' := Reaped(s, |s.work|);
            && k < |s'.rows| && s'.rows[k] == s.rows[k] && s'.used <= s.used
    decreases |s.work|
  {
    if s.work != [] {
      OneReapedTotal(s);
      assert s.work == [s.work[0]] + s.work[1..];
      ReapedShrinks(OneReaped(s), k);
    }
  }

  /** Two unrevoked sessions with one address. */
  predicate Shared(rows: Table) {
    exists a, b :: 0 <= a < b < |rows| && !rows[a].revoked && !rows[b].revoked && rows[a].ip == rows[b].ip
  }

  /** From a clash after which the logout leaves the address free: a newcomer gets it, the
      sweep gives it back, and another newcomer gets it, too. */
  lemma ClashSharesAddress(c: Config, s: State, id: nat) returns (more: seq<Event>)
    requires c.Valid() && Clash(s, id) && c.pool.Host(s.rows[id].ip) && s.rows[id].ip !in Finished(s).used
    requires s.phase == IpFreed ==> s.work[0] != id
    ensures AllUnconditional(more)
    ensures var s' := Run(c, s, more);
            Quiet(s') && Shared(s'.rows)
  {
    var ip := s.rows[id].ip;
    FinishRun(c, s);
    FinishedClash(s, id);
    var freeing, s3, k := TakenAndFreed(c, Finished(s), id, ip);
    var taking, s4, k' := TakeUntil(c, s3, ip);
    assert s4.rows[k] == s3.rows[k];
    RunConcat(c, s, FINISH, freeing);
    RunConcat(c, s, FINISH + freeing, taking);
    more := FINISH + freeing + taking;
  }

  /** A free address of a listed row is taken by a newcomer, and freed by the sweep. */
  lemma TakenAndFreed(c: Config, s: State, id: nat, ip: nat) returns (more: seq<Event>, s': State, k: nat)
    requires c.Valid() && s.hand.Idle? && ip in Hosts(c.pool) - s.used && ListInTable(s)
    requires id in s.work && id < |s.rows| && s.rows[id].ip == ip
    requires s.phase == IpFreed ==> s.work[0] != id
    ensures AllUnconditional(more) && s' == Run(c, s, more)
    ensures Quiet(s') && s'.work == [] && ip !in s'.used
    ensures k < |s'.rows| && !s'.rows[k].revoked && s'.rows[k].ip == ip
  {
    var taking, s2, k' := TakeUntil(c, s, ip);
    k := k';
    assert ListInTable(s2) && s2.rows[id] == s.rows[id];
    assert k !in s2.work;
    ReapedIsRun(c, s2, |s2.work|);
    ReapedTotal(s2);
    ReapedFrees(s2, id, k);
    s' := Reaped(s2, |s2.work|);
    RunConcat(c, s, taking, ReapEvents(|s2.work|));
    more := taking + ReapEvents(|s2.work|);
    ReapEventsUnconditional(|s2.work|);
  }

  /** The reaper has released the address of the session it is with, somebody else has got it,
      and now a logout takes the session: it releases the address once more. */
  lemma RegivenShares(c: Config, s: State, id: nat, k: nat) returns (more: seq<Event>)
    requires c.Valid() && Clash(s, id) && s.hand.LogoutChecked? && s.phase == IpFreed && s.work[0] == id
    requires c.pool.Host(s.rows[id].ip)
    requires k < |s.rows| && k != id && !s.rows[k].revoked && s.rows[k].ip == s.rows[id].ip
    ensures AllUnconditional(more)
    ensures var s' := Run(c, s, more);
            Quiet(s') && Shared(s'.rows)
  {
    var ip := s.rows[id].ip;
    FinishRun(c, s);
    FinishedClash(s, id);
    var s1 := Finished(s);
    var rest;
    if k in s.work {
      var freeing, s3, m := TakenAndFreed(c, s1, k, ip);
      var taking, s4, m' := TakeUntil(c, s3, ip);
      assert s4.rows[m] == s3.rows[m];
      RunConcat(c, s1, freeing, taking);
      rest := freeing + taking;
    } else {
      rest := TakenBeside(c, s1, k, ip);
    }
    RunConcat(c, s, FINISH, rest);
    more := FINISH + rest;
  }

  /** A free address of an unlisted row is taken by a newcomer, and the sweep is finished. */
  lemma TakenBeside(c: Config, s: State, k: nat, ip: nat) returns (more: seq<Event>)
    requires c.Valid() && s.hand.Idle? && ip in Hosts(c.pool) - s.used && ListInTable(s)
    requires s.phase != Start ==> s.work != []
    requires k < |s.rows| && k !in s.work && !s.rows[k].revoked && s.rows[k].ip == ip
    ensures AllUnconditional(more)
    ensures var s' := Run(c, s, more);
            Quiet(s') && Shared(s'.rows)
  {
    var taking, s2, m := TakeUntil(c, s, ip);
    assert ListInTable(s2) && s2.rows[k] == s.rows[k] && m !in s2.work;
    ReapedIsRun(c, s2, |s2.work|);
    ReapedTotal(s2);
    ReapedShrinks(s2, k);
    ReapedShrinks(s2, m);
    RunConcat(c, s, taking, ReapEvents(|s2.work|));
    more := taking + ReapEvents(|s2.work|);
    ReapEventsUnconditional(|s2.work|);
  }

  /** A logout that takes the session the reaper is with, its address released and still free.
      It has nothing more to release. */
  predicate Late(s: State, e: Event) {
    && e.LogoutBegin? && LogoutTaken(s, e.token)
    && s.phase == IpFreed && s.work != [] && s.work[0] == Lookup(s.rows, e.token).value
    && s.rows[s.work[0]].ip !in s.used
  }

  /** Every other step that is not separate has a separate continuation after which nothing is
      half done and two sessions hold one address. */
  lemma RaceBreaksOwnership(c: Config, s: State, e: Event) returns (more: seq<Event>)
    requires c.Valid() && Exact(c, s) && !Separate(s, e) && !Late(s, e)
    ensures SeparateRun(c, Next(c, s, e), more)
    ensures var s' := Run(c, Next(c, s, e), more);
            Quiet(s') && Shared(s'.rows)
  {
    var id, s1 := Contested(s, e), Next(c, s, e);
    Clashes(c, s, e);
    FinishedClash(s1, id);
    assert c.pool.Host(s.rows[id].ip);
    if s.phase == IpFreed && s.work[0] == id {
      assert Owned(s.rows, Freed(s), None, s.rows[id].ip);
      var k :| 0 <= k < |s.rows| && Holds(s.rows, Freed(s), k) && s.rows[k].ip == s.rows[id].ip;
      more := RegivenShares(c, s1, id, k);
    } else {
      more := ClashSharesAddress(c, s1, id);
    }
    UnconditionalIsSeparate(c, s1, more);
  }

  // ---------------------------------------------------------------- such steps occur

  lemma Run3(c: Config, s: State, e: Event, f: Event, g: Event)
    requires c.Valid()
    ensures Run(c, s, [e, f, g]) == Next(c, Next(c, Next(c, s, e), f), g)
  {
    assert [e, f, g] == [e] + [f, g];
    RunFirst(c, s, e, [f, g]);
    Run2(c, Next(c, s, e), f, g);
  }

  /** A first login on an empty server. */
  lemma FirstLogin(c: Config, ip: nat) returns (events: seq<Event>, s: State)
    requires c.Valid() && Allocate(c.pool, {0, c.pool.size - 1}) == Some(ip)
    ensures AllUnconditional(events) && s == Run(c, Started(c, [], 0), events) && Quiet(s) && s.work == []
    ensures s.now == 0 && s.rows == [Session(1, 1, ip, 1, c.ttl, false)]
  {
    var s0 := Started(c, [], 0);
    CountOfOne(s0.rows, ActiveFor(1, 0));
    LoginSuccess(c, s0, 1, 1, 1);
    events, s := LoginEvents(1, 1, true, true, 1), LoggedIn(c, s0, 1, 1, 1);
  }

  /** With every grace period: a logout checks a session in its last second, and the sweep that
      begins in the next second lists it. */
  lemma SweepMeetsLogout(c: Config, ip: nat) returns (events: seq<Event>, e: Event)
    requires c.Valid() && Allocate(c.pool, {0, c.pool.size - 1}) == Some(ip)
    ensures SeparateRun(c, Started(c, [], 0), events)
    ensures var s := Run(c, Started(c, [], 0), events);
            e.Snapshot? && !Separate(s, e)
  {
    var s0 := Started(c, [], 0);
    var before, s1 := FirstLogin(c, ip);
    var after := [Tick(c.ttl), LogoutBegin(1), Tick(1)];
    Run3(c, s1, Tick(c.ttl), LogoutBegin(1), Tick(1));
    RunConcat(c, s0, before, after);
    events, e := before + after, Snapshot([0]);
    CountOfOne(s1.rows, ExpiredAt(c.ttl + 1));
    assert Lookup(s1.rows, 1) == Some(0);
    assert SweepOf(s1.rows, c.ttl + 1, [0]);
    UnconditionalIsSeparate(c, s0, before);
    ThreeSeparate(c, s1, Tick(c.ttl), LogoutBegin(1), Tick(1));
    SeparateConcat(c, s0, before, after);
  }

  lemma ThreeSeparate(c: Config, s: State, e: Event, f: Event, g: Event)
    requires c.Valid() && s.work == [] && Unconditional(e) && f.LogoutBegin? && Unconditional(g)
    requires Next(c, s, e).work == []
    ensures SeparateRun(c, s, [e, f, g])
  {
    assert [e, f, g][1..] == [f, g] && [f, g][1..] == [g];
    UnconditionalIsSeparate(c, Next(c, Next(c, s, e), f), [g]);
  }

  /** The session of a first login is listed and renewed. */
  lemma RenewedWhenListed(c: Config, s: State, ip: nat) returns (after: seq<Event>, s': State)
    requires c.Valid() && c.grace > 0 && Quiet(s) && s.work == [] && s.now == 0
    requires s.rows == [Session(1, 1, ip, 1, c.ttl, false)]
    ensures after == [Tick(c.ttl + 1), Snapshot([0]), RenewBegin(1), RenewEnd] && s' == Run(c, s, after)
    ensures Quiet(s') && s'.work == [0] && s'.now == c.ttl + 1
    ensures s'.rows == [Session(1, 1, ip, 1, c.ttl + 1 + c.ttl, false)]
  {
    after := [Tick(c.ttl + 1), Snapshot([0]), RenewBegin(1), RenewEnd];
    Run4(c, s, Tick(c.ttl + 1), Snapshot([0]), RenewBegin(1), RenewEnd);
    CountOfOne(s.rows, ExpiredAt(c.ttl + 1));
    assert SweepOf(s.rows, c.ttl + 1, [0]);
    assert Lookup(s.rows, 1) == Some(0);
    s' := Run(c, s, after);
  }

  /** With a grace period: a listed session is renewed before the reaper comes to it, and a
      logout takes it; requests served whole are enough for this. */
  lemma LogoutMeetsSweep(c: Config, ip: nat) returns (events: seq<Event>, e: Event)
    requires c.Valid() && c.grace > 0 && Allocate(c.pool, {0, c.pool.size - 1}) == Some(ip)
    ensures SeparateRun(c, Started(c, [], 0), events)
    ensures var s := Run(c, Started(c, [], 0), events);
            e.LogoutBegin? && Quiet(s) && !Separate(s, e) && !Late(s, e)
  {
    var s0 := Started(c, [], 0);
    var before, s1 := FirstLogin(c, ip);
    var after, s2 := RenewedWhenListed(c, s1, ip);
    RunConcat(c, s0, before, after);
    events, e := before + after, LogoutBegin(1);
    assert Lookup(s2.rows, 1) == Some(0);
    UnconditionalIsSeparate(c, s0, before);
    FourSeparate(c, s1, c.ttl + 1, [0]);
    SeparateConcat(c, s0, before, after);
  }

  lemma FourSeparate(c: Config, s: State, seconds: nat, ids: seq<nat>)
    requires c.Valid() && s.hand.Idle?
    ensures SeparateRun(c, s, [Tick(seconds), Snapshot(ids), RenewBegin(1), RenewEnd])
  {
    var rest := [RenewBegin(1), RenewEnd];
    assert [Tick(seconds), Snapshot(ids), RenewBegin(1), RenewEnd][1..] == [Snapshot(ids)] + rest;
    assert ([Snapshot(ids)] + rest)[1..] == rest;
    var s1 := Next(c, s, Tick(seconds));
    UnconditionalIsSeparate(c, Next(c, s1, Snapshot(ids)), rest);
  }
}

/** How the reaper keeps up with the sessions that expire, while requests are served. */
module LeaseBacklog {
  import opened Bytes
  import opened Sets
  import opened IpPool
  import opened Ownership
  import opened Lease
  import opened LeaseRuns
  import opened LeaseProgress

  // ---------------------------------------------------------------- requests during a sweep

  predicate ByReaper(e: Event) {
    e.ReapPeer? || e.ReapRelease? || e.ReapRevoke?
  }

  /** The clock and the serving thread. */
  predicate Beside(e: Event) {
    !ByReaper(e) && !e.Snapshot? && !e.Restart?
  }

  /** The effects of the reaper among the events. */
  function Reaping(events: seq<Event>): seq<Event> {
    if events == [] then []
    else (if ByReaper(events[0]) then [events[0]] else []) + Reaping(events[1..])
  }

  /** The reaper goes through its work, with anything of the serving thread in between. */
  predicate Interleaved(events: seq<Event>, work: seq<Event>) {
    Reaping(events) == work && forall e :: e in events ==> ByReaper(e) || Beside(e)
  }

  /** What the reaper still has to do with n sessions, the first of which it is at. */
  function LeftAt(phase: Phase, n: nat): seq<Event>
    requires n > 0
  {
    (match phase case Start => REAP_ONE case PeerGone => [ReapRelease, ReapRevoke] case IpFreed => [ReapRevoke])
    + ReapEvents(n - 1)
  }

  function Left(s: State): seq<Event> {
    if s.work == [] then [] else LeftAt(s.phase, |s.work|)
  }

  lemma LeftAfterOne(n: nat)
    requires n > 0
    ensures LeftAt(Start, n) == [ReapPeer] + LeftAt(PeerGone, n)
    ensures LeftAt(PeerGone, n) == [ReapRelease] + LeftAt(IpFreed, n)
    ensures LeftAt(IpFreed, n) == [ReapRevoke] + if n == 1 then [] else LeftAt(Start, n - 1)
  {}

  /** One event of an interleaving: the next effect of the reaper, or one beside it. */
  lemma LeftShrinks(c: Config, s: State, e: Event)
    requires c.Valid() && ListInTable(s) && (ByReaper(e) ==> Left(s) != [] && Left(s)[0] == e)
    requires ByReaper(e) || Beside(e)
    ensures var s' := Next(c, s, e);
            && ListInTable(s')
            && Left(s') == (if ByReaper(e) then Left(s)[1..] else Left(s))
            && s'.expirations + |s'.work| == s.expirations + |s.work|
  {
    if ByReaper(e) {
      ReaperShrinks(c, s, e);
    }
  }

  lemma ReaperShrinks(c: Config, s: State, e: Event)
    requires c.Valid() && ListInTable(s) && ByReaper(e) && Left(s) != [] && Left(s)[0] == e
    ensures var s' := Next(c, s, e);
            && ListInTable(s') && Left(s') == Left(s)[1..]
            && s'.expirations + |s'.work| == s.expirations + |s.work|
  {
    LeftAfterOne(|s.work|);
  }

  /** When the reaper is through, the list is worked off. */
  lemma {:induction false} InterleavedEnds(c: Config, s: State, events: seq<Event>)
    requires c.Valid() && ListInTable(s) && (s.phase != Start ==> s.work != []) && Interleaved(events, Left(s))
    ensures var s' := Run(c, s, events);
            && s'.work == [] && s'.phase == Start
            && s'.expirations == s.expirations + |s.work|
    decreases |events|
  {
    if events == [] {
      NothingLeft(s);
    } else {
      FirstOfInterleaved(events, Left(s));
      LeftShrinks(c, s, events[0]);
      InterleavedEnds(c, Next(c, s, events[0]), events[1..]);
    }
  }

  lemma NothingLeft(s: State)
    ensures Left(s) == [] <==> s.work == []
  {
    if s.work != [] {
      LeftAfterOne(|s.work|);
    }
  }

  lemma FirstOfInterleaved(events: seq<Event>, work: seq<Event>)
    requires events != [] && Interleaved(events, work)
    ensures ByReaper(events[0]) ==> work != [] && work[0] == events[0] && Interleaved(events[1..], work[1..])
    ensures !ByReaper(events[0]) ==> Beside(events[0]) && Interleaved(events[1..], work)
  {
    assert events[0] in events;
    if ByReaper(events[0]) {
      assert work == [events[0]] + Reaping(events[1..]);
    } else {
      assert [] + Reaping(events[1..]) == Reaping(events[1..]);
    }
  }

  /** In every run, a listed session stays listed until it is revoked. */
  lemma {:induction false} ListedUntilRevoked(c: Config, s: State, events: seq<Event>, id: nat)
    requires c.Valid() && id < |s.rows| && (id in s.work || s.rows[id].revoked)
    ensures var s' := Run(c, s, events);
            id < |s'.rows| && (id in s'.work || s'.rows[id].revoked)
    decreases |events|
  {
    if events != [] {
      NextKeepsRow(c, s, events[0], id);
      ListedOrRevoked(c, s, events[0], id);
      ListedUntilRevoked(c, Next(c, s, events[0]), events[1..], id);
    }
  }

  lemma ListedOrRevoked(c: Config, s: State, e: Event, id: nat)
    requires c.Valid() && id < |s.rows| && (id in s.work || s.rows[id].revoked)
    ensures var s' := Next(c, s, e);
            id < |s'.rows| && (id in s'.work || s'.rows[id].revoked)
  {
    if s.work != [] {
      assert s.work == [s.work[0]] + s.work[1..];
    }
  }

  /** A sweep with any requests and any time between its effects still revokes every session it
      lists, and counts each of them once. */
  lemma SweepAmongRequests(c: Config, s: State, ids: seq<nat>, during: seq<Event>)
    requires c.Valid() && SweepTaken(s, ids) && Interleaved(during, ReapEvents(|ids|))
    ensures var s' := Run(c, s, [Snapshot(ids)] + during);
            && s'.work == [] && s'.phase == Start && s'.expirations == s.expirations + |ids|
            && forall id | id in ids :: id < |s'.rows| && s'.rows[id].revoked
  {
    var s1 := Next(c, s, Snapshot(ids));
    RunFirst(c, s, Snapshot(ids), during);
    assert Left(s1) == ReapEvents(|ids|);
    InterleavedEnds(c, s1, during);
    forall id | id in ids
      ensures id < |Run(c, s1, during).rows| && Run(c, s1, during).rows[id].revoked
    {
      ListedUntilRevoked(c, s1, during, id);
    }
  }

  // ---------------------------------------------------------------- the backlog

  function Expired(rows: Table, now: int): set<nat> {
    set id | 0 <= id < |rows| && ExpiredAt(now)(rows[id])
  }

  /** The sessions that wait for the reaper. */
  function Backlog(s: State): set<nat> {
    Expired(s.rows, s.now)
  }

  lemma {:induction false} ExpiredIsCounted(rows: Table, now: int)
    ensures |Expired(rows, now)| == Count(rows, ExpiredAt(now))
    decreases |rows|
  {
    if rows == [] {
      assert Expired(rows, now) == {};
    } else {
      var n := |rows| - 1;
      ExpiredIsCounted(rows[..n], now);
      assert Expired(rows, now) == Expired(rows[..n], now) + if ExpiredAt(now)(rows[n]) then {n} else {};
    }
  }

  lemma BacklogIsCounted(s: State)
    ensures |Backlog(s)| == Count(s.rows, ExpiredAt(s.now))
  {
    ExpiredIsCounted(s.rows, s.now);
  }

  /** What the reaper does between two wake-ups, and the thread beside it: a pause, in which the
      process may also restart, and then a sweep with requests in between. */
  datatype Round = Round(pause: seq<Event>, ids: seq<nat>, during: seq<Event>)

  predicate Asleep(pause: seq<Event>) {
    forall e :: e in pause ==> !ByReaper(e) && !e.Snapshot?
  }

  function Paused(c: Config, s: State, r: Round): State
    requires c.Valid()
  {
    Run(c, s, r.pause)
  }

  function Swept(c: Config, s: State, r: Round): State
    requires c.Valid()
  {
    Run(c, Paused(c, s, r), [Snapshot(r.ids)] + r.during)
  }

  /** The sweep lists what the query finds when the pause is over. */
  predicate RoundOf(c: Config, s: State, r: Round)
    requires c.Valid()
  {
    && Asleep(r.pause)
    && SweepOf(Paused(c, s, r).rows, Paused(c, s, r).now, r.ids)
    && Interleaved(r.during, ReapEvents(|r.ids|))
  }

  predicate Sleeping(s: State) {
    s.work == [] && s.phase == Start
  }

  lemma {:induction false} PauseLeavesReaper(c: Config, s: State, pause: seq<Event>)
    requires c.Valid() && Sleeping(s) && Asleep(pause)
    ensures Sleeping(Run(c, s, pause))
    decreases |pause|
  {
    if pause != [] {
      assert !ByReaper(pause[0]) && !pause[0].Snapshot?;
      PauseLeavesReaper(c, Next(c, s, pause[0]), pause[1..]);
    }
  }

  /** One round: up to one hundred sessions less, and those more that newly expired. */
  lemma RoundDrains(c: Config, s: State, r: Round)
    requires c.Valid() && Sleeping(s) && RoundOf(c, s, r)
    ensures Sleeping(Swept(c, s, r))
    ensures var s1, s2 := Paused(c, s, r), Swept(c, s, r);
            && |Backlog(s1)| <= |Backlog(s)| + |Backlog(s1) - Backlog(s)|
            && |Backlog(s2)| <= |Backlog(s1)| - Min(SWEEP_LIMIT, |Backlog(s1)|) + |Backlog(s2) - Backlog(s1)|
  {
    var s1, s2 := Paused(c, s, r), Swept(c, s, r);
    PauseLeavesReaper(c, s, r.pause);
    Growth(Backlog(s), Backlog(s1));
    SweepAmongRequests(c, s1, r.ids, r.during);
    ListIsDrained(s1, s2, r.ids);
  }

  lemma ListIsDrained(s1: State, s2: State, ids: seq<nat>)
    requires SweepOf(s1.rows, s1.now, ids) && forall id | id in ids :: id < |s2.rows| && s2.rows[id].revoked
    ensures |Backlog(s2)| <= |Backlog(s1)| - Min(SWEEP_LIMIT, |Backlog(s1)|) + |Backlog(s2) - Backlog(s1)|
  {
    var listed := ValuesOfInjective(ids);
    BacklogIsCounted(s1);
    assert listed <= Backlog(s1) && listed !! Backlog(s2);
    Drain(Backlog(s1), listed, Backlog(s2));
  }

  // ---------------------------------------------------------------- many rounds

  function AfterRounds(c: Config, s: State, rounds: seq<Round>): State
    requires c.Valid()
    decreases |rounds|
  {
    if rounds == [] then s else AfterRounds(c, Swept(c, s, rounds[0]), rounds[1..])
  }

  /** A round in which at most a sessions newly expire in the pause, and at most d in the sweep. */
  predicate RoundBrings(c: Config, s: State, r: Round, a: nat, d: nat)
    requires c.Valid()
  {
    var s1, s2 := Paused(c, s, r), Swept(c, s, r);
    RoundOf(c, s, r) && |Backlog(s1) - Backlog(s)| <= a && |Backlog(s2) - Backlog(s1)| <= d
  }

  predicate RoundsBring(c: Config, s: State, rounds: seq<Round>, a: nat, d: nat)
    requires c.Valid()
    decreases |rounds|
  {
    rounds == [] ||
    (RoundBrings(c, s, rounds[0], a, d) && RoundsBring(c, Swept(c, s, rounds[0]), rounds[1..], a, d))
  }

  /** What is left of x when k steps are taken off. */
  function Rest(x: nat, step: nat, k: nat): nat {
    if k == 0 then x else Rest(x - Min(x, step), step, k - 1)
  }

  lemma {:induction false} RestIs(x: nat, step: nat, k: nat)
    ensures Rest(x, step, k) == x - Min(x, step * k)
    decreases k
  {
    if k > 0 {
      RestIs(x - Min(x, step), step, k - 1);
      assert step * k == step * (k - 1) + step;
      assert step * (k - 1) >= 0;
    }
  }

  /** Each number is d at most, or a step less than the one before. */
  predicate Falls(sizes: seq<nat>, step: nat, d: nat) {
    forall k :: 0 <= k < |sizes| - 1 ==> sizes[k + 1] <= d || sizes[k + 1] + step <= sizes[k]
  }

  lemma {:induction false} FallsTo(sizes: seq<nat>, step: nat, d: nat, x: nat)
    requires sizes != [] && Falls(sizes, step, d) && sizes[0] <= d + x
    ensures sizes[|sizes| - 1] <= d + Rest(x, step, |sizes| - 1)
    decreases |sizes|
  {
    if |sizes| > 1 {
      FallsTo(sizes[1..], step, d, x - Min(x, step));
    }
  }

  /** The backlog before and after each round. */
  function Sizes(c: Config, s: State, rounds: seq<Round>): (sizes: seq<nat>)
    requires c.Valid()
    ensures |sizes| == |rounds| + 1 && sizes[0] == |Backlog(s)|
    ensures sizes[|rounds|] == |Backlog(AfterRounds(c, s, rounds))|
    decreases |rounds|
  {
    [|Backlog(s)|] + if rounds == [] then [] else Sizes(c, Swept(c, s, rounds[0]), rounds[1..])
  }

  lemma {:induction false} SizesFall(c: Config, s: State, rounds: seq<Round>, a: nat, d: nat)
    requires c.Valid() && Sleeping(s) && a + d <= SWEEP_LIMIT && RoundsBring(c, s, rounds, a, d)
    ensures Falls(Sizes(c, s, rounds), SWEEP_LIMIT - a - d, d)
    decreases |rounds|
  {
    if rounds != [] {
      var s' := Swept(c, s, rounds[0]);
      RoundFalls(c, s, rounds[0], a, d);
      SizesFall(c, s', rounds[1..], a, d);
      FallsLonger(|Backlog(s)|, Sizes(c, s', rounds[1..]), SWEEP_LIMIT - a - d, d);
    }
  }

  lemma FallsLonger(n: nat, sizes: seq<nat>, step: nat, d: nat)
    requires sizes != [] && Falls(sizes, step, d) && (sizes[0] <= d || sizes[0] + step <= n)
    ensures Falls([n] + sizes, step, d)
  {}

  lemma RoundFalls(c: Config, s: State, r: Round, a: nat, d: nat)
    requires c.Valid() && Sleeping(s) && a + d <= SWEEP_LIMIT && RoundBrings(c, s, r, a, d)
    ensures Sleeping(Swept(c, s, r))
    ensures var n := |Backlog(Swept(c, s, r))|;
            n <= d || n + (SWEEP_LIMIT - a - d) <= |Backlog(s)|
  {
    RoundDrains(c, s, r);
  }

  /** As long as fewer than one hundred sessions newly expire from one wake-up of the reaper to
      the next, whatever requests and restarts come in between, every round brings the backlog
      down by what is missing to one hundred, until it is no more than what expires during a
      sweep. */
  lemma BacklogIsBounded(c: Config, s: State, rounds: seq<Round>, a: nat, d: nat, step: nat)
    requires c.Valid() && Sleeping(s) && a + d + step == SWEEP_LIMIT && RoundsBring(c, s, rounds, a, d)
    ensures var n := |Backlog(s)|;
            |Backlog(AfterRounds(c, s, rounds))| <= d + n - Min(n, step * |rounds|)
  {
    SizesFall(c, s, rounds, a, d);
    var sizes := Sizes(c, s, rounds);
    FallsTo(sizes, step, d, |Backlog(s)|);
    RestIs(|Backlog(s)|, step, |rounds|);
  }

  /** The pauses leave the backlog as it is, and nothing comes between the effects of a sweep. */
  predicate QuietRounds(c: Config, s: State, rounds: seq<Round>)
    requires c.Valid()
    decreases |rounds|
  {
    rounds == [] ||
    (var r := rounds[0];
     && RoundOf(c, s, r) && r.during == ReapEvents(|r.ids|)
     && Backlog(Paused(c, s, r)) == Backlog(s)
     && QuietRounds(c, Swept(c, s, r), rounds[1..]))
  }

  lemma {:induction false} QuietRoundsDrain(c: Config, s: State, rounds: seq<Round>)
    requires c.Valid() && Sleeping(s) && QuietRounds(c, s, rounds)
    ensures |Backlog(AfterRounds(c, s, rounds))| == Rest(|Backlog(s)|, SWEEP_LIMIT, |rounds|)
    decreases |rounds|
  {
    if rounds != [] {
      var r := rounds[0];
      var s1 := Paused(c, s, r);
      PauseLeavesReaper(c, s, r.pause);
      var s2 := SweepRevokes(c, s1, r.ids);
      BacklogIsCounted(s1);
      BacklogIsCounted(s2);
      QuietRoundsDrain(c, s2, rounds[1..]);
    }
  }

  /** With nothing newly expired and nothing renewed, k rounds leave exactly what n is above
      100 k, in any order that the query may list them. */
  lemma RoundsClearBacklog(c: Config, s: State, rounds: seq<Round>)
    requires c.Valid() && Sleeping(s) && QuietRounds(c, s, rounds)
    ensures var n := |Backlog(s)|;
            |Backlog(AfterRounds(c, s, rounds))| == n - Min(n, SWEEP_LIMIT * |rounds|)
  {
    QuietRoundsDrain(c, s, rounds);
    RestIs(|Backlog(s)|, SWEEP_LIMIT, |rounds|);
  }
}

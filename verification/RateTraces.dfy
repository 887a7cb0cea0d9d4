/** Histories of served logins that show what the limiter does not do. */
module RateTraces {
  import opened Bytes
  import opened RateLimit

  /** As logins are served: a failure is recorded only when the check before it let the client
      pass. */
  predicate Served(h: seq<Action>) {
    h == [] ||
    (var front, a := h[..|h| - 1], h[|h| - 1];
     Served(front) && (a.Fail? ==> Passed(front, a.ip, a.at)))
  }

  predicate Passed(h: seq<Action>, ip: Client, at: int) {
    h != [] && h[|h| - 1] == Check(ip, at) && !Limited(After(h[..|h| - 1]), ip, at)
  }

  /** A login that fails. */
  function Attempt(ip: Client, at: int): seq<Action> {
    [Check(ip, at), Fail(ip, at)]
  }

  lemma AfterAttempt(h: seq<Action>, ip: Client, at: int)
    ensures var t := Checked(After(h), ip, at);
            After(h + Attempt(ip, at)) == Record(t, ip, at)
    ensures Served(h) && !Limited(After(h), ip, at) ==> Served(h + Attempt(ip, at))
  {
    var h1 := h + [Check(ip, at)];
    var h2 := h + Attempt(ip, at);
    assert h1[..|h|] == h;
    assert h2 == h1 + [Fail(ip, at)] && h2[..|h1|] == h1;
    if Served(h) && !Limited(After(h), ip, at) {
      assert Served(h1) && Passed(h1, ip, at);
    }
  }

  lemma AttemptFailures(h: seq<Action>, ip: Client, at: int, client: Client, from: int)
    ensures Failures(h + Attempt(ip, at), client, from)
            == Failures(h, client, from) + if client == ip && at >= from then 1 else 0
  {
    var h1 := h + [Check(ip, at)];
    assert h1[..|h|] == h;
    assert h + Attempt(ip, at) == h1 + [Fail(ip, at)];
    assert (h1 + [Fail(ip, at)])[..|h1|] == h1;
  }

  lemma AttemptWindow(h: seq<Action>, ip: Client, at: int, client: Client)
    ensures var w := WindowOf(h, client);
            WindowOf(h + Attempt(ip, at), client) ==
            if client != ip then w else Some(Counted(w, at))
  {
    var h1 := h + [Check(ip, at)];
    assert h1[..|h|] == h;
    assert h + Attempt(ip, at) == h1 + [Fail(ip, at)];
    assert (h1 + [Fail(ip, at)])[..|h1|] == h1;
  }

  // ---------------------------------------------------------------- regular histories

  /** Served and in order; the client found a slot at its failures, and no check from action n on
      left a gap in front of its entry. */
  predicate Regular(h: seq<Action>, ip: Client, at: int, n: nat) {
    Served(h) && InOrder(h) && NotLater(h, at) && Slotted(h, ip) && GapFreeFrom(h, ip, n)
  }

  lemma AppendInOrder(h: seq<Action>, a: Action, at: int)
    requires InOrder(h) && NotLater(h, at) && at <= a.at
    ensures InOrder(h + [a]) && NotLater(h + [a], a.at)
  {}

  /** A check of the client itself leaves nothing in front of its entry. */
  lemma RegularCheck(h: seq<Action>, ip: Client, at: int, later: int, n: nat)
    requires Regular(h, ip, at, n) && at <= later
    ensures Regular(h + [Check(ip, later)], ip, later, n)
  {
    assert (h + [Check(ip, later)])[..|h|] == h;
    AppendInOrder(h, Check(ip, later), at);
  }

  lemma RegularFail(h1: seq<Action>, h: seq<Action>, ip: Client, at: int, n: nat)
    requires Regular(h1, ip, at, n) && h1 == h + [Check(ip, at)] && !Limited(After(h), ip, at)
    requires Probe(After(h1), ip, 0).Some?
    ensures Regular(h1 + [Fail(ip, at)], ip, at, n)
  {
    assert (h1 + [Fail(ip, at)])[..|h1|] == h1 && h1[..|h|] == h;
    AppendInOrder(h1, Fail(ip, at), at);
  }

  /** What others do, as long as they are served and leave no gap. */
  lemma RegularOther(h: seq<Action>, a: Action, ip: Client, at: int, n: nat)
    requires Regular(h, ip, at, n) && a.ip != ip && at <= a.at
    requires a.Fail? ==> Passed(h, a.ip, a.at)
    requires a.Check? ==> Visible(Apply(After(h), a), ip, a.at)
    ensures Regular(h + [a], ip, a.at, n)
  {
    assert (h + [a])[..|h|] == h;
    AppendInOrder(h, a, at);
  }

  /** A login that fails is served, and keeps the history regular. */
  lemma RegularAttempt(h: seq<Action>, ip: Client, at: int, later: int, n: nat)
    requires Regular(h, ip, at, n) && at <= later && !Limited(After(h), ip, later)
    requires Probe(Checked(After(h), ip, later), ip, 0).Some?
    ensures Regular(h + Attempt(ip, later), ip, later, n)
  {
    var h1 := h + [Check(ip, later)];
    assert h1[..|h|] == h && h + Attempt(ip, later) == h1 + [Fail(ip, later)];
    RegularCheck(h, ip, at, later, n);
    RegularFail(h1, h, ip, later, n);
  }

  // ---------------------------------------------------------------- one client

  function Home(ip: Client): (s: nat)
    ensures s < MAX_TRACKED_IPS
  {
    Slot(ip, 0)
  }

  /** A table with at most one entry, where the client's first probe leads. */
  function Lone(ip: Client, e: Entry): Slots {
    Empty()[Home(ip) := e]
  }

  predicate Own(e: Entry, ip: Client) {
    e.ip == [] || e.ip == ip
  }

  /** What a check leaves of an entry. */
  function Left(e: Entry, at: int): Entry {
    if e.ip != [] && Over(e, at) then e.(ip := [], failCount := 0) else e
  }

  predicate Refused(e: Entry, at: int) {
    e.ip != [] && !Over(e, at) && e.failCount >= MAX_FAILS_PER_IP
  }

  lemma LoneAttempt(ip: Client, e: Entry, at: int)
    requires Own(e, ip)
    ensures Limited(Lone(ip, e), ip, at) == Refused(e, at)
    ensures Checked(Lone(ip, e), ip, at) == Lone(ip, Left(e, at))
    ensures Record(Lone(ip, e), ip, at) == Lone(ip, Recorded(e, ip, at))
  {
    var t := Lone(ip, e);
    assert Probe(t, ip, 0) == Some(Home(ip));
  }

  /** What the trace keeps. */
  predicate Alone(h: seq<Action>, ip: Client, e: Entry, at: int) {
    After(h) == Lone(ip, e) && Own(e, ip) && Regular(h, ip, at, 0)
  }

  lemma NextAttempt(h: seq<Action>, ip: Client, e: Entry, at: int, later: int)
    requires Alone(h, ip, e, at) && at <= later && !Refused(e, later)
    ensures Alone(h + Attempt(ip, later), ip, Recorded(Left(e, later), ip, later), later)
  {
    LoneAttempt(ip, e, later);
    LoneAttempt(ip, Left(e, later), later);
    LoneProbe(ip, Left(e, later));
    AfterAttempt(h, ip, later);
    RegularAttempt(h, ip, at, later, 0);
  }

  lemma LoneProbe(ip: Client, e: Entry)
    requires Own(e, ip)
    ensures Probe(Lone(ip, e), ip, 0) == Some(Home(ip))
  {}

  /** Failed logins of one client at those times. */
  function Attempts(ip: Client, times: seq<int>): seq<Action> {
    if times == [] then [] else Attempts(ip, times[..|times| - 1]) + Attempt(ip, times[|times| - 1])
  }

  function EntryAfter(ip: Client, times: seq<int>): Entry {
    if times == [] then Entry([], 0, 0, 0)
    else
      var at := times[|times| - 1];
      Recorded(Left(EntryAfter(ip, times[..|times| - 1]), at), ip, at)
  }

  /** The times are in order, and no attempt is refused. */
  predicate AllServed(ip: Client, times: seq<int>) {
    times == [] ||
    (var front, at := times[..|times| - 1], times[|times| - 1];
     AllServed(ip, front) && !Refused(EntryAfter(ip, front), at) && (front == [] || front[|front| - 1] <= at))
  }

  function Since(times: seq<int>, from: int): nat {
    if times == [] then 0
    else Since(times[..|times| - 1], from) + if times[|times| - 1] >= from then 1 else 0
  }

  lemma {:induction false} AttemptsAlone(ip: Client, times: seq<int>, now: int)
    requires AllServed(ip, times) && (times == [] || times[|times| - 1] <= now)
    ensures Alone(Attempts(ip, times), ip, EntryAfter(ip, times), now)
    decreases |times|
  {
    if times == [] {
      assert Lone(ip, EntryAfter(ip, times)) == Empty();
    } else {
      var front, at := times[..|times| - 1], times[|times| - 1];
      AttemptsAlone(ip, front, at);
      NextAttempt(Attempts(ip, front), ip, EntryAfter(ip, front), at, at);
    }
  }

  lemma {:induction false} AttemptsSince(ip: Client, times: seq<int>, from: int)
    ensures Failures(Attempts(ip, times), ip, from) == Since(times, from)
  {
    if times != [] {
      var front := times[..|times| - 1];
      AttemptsSince(ip, front, from);
      AttemptFailures(Attempts(ip, front), ip, times[|times| - 1], ip, from);
    }
  }

  const TIMES: seq<int> := [0, 590, 591, 592, 593, 601]

  /** The window does not slide: served failures at 0, 590, 591, 592, 593 and 601 seconds leave
      a client free at 601, though five of them are within ten minutes. No check left a gap, and
      the client always found its slot. */
  lemma WindowDoesNotSlide(ip: Client)
    ensures var h := Attempts(ip, TIMES);
            && Regular(h, ip, 601, 0)
            && Failures(h, ip, 601 - FAIL_WINDOW_SECONDS) == 5
            && !Limited(After(h), ip, 601)
  {
    EntriesOfTimes(ip);
    AttemptsAlone(ip, TIMES, 601);
    AttemptsSince(ip, TIMES, 1);
    LoneAttempt(ip, Entry(ip, 1, 601, 601), 601);
  }

  lemma EntriesOfTimes(ip: Client)
    ensures AllServed(ip, TIMES) && EntryAfter(ip, TIMES) == Entry(ip, 1, 601, 601) && Since(TIMES, 1) == 5
  {
    EntriesOfThree(ip);
    OneTime(ip, [0, 590, 591], 592);
    OneTime(ip, [0, 590, 591, 592], 593);
    OneTime(ip, [0, 590, 591, 592, 593], 601);
    assert [0, 590, 591] + [592] == [0, 590, 591, 592];
    assert [0, 590, 591, 592] + [593] == [0, 590, 591, 592, 593];
    assert [0, 590, 591, 592, 593] + [601] == TIMES;
  }

  lemma EntriesOfThree(ip: Client)
    ensures var times := [0, 590, 591];
            AllServed(ip, times) && EntryAfter(ip, times) == Entry(ip, 3, 0, 591) && Since(times, 1) == 2
  {
    OneTime(ip, [], 0);
    OneTime(ip, [0], 590);
    OneTime(ip, [0, 590], 591);
    assert [] + [0] == [0] && [0] + [590] == [0, 590] && [0, 590] + [591] == [0, 590, 591];
  }

  lemma OneTime(ip: Client, times: seq<int>, at: int)
    ensures var e := EntryAfter(ip, times);
            && EntryAfter(ip, times + [at]) == Recorded(Left(e, at), ip, at)
            && AllServed(ip, times + [at]) ==
               (AllServed(ip, times) && !Refused(e, at) && (times == [] || times[|times| - 1] <= at))
            && Since(times + [at], 1) == Since(times, 1) + if at >= 1 then 1 else 0
  {
    assert (times + [at])[..|times|] == times;
  }

  // ---------------------------------------------------------------- a gap and what follows

  /** The table when the client has failed n times more, in a slot that a check emptied. */
  function Refilled(t: Slots, r: nat, ip: Client, n: nat, at: int): Slots
    requires r < MAX_TRACKED_IPS
  {
    if n == 0 then t else t[r := Entry(ip, n, at, at)]
  }

  lemma RefilledAttempt(t: Slots, r: nat, ip: Client, n: nat, at: int)
    requires Emptied(t, ip, r) && n < MAX_FAILS_PER_IP
    ensures var t' := Refilled(t, r, ip, n, at);
            && !Limited(t', ip, at) && Checked(t', ip, at) == t' && Probe(t', ip, 0) == Some(r)
            && Record(t', ip, at) == Refilled(t, r, ip, n + 1, at)
  {
    ProbeOwn(t, Entry(ip, n, at, at), ip, 0);
  }

  /** The history, and then n failed logins at one time. */
  function Then(h: seq<Action>, ip: Client, at: int, n: nat): seq<Action> {
    if n == 0 then h else Then(h, ip, at, n - 1) + Attempt(ip, at)
  }

  lemma {:induction false} ThenExtends(h: seq<Action>, ip: Client, at: int, n: nat)
    ensures h <= Then(h, ip, at, n)
    decreases n
  {
    if n > 0 {
      ThenExtends(h, ip, at, n - 1);
    }
  }

  /** The client's next failure goes to that slot, which is empty. */
  predicate Emptied(t: Slots, ip: Client, r: nat) {
    Probe(t, ip, 0) == Some(r) && t[r].ip == []
  }

  /** n failures have gone there. */
  predicate Filled(h: seq<Action>, t: Slots, ip: Client, at: int, r: nat, n: nat, m: nat)
    requires r < MAX_TRACKED_IPS
  {
    Regular(h, ip, at, m) && After(h) == Refilled(t, r, ip, n, at)
  }

  lemma {:induction false} Refills(h: seq<Action>, t: Slots, ip: Client, at: int, r: nat, n: nat, m: nat)
    requires Emptied(t, ip, r) && n < MAX_FAILS_PER_IP && Filled(h, t, ip, at, r, 0, m)
    ensures Filled(Then(h, ip, at, n), t, ip, at, r, n, m)
    decreases n
  {
    if n == 0 {
      RefillsNone(h, t, ip, at, r, n, m);
    } else {
      Refills(h, t, ip, at, r, n - 1, m);
      RefillsNext(h, t, ip, at, r, n - 1, n, m);
    }
  }

  lemma RefillsNone(h: seq<Action>, t: Slots, ip: Client, at: int, r: nat, n: nat, m: nat)
    requires n == 0 && Emptied(t, ip, r) && Filled(h, t, ip, at, r, 0, m)
    ensures Filled(Then(h, ip, at, n), t, ip, at, r, n, m)
  {
    assert Then(h, ip, at, n) == h;
  }

  lemma RefillsNext(h: seq<Action>, t: Slots, ip: Client, at: int, r: nat, k: nat, n: nat, m: nat)
    requires Emptied(t, ip, r) && n == k + 1 && k < MAX_FAILS_PER_IP && Filled(Then(h, ip, at, k), t, ip, at, r, k, m)
    ensures Filled(Then(h, ip, at, n), t, ip, at, r, n, m)
  {
    RefillsOnce(Then(h, ip, at, k), t, ip, at, r, k, m);
  }

  lemma RefillsOnce(h: seq<Action>, t: Slots, ip: Client, at: int, r: nat, n: nat, m: nat)
    requires Emptied(t, ip, r) && n < MAX_FAILS_PER_IP && Filled(h, t, ip, at, r, n, m)
    ensures Filled(h + Attempt(ip, at), t, ip, at, r, n + 1, m)
  {
    RefilledAttempt(t, r, ip, n, at);
    AfterAttempt(h, ip, at);
    RegularAttempt(h, ip, at, at, m);
  }

  /** While the window goes on. */
  lemma {:induction false} WindowGoesOn(h: seq<Action>, ip: Client, at: int, w: Window, n: nat)
    requires WindowOf(h, ip) == Some(w) && at - w.first <= FAIL_WINDOW_SECONDS
    ensures WindowOf(Then(h, ip, at, n), ip) == Some(Window(w.first, w.count + n))
    decreases n
  {
    if n > 0 {
      WindowGoesOn(h, ip, at, w, n - 1);
      AttemptWindow(Then(h, ip, at, n - 1), ip, at, ip);
    }
  }

  /** A check of a that leaves a gap in front of the live entry of a client. */
  lemma GapIsEmptied(t: Slots, a: Client, ip: Client, at: int, w: Option<Window>) returns (r: nat, s: nat)
    requires Faithful(t, ip, w, at) && a != ip && !Visible(Checked(t, a, at), ip, at)
    ensures var t' := Checked(t, a, at);
            && r < MAX_TRACKED_IPS && s < MAX_TRACKED_IPS && r != s
            && Probe(t', ip, 0) == Some(r) && t'[r].ip == []
            && t'[s] == t[s] && t[s].ip == ip && Found(t, ip) == Some(s) && !NoneOrOver(w, at)
  {
    var t' := Checked(t, a, at);
    s :| 0 <= s < MAX_TRACKED_IPS && t'[s].ip == ip && !Over(t'[s], at) && Probe(t', ip, 0) != Some(s);
    assert t'[s] == t[s];
    r := Found(t, a).value;
    ProbeEmptied(t, t'[r], r, ip, s, 0);
  }

  /** Emptying another slot either leaves a probe as it was or makes it stop there. */
  lemma {:induction false} ProbeEmptied(t: Slots, e: Entry, r: nat, ip: Client, s: nat, i: nat)
    requires r < MAX_TRACKED_IPS && e.ip == [] && Probe(t, ip, i) == Some(s)
    ensures Probe(t[r := e], ip, i) == Some(s) || Probe(t[r := e], ip, i) == Some(r)
    decreases PROBES - i
  {
    if !(t[Slot(ip, i)].ip == [] || t[Slot(ip, i)].ip == ip) {
      ProbeEmptied(t, e, r, ip, s, i + 1);
    }
  }

  /** How a history may go on. */
  predicate Continues(h: seq<Action>, h': seq<Action>, ip: Client, now: int) {
    h <= h' && Regular(h', ip, now, |h|)
  }

  /** After such a check the client is free, where it should be refused, with a few failures
      more. */
  lemma GapLosesFailures(h: seq<Action>, a: Client, ip: Client, at: int) returns (h': seq<Action>, n: nat)
    requires Regular(h, ip, at, 0) && a != ip && !Visible(After(h + [Check(a, at)]), ip, at)
    ensures WindowOf(h, ip).Some? && n == Max(0, MAX_FAILS_PER_IP - WindowOf(h, ip).value.count)
    ensures h' == Then(h + [Check(a, at)], ip, at, n) && Continues(h + [Check(a, at)], h', ip, at)
    ensures ShouldBeLimited(h', ip, at) && !Limited(After(h'), ip, at)
    ensures n > 0 ==> TwoEntries(After(h'), ip)
  {
    var h1 := h + [Check(a, at)];
    assert h1[..|h|] == h;
    var w := WindowOf(h, ip);
    TableIsFaithful(h, ip, at);
    var r, s := GapIsEmptied(After(h), a, ip, at, w);
    EntriesAreBacked(h);
    assert Backed(After(h)[s], h);
    n := Max(0, MAX_FAILS_PER_IP - w.value.count);
    OtherCheckIsRegular(h, a, ip, at);
    Refills(h1, After(h1), ip, at, r, n, |h1|);
    WindowGoesOn(h1, ip, at, w.value, n);
    RefilledAttempt(After(h1), r, ip, n, at);
    ThenExtends(h1, ip, at, n);
    h' := Then(h1, ip, at, n);
    if n > 0 {
      assert After(h')[r].ip == ip && After(h')[s].ip == ip;
    }
  }

  lemma OtherCheckIsRegular(h: seq<Action>, a: Client, ip: Client, at: int)
    requires Regular(h, ip, at, 0) && a != ip
    ensures var h1 := h + [Check(a, at)];
            Regular(h1, ip, at, |h1|) && WindowOf(h1, ip) == WindowOf(h, ip)
  {
    assert (h + [Check(a, at)])[..|h|] == h;
    AppendInOrder(h, Check(a, at), at);
  }

  lemma {:induction false} GapFreeJoins(h: seq<Action>, ip: Client, n: nat)
    requires n <= |h| && GapFree(h[..n], ip) && GapFreeFrom(h, ip, n)
    ensures GapFree(h, ip)
    decreases |h|
  {
    if n == |h| {
      assert h[..n] == h;
    } else {
      var front := h[..|h| - 1];
      assert front[..n] == h[..n];
      if !StartsAfresh(front, h[|h| - 1], ip) {
        GapFreeJoins(front, ip, n);
      }
    }
  }

  /** Exactly the checks that leave no gap in front of a client's live entry are harmless to it:
      in every history that goes on after the check in order, with a slot for every failure and
      without another gap, the client is refused exactly when it should be. */
  lemma CheckHarmlessExactly(h: seq<Action>, a: Client, ip: Client, at: int)
    requires Regular(h, ip, at, 0) && a != ip
    ensures var h1 := h + [Check(a, at)];
            Visible(After(h1), ip, at) <==>
            forall h', now :: Continues(h1, h', ip, now) ==>
                                (Limited(After(h'), ip, now) <==> ShouldBeLimited(h', ip, now))
  {
    var h1 := h + [Check(a, at)];
    assert h1[..|h|] == h;
    if Visible(After(h1), ip, at) {
      forall h', now | Continues(h1, h', ip, now)
        ensures Limited(After(h'), ip, now) <==> ShouldBeLimited(h', ip, now)
      {
        assert h'[..|h1|] == h1;
        GapFreeJoins(h', ip, |h1|);
        LimitIsComplete(h', ip, now);
      }
    } else {
      var h', n := GapLosesFailures(h, a, ip, at);
    }
  }

  // ---------------------------------------------------------------- two clients

  lemma ModShift(x: nat, k: nat)
    ensures (x + MAX_TRACKED_IPS * k) % MAX_TRACKED_IPS == x % MAX_TRACKED_IPS
  {}

  /** Reduction may be left to the end. */
  lemma ModStep(x: nat, c: nat)
    ensures (33 * (x % MAX_TRACKED_IPS) + c) % MAX_TRACKED_IPS == (33 * x + c) % MAX_TRACKED_IPS
  {
    ModShift(33 * (x % MAX_TRACKED_IPS) + c, 33 * (x / MAX_TRACKED_IPS));
  }

  lemma ReduceTwice(x: nat)
    ensures x % UINT_RANGE % MAX_TRACKED_IPS == x % MAX_TRACKED_IPS
  {
    ModShift(x % UINT_RANGE, 4194304 * (x / UINT_RANGE));
  }

  /** One more character, as far as the slot is concerned. */
  lemma HashAppend(t: seq<byte>, c: byte)
    ensures Hash(t + [c]) % MAX_TRACKED_IPS == (33 * (Hash(t) % MAX_TRACKED_IPS) + c) % MAX_TRACKED_IPS
  {
    assert (t + [c])[..|t|] == t;
    ReduceTwice(33 * Hash(t) + c);
    ModStep(Hash(t), c);
  }

  lemma ThreeSteps(r: nat, a: nat, b: nat, c: nat)
    ensures (33 * ((33 * ((33 * r + a) % MAX_TRACKED_IPS) + b) % MAX_TRACKED_IPS) + c) % MAX_TRACKED_IPS
            == (35937 * r + 1089 * a + 33 * b + c) % MAX_TRACKED_IPS
  {
    ModStep(33 * r + a, b);
    ModStep(33 * (33 * r + a) + b, c);
  }

  lemma HashOfThree(t: seq<byte>, a: byte, b: byte, c: byte)
    ensures Hash(t + [a, b, c]) % MAX_TRACKED_IPS
            == (35937 * (Hash(t) % MAX_TRACKED_IPS) + 1089 * a + 33 * b + c) % MAX_TRACKED_IPS
  {
    HashAppend(t, a);
    HashAppend(t + [a], b);
    HashAppend(t + [a] + [b], c);
    assert t + [a] + [b] + [c] == t + [a, b, c];
    ThreeSteps(Hash(t) % MAX_TRACKED_IPS, a, b, c);
  }

  /** Addresses share their slots with others: with any beginning, those that end in 120 and in
      201 do. */
  lemma AddressesCollide(t: cstr)
    ensures Hash(t + [0x31, 0x32, 0x30]) % MAX_TRACKED_IPS == Hash(t + [0x32, 0x30, 0x31]) % MAX_TRACKED_IPS
  {
    HashOfThree(t, 0x31, 0x32, 0x30);
    HashOfThree(t, 0x32, 0x30, 0x31);
    ModShift(35937 * (Hash(t) % MAX_TRACKED_IPS) + 1089 * 0x31 + 33 * 0x32 + 0x30, 1);
  }

  /** A table with an entry of a at home, and one in the next slot. */
  function Pair(a: Client, ea: Entry, eb: Entry): Slots {
    Lone(a, ea)[(Home(a) + 1) % MAX_TRACKED_IPS := eb]
  }

  predicate Collide(a: Client, b: Client) {
    a != b && Home(a) == Home(b)
  }

  lemma PairProbes(a: Client, b: Client, ea: Entry, eb: Entry)
    requires Collide(a, b) && Own(eb, b)
    ensures Own(ea, a) ==> Probe(Pair(a, ea, eb), a, 0) == Some(Home(a))
    ensures Own(ea, b) ==> Probe(Pair(a, ea, eb), b, 0) == Some(Home(a))
    ensures ea.ip == a ==> Probe(Pair(a, ea, eb), b, 0) == Some((Home(a) + 1) % MAX_TRACKED_IPS)
  {
    assert Slot(b, 1) == (Home(a) + 1) % MAX_TRACKED_IPS;
    assert Slot(b, 1) != Slot(b, 0);
  }

  predicate TwoEntries(t: Slots, ip: Client) {
    exists s, s' :: 0 <= s < MAX_TRACKED_IPS && 0 <= s' < MAX_TRACKED_IPS && s != s' && t[s].ip == ip && t[s'].ip == ip
  }

  /** Such checks occur: any two clients that share their slots fail one after the other, and the
      first comes back when its window is over. The second has two entries then and is free,
      though its window holds five failures. */
  lemma GapBreaksCompleteness(a: Client, b: Client) returns (h: seq<Action>, h': seq<Action>)
    requires Collide(a, b)
    ensures h == Attempt(a, 0) + Attempt(b, 500) && Regular(h, b, 601, 0)
    ensures !Visible(After(h + [Check(a, 601)]), b, 601) && Continues(h + [Check(a, 601)], h', b, 601)
    ensures ShouldBeLimited(h', b, 601) && !Limited(After(h'), b, 601) && TwoEntries(After(h'), b)
  {
    h := Attempt(a, 0) + Attempt(b, 500);
    TwoAttempts(a, b);
    var h1 := h + [Check(a, 601)];
    assert h1[..|h|] == h;
    PairGap(a, b, Entry(a, 1, 0, 0), Entry(b, 1, 500, 500), 601);
    var n;
    h', n := GapLosesFailures(h, a, b, 601);
  }

  lemma PairGap(a: Client, b: Client, ea: Entry, eb: Entry, at: int)
    requires Collide(a, b) && ea.ip == a && eb.ip == b && Over(ea, at) && !Over(eb, at)
    ensures !Visible(Checked(Pair(a, ea, eb), a, at), b, at)
  {
    var ea1 := ea.(ip := [], failCount := 0);
    PairProbes(a, b, ea, eb);
    assert Checked(Pair(a, ea, eb), a, at) == Pair(a, ea1, eb);
    PairProbes(a, b, ea1, eb);
    assert Pair(a, ea1, eb)[(Home(a) + 1) % MAX_TRACKED_IPS] == eb;
  }

  lemma EmptyTable(h: seq<Action>, a: Client, at: int)
    requires h == []
    ensures !Limited(After(h), a, at) && Checked(After(h), a, at) == After(h)
    ensures After(h) == Lone(a, Entry([], 0, 0, 0)) && forall ip: Client :: Visible(After(h), ip, at)
  {
    assert Lone(a, Entry([], 0, 0, 0)) == Empty();
    LoneAttempt(a, Entry([], 0, 0, 0), at);
  }

  /** The first failure of all. */
  lemma FirstAttempt(h: seq<Action>, a: Client, b: Client, at: int)
    requires h == [] && a != b
    ensures var h' := h + Attempt(a, at);
            After(h') == Lone(a, Entry(a, 1, at, at)) && Regular(h', b, at, 0) && WindowOf(h', b).None?
  {
    EmptyTable(h, a, at);
    LoneAttempt(a, Entry([], 0, 0, 0), at);
    AfterAttempt(h, a, at);
    AttemptWindow(h, a, at, b);
    FirstRegular(h, a, b, at);
  }

  lemma FirstRegular(h: seq<Action>, a: Client, b: Client, at: int)
    requires h == [] && a != b
    ensures Regular(h + Attempt(a, at), b, at, 0)
  {
    var h1 := h + [Check(a, at)];
    EmptyTable(h, a, at);
    RegularOther(h, Check(a, at), b, at, 0);
    assert h1[..|h|] == h && h + Attempt(a, at) == h1 + [Fail(a, at)];
    RegularOther(h1, Fail(a, at), b, at, 0);
  }

  lemma TwoAttempts(a: Client, b: Client)
    requires Collide(a, b)
    ensures var h := Attempt(a, 0) + Attempt(b, 500);
            && After(h) == Pair(a, Entry(a, 1, 0, 0), Entry(b, 1, 500, 500))
            && Regular(h, b, 601, 0) && WindowOf(h, b) == Some(Window(500, 1))
  {
    FirstAttempt([], a, b, 0);
    assert [] + Attempt(a, 0) == Attempt(a, 0);
    SecondAttempt(Attempt(a, 0), a, b, Entry(a, 1, 0, 0), 0, 500);
  }

  /** The other client fails while the first stands in its way. */
  lemma SecondAttempt(h: seq<Action>, a: Client, b: Client, ea: Entry, at: int, later: int)
    requires Collide(a, b) && ea.ip == a && After(h) == Lone(a, ea)
    requires Regular(h, b, at, 0) && WindowOf(h, b).None? && at <= later
    ensures var h' := h + Attempt(b, later);
            && After(h') == Pair(a, ea, Entry(b, 1, later, later))
            && Regular(h', b, later, 0) && WindowOf(h', b) == Some(Window(later, 1))
  {
    OtherSlot(a, b, ea, later);
    AfterAttempt(h, b, later);
    AttemptWindow(h, b, later, b);
    RegularAttempt(h, b, at, later, 0);
  }

  lemma OtherSlot(a: Client, b: Client, ea: Entry, at: int)
    requires Collide(a, b) && ea.ip == a
    ensures var t := Lone(a, ea);
            && !Limited(t, b, at) && Checked(t, b, at) == t && Probe(t, b, 0).Some?
            && Record(t, b, at) == Pair(a, ea, Entry(b, 1, at, at))
  {
    var e := Entry([], 0, 0, 0);
    assert Pair(a, ea, e) == Lone(a, ea);
    PairProbes(a, b, ea, e);
  }
}

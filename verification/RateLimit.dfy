/** The table of failed logins: 1024 entries, eight probes, a window of ten minutes. */
module RateLimit {
  import opened Bytes

  const MAX_TRACKED_IPS: nat := 1024
  const MAX_FAILS_PER_IP: int := 5
  const FAIL_WINDOW_SECONDS: int := 600
  const PROBES: nat := 8

  /** An entry is empty when its address is. */
  datatype Entry = Entry(ip: cstr, failCount: int, firstFail: int, lastFail: int)

  /** The text of a client address. */
  type Client = t: cstr | 0 < |t| < 64 witness [1]

  predicate IsSlots(t: seq<Entry>) {
    |t| == MAX_TRACKED_IPS
  }

  type Slots = t: seq<Entry> | IsSlots(t) witness Empty()

  function Empty(): (t: seq<Entry>)
    ensures IsSlots(t) && forall s :: 0 <= s < |t| ==> t[s].ip == []
  {
    seq(MAX_TRACKED_IPS, _ => Entry([], 0, 0, 0))
  }

  // ---------------------------------------------------------------- probing

  const UINT_RANGE: nat := 0x1_0000_0000

  /** The hash before the final reduction, on 32 bits. */
  function Hash(ip: seq<byte>): (h: nat)
    ensures h < UINT_RANGE
  {
    if ip == [] then 5381 else (33 * Hash(ip[..|ip| - 1]) + ip[|ip| - 1]) % UINT_RANGE
  }

  function Slot(ip: seq<byte>, i: nat): (s: nat)
    ensures s < MAX_TRACKED_IPS
  {
    (Hash(ip) % MAX_TRACKED_IPS + i) % MAX_TRACKED_IPS
  }

  /** The first slot from probe i on that is empty or belongs to the client. */
  function Probe(t: Slots, ip: Client, i: nat): (r: Option<nat>)
    ensures r.Some? ==> r.value < MAX_TRACKED_IPS && (t[r.value].ip == [] || t[r.value].ip == ip)
    decreases PROBES - i
  {
    if i >= PROBES then None
    else if t[Slot(ip, i)].ip == [] || t[Slot(ip, i)].ip == ip then Some(Slot(ip, i))
    else Probe(t, ip, i + 1)
  }

  /** The entry that a check finds. */
  function Found(t: Slots, ip: Client): (r: Option<nat>)
    ensures r.Some? ==> r.value < MAX_TRACKED_IPS && t[r.value].ip == ip
  {
    var r := Probe(t, ip, 0);
    if r.Some? && t[r.value].ip == ip then r else None
  }

  predicate Over(e: Entry, now: int) {
    now - e.firstFail > FAIL_WINDOW_SECONDS
  }

  function Recorded(e: Entry, ip: Client, now: int): Entry {
    if e.ip == [] || Over(e, now) then Entry(ip, 1, now, now)
    else e.(failCount := e.failCount + 1, lastFail := now)
  }

  /** record_login_failure. */
  function Record(t: Slots, ip: Client, now: int): Slots {
    match Probe(t, ip, 0)
    case None => t
    case Some(s) => t[s := Recorded(t[s], ip, now)]
  }

  /** The answer of check_rate_limit. */
  predicate Limited(t: Slots, ip: Client, now: int) {
    var r := Found(t, ip);
    r.Some? && !Over(t[r.value], now) && t[r.value].failCount >= MAX_FAILS_PER_IP
  }

  /** A check finds the entry of the client expired. */
  predicate Empties(t: Slots, ip: Client, now: int) {
    var r := Found(t, ip);
    r.Some? && Over(t[r.value], now)
  }

  /** Its effect: such an entry is emptied. */
  function Checked(t: Slots, ip: Client, now: int): Slots {
    if Empties(t, ip, now) then t[Found(t, ip).value := t[Found(t, ip).value].(ip := [], failCount := 0)] else t
  }

  // ---------------------------------------------------------------- the loops

  method IpHash(ip: cstr) returns (h: nat)
    ensures h == Hash(ip) % MAX_TRACKED_IPS
  {
    var hash := 5381;
    var i := 0;
    assert ip[..0] == [];
    while i < |ip|
      invariant 0 <= i <= |ip| && hash == Hash(ip[..i])
    {
      Times33(hash, ip[i]);
      hash := ((hash * 32 % UINT_RANGE + hash) % UINT_RANGE + ip[i]) % UINT_RANGE;
      assert ip[..i + 1][..i] == ip[..i];
      i := i + 1;
    }
    assert ip[..i] == ip;
    h := hash % MAX_TRACKED_IPS;
  }

  /** (h << 5) + h + c with every operation on 32 bits. */
  lemma Times33(h: nat, c: nat)
    requires h < UINT_RANGE && c < 256
    ensures ((h * 32 % UINT_RANGE + h) % UINT_RANGE + c) % UINT_RANGE == (33 * h + c) % UINT_RANGE
  {}

  class FailTable {
    const table: array<Entry>

    constructor ()
      ensures table.Length == MAX_TRACKED_IPS && table[..] == Empty() && fresh(table)
    {
      table := new Entry[MAX_TRACKED_IPS](_ => Entry([], 0, 0, 0));
    }

    method RecordLoginFailure(ip: Client, now: int)
      requires table.Length == MAX_TRACKED_IPS
      modifies table
      ensures table[..] == Record(old(table[..]), ip, now)
    {
      ghost var t: Slots := table[..];
      var idx := IpHash(ip);
      var i := 0;
      while i < PROBES
        invariant 0 <= i <= PROBES && table[..] == t
        invariant Probe(t, ip, 0) == Probe(t, ip, i)
      {
        var slot := (idx + i) % MAX_TRACKED_IPS;
        assert slot == Slot(ip, i) && t[slot] == table[slot];
        if table[slot].ip == [] || table[slot].ip == ip {
          if table[slot].ip == [] || now - table[slot].firstFail > FAIL_WINDOW_SECONDS {
            table[slot] := table[slot].(ip := ip, failCount := 1, firstFail := now);
          } else {
            table[slot] := table[slot].(failCount := table[slot].failCount + 1);
          }
          table[slot] := table[slot].(lastFail := now);
          assert table[..] == t[slot := Recorded(t[slot], ip, now)];
          return;
        }
        i := i + 1;
      }
    }

    method CheckRateLimit(ip: Client, now: int) returns (limited: bool)
      requires table.Length == MAX_TRACKED_IPS
      modifies table
      ensures limited == Limited(old(table[..]), ip, now)
      ensures table[..] == Checked(old(table[..]), ip, now)
    {
      ghost var t: Slots := table[..];
      var idx := IpHash(ip);
      var i := 0;
      while i < PROBES
        invariant 0 <= i <= PROBES && table[..] == t
        invariant Probe(t, ip, 0) == Probe(t, ip, i)
      {
        var slot := (idx + i) % MAX_TRACKED_IPS;
        assert slot == Slot(ip, i) && t[slot] == table[slot];
        if table[slot].ip != [] && table[slot].ip == ip {
          if now - table[slot].firstFail > FAIL_WINDOW_SECONDS {
            table[slot] := table[slot].(ip := [], failCount := 0);
            assert table[..] == t[slot := t[slot].(ip := [], failCount := 0)];
            return false;
          }
          if table[slot].failCount >= MAX_FAILS_PER_IP {
            return true;
          }
          return false;
        }
        if table[slot].ip == [] {
          return false;
        }
        i := i + 1;
      }
      limited := false;
    }
  }

  // ---------------------------------------------------------------- histories

  datatype Action = Fail(ip: Client, at: int) | Check(ip: Client, at: int)

  function Apply(t: Slots, a: Action): Slots {
    match a
    case Fail(ip, at) => Record(t, ip, at)
    case Check(ip, at) => Checked(t, ip, at)
  }

  /** The table after a history. */
  function After(h: seq<Action>): Slots {
    if h == [] then Empty() else Apply(After(h[..|h| - 1]), h[|h| - 1])
  }

  predicate InOrder(h: seq<Action>) {
    forall j, k :: 0 <= j < k < |h| ==> h[j].at <= h[k].at
  }

  /** The failures of a client from some time on. */
  function Failures(h: seq<Action>, ip: Client, from: int): nat {
    if h == [] then 0
    else
      var a := h[|h| - 1];
      Failures(h[..|h| - 1], ip, from) + if a.Fail? && a.ip == ip && a.at >= from then 1 else 0
  }

  lemma {:induction false} FewerLater(h: seq<Action>, ip: Client, from: int, later: int)
    requires from <= later
    ensures Failures(h, ip, later) <= Failures(h, ip, from)
  {
    if h != [] {
      FewerLater(h[..|h| - 1], ip, from, later);
    }
  }

  // ---------------------------------------------------------------- soundness

  /** An entry counts at least one failure, and no more than the client's own since the window
      began. */
  predicate Backed(e: Entry, h: seq<Action>) {
    0 < |e.ip| < 64 ==>
      && 1 <= e.failCount <= Failures(h, e.ip, e.firstFail)
      && exists k :: 0 <= k < |h| && h[k].at == e.firstFail
  }

  lemma {:induction false} EntriesAreBacked(h: seq<Action>)
    requires InOrder(h)
    ensures forall s {:trigger Backed(After(h)[s], h)} :: 0 <= s < MAX_TRACKED_IPS ==> Backed(After(h)[s], h)
  {
    if h != [] {
      var n := |h| - 1;
      EntriesAreBacked(h[..n]);
      var t, t' := After(h[..n]), After(h);
      forall s | 0 <= s < MAX_TRACKED_IPS
        ensures Backed(t'[s], h)
      {
        if t'[s] == t[s] || t'[s].ip == [] {
          StillBacked(t[s], h);
        } else {
          RecordIsBacked(t[s], h);
        }
      }
    }
  }

  lemma StillBacked(e: Entry, h: seq<Action>)
    requires h != [] && Backed(e, h[..|h| - 1])
    ensures Backed(e, h)
  {
    var n := |h| - 1;
    if 0 < |e.ip| < 64 {
      var k :| 0 <= k < n && h[..n][k].at == e.firstFail;
      assert h[k].at == e.firstFail;
    }
  }

  lemma RecordIsBacked(e: Entry, h: seq<Action>)
    requires h != [] && InOrder(h) && h[|h| - 1].Fail? && Backed(e, h[..|h| - 1])
    requires e.ip == [] || e.ip == h[|h| - 1].ip
    ensures Backed(Recorded(e, h[|h| - 1].ip, h[|h| - 1].at), h)
  {
    var n := |h| - 1;
    var a := h[n];
    if e.ip != [] && !Over(e, a.at) {
      var k :| 0 <= k < n && h[..n][k].at == e.firstFail;
      assert h[k].at == e.firstFail && h[k].at <= a.at;
    } else {
      assert h[n].at == a.at;
    }
  }

  /** A client is refused only for five failures of its own in the last ten minutes, whatever
      other clients did. */
  lemma LimitIsSound(h: seq<Action>, ip: Client, now: int)
    requires InOrder(h) && Limited(After(h), ip, now)
    ensures Failures(h, ip, now - 600) >= 5
  {
    EntriesAreBacked(h);
    var e := After(h)[Found(After(h), ip).value];
    assert Backed(e, h);
    FewerLater(h, ip, now - FAIL_WINDOW_SECONDS, e.firstFail);
  }

  // ---------------------------------------------------------------- completeness

  /** What the limiter is meant to remember of one client: the start of its window and the
      failures since; a failure after the window is over starts the next. */
  datatype Window = Window(first: int, count: int)

  function WindowOf(h: seq<Action>, ip: Client): Option<Window> {
    if h == [] then None
    else
      var a := h[|h| - 1];
      var w := WindowOf(h[..|h| - 1], ip);
      if !a.Fail? || a.ip != ip then w else Some(Counted(w, a.at))
  }

  function Counted(w: Option<Window>, at: int): Window {
    if NoneOrOver(w, at) then Window(at, 1)
    else Window(w.value.first, w.value.count + 1)
  }

  predicate ShouldBeLimited(h: seq<Action>, ip: Client, now: int) {
    var w := WindowOf(h, ip);
    w.Some? && now - w.value.first <= FAIL_WINDOW_SECONDS && w.value.count >= MAX_FAILS_PER_IP
  }

  /** Writing one client's entry where probing led does not disturb another's. */
  lemma {:induction false} ProbeUndisturbed(t: Slots, e: Entry, at: nat, ip: Client, i: nat)
    requires at < MAX_TRACKED_IPS && e.ip != [] && e.ip != ip && (t[at].ip == [] || t[at].ip == e.ip)
    requires Probe(t, ip, i) != Some(at)
    ensures Probe(t[at := e], ip, i) == Probe(t, ip, i)
    decreases PROBES - i
  {
    if i < PROBES && !(t[Slot(ip, i)].ip == [] || t[Slot(ip, i)].ip == ip) {
      ProbeUndisturbed(t, e, at, ip, i + 1);
    }
  }

  lemma {:induction false} ProbeOwn(t: Slots, e: Entry, ip: Client, i: nat)
    requires Probe(t, ip, i).Some? && e.ip == ip
    ensures Probe(t[Probe(t, ip, i).value := e], ip, i) == Probe(t, ip, i)
    decreases PROBES - i
  {
    if !(t[Slot(ip, i)].ip == [] || t[Slot(ip, i)].ip == ip) {
      ProbeOwn(t, e, ip, i + 1);
    }
  }

  /** Probing finds every entry of the client whose time is not over. */
  predicate Visible(t: Slots, ip: Client, now: int) {
    forall s :: 0 <= s < MAX_TRACKED_IPS && t[s].ip == ip && !Over(t[s], now) ==> Probe(t, ip, 0) == Some(s)
  }

  /** A failure of the client after it had been quiet for the length of a window. */
  predicate StartsAfresh(front: seq<Action>, a: Action, ip: Client) {
    a.Fail? && a.ip == ip && Failures(front, ip, a.at - FAIL_WINDOW_SECONDS) == 0
  }

  /** From action n on, no check of another client left a gap in front of an entry of this one
      whose time was not over; what was before its last quiet time does not matter. */
  predicate GapFreeFrom(h: seq<Action>, ip: Client, n: nat) {
    |h| <= n ||
    (var front, a := h[..|h| - 1], h[|h| - 1];
     || StartsAfresh(front, a, ip)
     || (GapFreeFrom(front, ip, n) && (a.Check? && a.ip != ip ==> Visible(After(h), ip, a.at))))
  }

  predicate GapFree(h: seq<Action>, ip: Client) {
    GapFreeFrom(h, ip, 0)
  }

  /** The client found a slot at each of its failures, back to one before which it had been
      quiet for the length of a window. */
  predicate Slotted(h: seq<Action>, ip: Client) {
    h == [] ||
    (var front, a := h[..|h| - 1], h[|h| - 1];
     if a.Fail? && a.ip == ip then
       && Probe(After(front), ip, 0).Some?
       && (StartsAfresh(front, a, ip) || Slotted(front, ip))
     else Slotted(front, ip))
  }

  /** The entry of a client is its window, and others it may have are over; without a window,
      or with one that is over, it has none but such. */
  predicate Faithful(t: Slots, ip: Client, w: Option<Window>, now: int) {
    && Visible(t, ip, now)
    && if NoneOrOver(w, now) then AllOver(t, ip, now) else Matches(t, ip, w.value)
  }

  predicate AllOver(t: Slots, ip: Client, now: int) {
    forall s :: 0 <= s < MAX_TRACKED_IPS && t[s].ip == ip ==> Over(t[s], now)
  }

  predicate Matches(t: Slots, ip: Client, w: Window) {
    var r := Found(t, ip);
    r.Some? && w == Window(t[r.value].firstFail, t[r.value].failCount)
  }

  predicate NoneOrOver(w: Option<Window>, now: int) {
    w.None? || now - w.value.first > FAIL_WINDOW_SECONDS
  }

  predicate NotLater(h: seq<Action>, now: int) {
    forall k :: 0 <= k < |h| ==> h[k].at <= now
  }

  lemma FrontInOrder(h: seq<Action>)
    requires h != [] && InOrder(h)
    ensures InOrder(h[..|h| - 1]) && NotLater(h[..|h| - 1], h[|h| - 1].at)
  {}

  lemma {:induction false} TableIsFaithful(h: seq<Action>, ip: Client, now: int)
    requires InOrder(h) && NotLater(h, now) && GapFree(h, ip) && Slotted(h, ip)
    ensures Faithful(After(h), ip, WindowOf(h, ip), now)
    decreases |h|, 1
  {
    if h != [] {
      var front, a := h[..|h| - 1], h[|h| - 1];
      if a.Fail? && a.ip == ip {
        OwnFailure(h, ip);
      } else {
        TableIsFaithful(front, ip, a.at);
        OthersAction(h, ip);
      }
      StaysFaithful(After(h), ip, WindowOf(h, ip), a.at, now);
    }
  }

  lemma StaysFaithful(t: Slots, ip: Client, w: Option<Window>, at: int, now: int)
    requires Faithful(t, ip, w, at) && at <= now
    ensures Faithful(t, ip, w, now)
  {}

  /** A check, or the failure of another client. */
  lemma OthersAction(h: seq<Action>, ip: Client)
    requires h != [] && GapFree(h, ip) && !(h[|h| - 1].Fail? && h[|h| - 1].ip == ip)
    requires Faithful(After(h[..|h| - 1]), ip, WindowOf(h[..|h| - 1], ip), h[|h| - 1].at)
    ensures Faithful(After(h), ip, WindowOf(h, ip), h[|h| - 1].at)
  {
    var front, a := h[..|h| - 1], h[|h| - 1];
    if a.Fail? {
      OtherFailure(After(front), ip, a.ip, a.at, WindowOf(front, ip));
    } else if a.ip == ip {
      OwnCheck(After(front), ip, a.at, WindowOf(front, ip));
    } else {
      OtherCheck(After(front), ip, a.ip, a.at, WindowOf(front, ip));
    }
  }

  lemma {:induction false} WindowStart(h: seq<Action>, ip: Client)
    ensures WindowOf(h, ip).Some? ==> Failures(h, ip, WindowOf(h, ip).value.first) >= 1
  {
    if h != [] {
      WindowStart(h[..|h| - 1], ip);
    }
  }

  /** After a quiet time the client has no window and no entries but such as are over. */
  lemma QuietIsFaithful(front: seq<Action>, ip: Client, at: int)
    requires InOrder(front) && Failures(front, ip, at - FAIL_WINDOW_SECONDS) == 0
    ensures Faithful(After(front), ip, WindowOf(front, ip), at) && NoneOrOver(WindowOf(front, ip), at)
  {
    QuietWindow(front, ip, at);
    EntriesAreBacked(front);
    forall s | 0 <= s < MAX_TRACKED_IPS && After(front)[s].ip == ip
      ensures Over(After(front)[s], at)
    {
      assert Backed(After(front)[s], front);
      QuietEntry(front, After(front)[s], at);
    }
  }

  lemma QuietWindow(front: seq<Action>, ip: Client, at: int)
    requires Failures(front, ip, at - FAIL_WINDOW_SECONDS) == 0
    ensures NoneOrOver(WindowOf(front, ip), at)
  {
    var w := WindowOf(front, ip);
    if w.Some? && w.value.first >= at - FAIL_WINDOW_SECONDS {
      WindowStart(front, ip);
      FewerLater(front, ip, at - FAIL_WINDOW_SECONDS, w.value.first);
    }
  }

  lemma QuietEntry(front: seq<Action>, e: Entry, at: int)
    requires 0 < |e.ip| < 64 && Backed(e, front) && Failures(front, e.ip, at - FAIL_WINDOW_SECONDS) == 0
    ensures Over(e, at)
  {
    if e.firstFail >= at - FAIL_WINDOW_SECONDS {
      FewerLater(front, e.ip, at - FAIL_WINDOW_SECONDS, e.firstFail);
    }
  }

  lemma {:induction false} OwnFailure(h: seq<Action>, ip: Client)
    requires h != [] && h[|h| - 1].Fail? && h[|h| - 1].ip == ip
    requires InOrder(h) && GapFree(h, ip) && Slotted(h, ip)
    ensures Faithful(After(h), ip, WindowOf(h, ip), h[|h| - 1].at)
    decreases |h|, 0
  {
    var front, at := h[..|h| - 1], h[|h| - 1].at;
    FrontInOrder(h);
    if StartsAfresh(front, h[|h| - 1], ip) {
      QuietIsFaithful(front, ip, at);
    } else {
      TableIsFaithful(front, ip, at);
    }
    RecordIsFaithful(After(front), ip, WindowOf(front, ip), at);
  }

  lemma RecordIsFaithful(t: Slots, ip: Client, w: Option<Window>, at: int)
    requires Faithful(t, ip, w, at) && Probe(t, ip, 0).Some?
    ensures Faithful(Record(t, ip, at), ip, Some(Counted(w, at)), at)
  {
    var s := Probe(t, ip, 0).value;
    ProbeOwn(t, Recorded(t[s], ip, at), ip, 0);
  }

  lemma OtherFailure(t: Slots, ip: Client, other: Client, now: int, w: Option<Window>)
    requires Faithful(t, ip, w, now) && other != ip
    ensures Faithful(Record(t, other, now), ip, w, now)
  {
    var r := Probe(t, other, 0);
    if r.Some? && Found(t, ip).Some? {
      ProbeUndisturbed(t, Recorded(t[r.value], other, now), r.value, ip, 0);
    }
  }

  lemma OwnCheck(t: Slots, ip: Client, now: int, w: Option<Window>)
    requires Faithful(t, ip, w, now)
    ensures Faithful(Checked(t, ip, now), ip, w, now)
  {}

  lemma OtherCheck(t: Slots, ip: Client, other: Client, now: int, w: Option<Window>)
    requires Faithful(t, ip, w, now) && other != ip && Visible(Checked(t, other, now), ip, now)
    ensures Faithful(Checked(t, other, now), ip, w, now)
  {
    if !NoneOrOver(w, now) {
      var s := Found(t, ip).value;
      assert Checked(t, other, now)[s] == t[s];
    }
  }

  /** As long as checks of others leave no gap in front of a client's live entry, the limiter
      refuses it exactly when it should, unless it found all its slots taken by others. */
  lemma LimitIsComplete(h: seq<Action>, ip: Client, now: int)
    requires InOrder(h) && NotLater(h, now) && GapFree(h, ip) && Slotted(h, ip)
    ensures Limited(After(h), ip, now) <==> ShouldBeLimited(h, ip, now)
  {
    TableIsFaithful(h, ip, now);
  }

  // ---------------------------------------------------------------- while nothing is emptied

  /** No check of the history emptied an entry. */
  predicate NothingEmptied(h: seq<Action>) {
    h == [] ||
    (var n := |h| - 1;
     NothingEmptied(h[..n]) && (h[n].Check? ==> !Empties(After(h[..n]), h[n].ip, h[n].at)))
  }

  /** Probing finds every entry: no gap before it, and no second entry for its client. */
  predicate Reachable(t: Slots, s: nat)
    requires s < MAX_TRACKED_IPS
  {
    0 < |t[s].ip| < 64 && Probe(t, t[s].ip, 0) == Some(s)
  }

  predicate NoGaps(t: Slots) {
    forall s {:trigger Reachable(t, s)} :: 0 <= s < MAX_TRACKED_IPS && t[s].ip != [] ==> Reachable(t, s)
  }

  lemma RecordKeepsNoGaps(t: Slots, ip: Client, now: int)
    requires NoGaps(t)
    ensures NoGaps(Record(t, ip, now))
  {
    var t' := Record(t, ip, now);
    var r := Probe(t, ip, 0);
    if r.Some? {
      var e := Recorded(t[r.value], ip, now);
      forall s | 0 <= s < MAX_TRACKED_IPS && t'[s].ip != []
        ensures Reachable(t', s)
      {
        if s == r.value {
          ProbeOwn(t, e, ip, 0);
        } else {
          assert Reachable(t, s);
          ProbeUndisturbed(t, e, r.value, t[s].ip, 0);
        }
      }
    }
  }

  lemma {:induction false} HistoryLeavesNoGaps(h: seq<Action>)
    requires NothingEmptied(h)
    ensures NoGaps(After(h))
  {
    if h != [] {
      var n := |h| - 1;
      HistoryLeavesNoGaps(h[..n]);
      if h[n].Fail? {
        RecordKeepsNoGaps(After(h[..n]), h[n].ip, h[n].at);
      }
    }
  }

  /** In such a table each client has at most one entry. */
  lemma OneEntryEach(t: Slots, a: nat, b: nat)
    requires NoGaps(t) && a < MAX_TRACKED_IPS && b < MAX_TRACKED_IPS
    requires t[a].ip != [] && t[a].ip == t[b].ip
    ensures a == b
  {
    assert Reachable(t, a) && Reachable(t, b);
  }

  lemma {:induction false} TakenStaysTaken(t: Slots, s: nat, e: Entry, ip: Client, i: nat)
    requires s < MAX_TRACKED_IPS && Probe(t, ip, i).None?
    requires (t[s].ip == [] || t[s].ip == e.ip) && e.ip != [] && e.ip != ip
    ensures Probe(t[s := e], ip, i).None?
    decreases PROBES - i
  {
    if i < PROBES {
      TakenStaysTaken(t, s, e, ip, i + 1);
    }
  }

  /** Then no client has a gap in front of its entry, and one that finds a slot has always
      found one. */
  lemma {:induction false} UnemptiedIsGapFree(h: seq<Action>, ip: Client)
    requires NothingEmptied(h)
    ensures GapFree(h, ip)
    ensures Probe(After(h), ip, 0).Some? ==> Slotted(h, ip)
  {
    if h != [] {
      var front, a := h[..|h| - 1], h[|h| - 1];
      UnemptiedIsGapFree(front, ip);
      HistoryLeavesNoGaps(h);
      NoGapsIsVisible(After(h), ip, a.at);
      if a.Fail? && Probe(After(front), ip, 0).None? {
        var r := Probe(After(front), a.ip, 0);
        if r.Some? {
          TakenStaysTaken(After(front), r.value, Recorded(After(front)[r.value], a.ip, a.at), ip, 0);
        }
      }
    }
  }

  lemma NoGapsIsVisible(t: Slots, ip: Client, now: int)
    requires NoGaps(t)
    ensures Visible(t, ip, now)
  {
    forall s | 0 <= s < MAX_TRACKED_IPS && t[s].ip == ip
      ensures Probe(t, ip, 0) == Some(s)
    {
      assert Reachable(t, s);
    }
  }

  // ---------------------------------------------------------------- recent failures

  /** Nothing in the history is later than now, and no failure of the client before `from`. */
  predicate Between(h: seq<Action>, ip: Client, from: int, now: int) {
    h == [] ||
    (var a := h[|h| - 1];
     a.at <= now && (a.Fail? && a.ip == ip ==> from <= a.at) && Between(h[..|h| - 1], ip, from, now))
  }

  lemma {:induction false} WindowCountsAll(h: seq<Action>, ip: Client, from: int, now: int)
    requires now - from <= FAIL_WINDOW_SECONDS && Between(h, ip, from, now)
    ensures var w := WindowOf(h, ip);
            if w.None? then Failures(h, ip, from) == 0
            else w.value.first >= from && w.value.count == Failures(h, ip, from)
  {
    if h != [] {
      WindowCountsAll(h[..|h| - 1], ip, from, now);
    }
  }

  /** A client all of whose failures are recent is refused exactly from the fifth on. */
  lemma FiveRecentFailuresLimit(h: seq<Action>, ip: Client, now: int)
    requires InOrder(h) && NotLater(h, now) && GapFree(h, ip) && Slotted(h, ip)
    requires Between(h, ip, now - 600, now)
    ensures Limited(After(h), ip, now) <==> Failures(h, ip, now - 600) >= 5
  {
    LimitIsComplete(h, ip, now);
    WindowCountsAll(h, ip, now - FAIL_WINDOW_SECONDS, now);
  }
}

/** The leases of the server as a state machine. The thread that serves the interface and the
    reaper thread take turns at any point between two effects on the pool, the peer set or the
    session table; any effect that may fail may fail; the process may restart at any time. */
module Lease {
  import opened Bytes
  import opened IpPool
  import opened Ownership

  datatype Config = Config(pool: Pool, ttl: nat, grace: nat) {
    predicate Valid() {
      pool.Valid() && 60 <= ttl <= 86400 * 30 && grace <= 86400
    }
  }

  const MAX_SESSIONS: nat := 5
  const SWEEP_LIMIT: nat := 100

  /** What the serving thread has under way. */
  datatype Hand =
    | Idle
    | Allocated(account: int, key: int, ip: nat)
    | Peered(account: int, key: int, ip: nat)
    | Undone(account: int, ip: nat)
    | LogoutChecked(id: nat)
    | LogoutPeerGone(id: nat)
    | LogoutReleased(id: nat)
    | RenewChecked(id: nat, at: int)

  /** How far the reaper is with the first session of its work list. */
  datatype Phase = Start | PeerGone | IpFreed

  datatype State = State(
    used: set<nat>,
    peers: map<int, nat>,
    rows: Table,
    now: int,
    work: seq<nat>,
    phase: Phase,
    hand: Hand,
    logins: nat,
    logouts: nat,
    expirations: nat)

  // ---------------------------------------------------------------- counting rows

  function Count(rows: Table, sel: Session -> bool): (n: nat)
    ensures n <= |rows|
  {
    if rows == [] then 0
    else Count(rows[..|rows| - 1], sel) + if sel(rows[|rows| - 1]) then 1 else 0
  }

  function Unrevoked(): Session -> bool {
    (r: Session) => !r.revoked
  }

  function ActiveFor(account: int, now: int): Session -> bool {
    (r: Session) => r.account == account && !r.revoked && r.expiresAt >= now
  }

  function ExpiredAt(now: int): Session -> bool {
    (r: Session) => !r.revoked && r.expiresAt < now
  }

  lemma CountAppend(rows: Table, row: Session, sel: Session -> bool)
    ensures Count(rows + [row], sel) == Count(rows, sel) + if sel(row) then 1 else 0
  {
    assert (rows + [row])[..|rows|] == rows;
  }

  lemma {:induction false} CountUpdate(rows: Table, i: nat, row: Session, sel: Session -> bool)
    requires i < |rows|
    ensures Count(rows[i := row], sel) + (if sel(rows[i]) then 1 else 0) == Count(rows, sel) + if sel(row) then 1 else 0
    decreases |rows|
  {
    var n := |rows| - 1;
    if i == n {
      assert rows[i := row][..n] == rows[..n];
    } else {
      CountUpdate(rows[..n], i, row, sel);
      assert rows[i := row][..n] == rows[..n][i := row];
    }
  }

  lemma {:induction false} CountLess(rows: Table, sel: Session -> bool, rows': Table, sel': Session -> bool)
    requires |rows| == |rows'| && forall k :: 0 <= k < |rows| && sel'(rows'[k]) ==> sel(rows[k])
    ensures Count(rows', sel') <= Count(rows, sel)
    decreases |rows|
  {
    if rows != [] {
      var n := |rows| - 1;
      CountLess(rows[..n], sel, rows'[..n], sel');
    }
  }

  lemma {:induction false} CountNone(rows: Table, sel: Session -> bool)
    requires forall k :: 0 <= k < |rows| ==> !sel(rows[k])
    ensures Count(rows, sel) == 0
    decreases |rows|
  {
    if rows != [] {
      CountNone(rows[..|rows| - 1], sel);
    }
  }

  /** The ids of the rows that are counted. */
  function Ids(rows: Table, sel: Session -> bool): set<nat> {
    set i: nat | i < |rows| && sel(rows[i])
  }

  lemma IdsLast(rows: Table, sel: Session -> bool)
    requires rows != []
    ensures var n := |rows| - 1;
            n !in Ids(rows[..n], sel) && Ids(rows, sel) == Ids(rows[..n], sel) + if sel(rows[n]) then {n} else {}
  {}

  lemma {:induction false} CountIsSize(rows: Table, sel: Session -> bool)
    ensures Count(rows, sel) == |Ids(rows, sel)|
    decreases |rows|
  {
    if rows != [] {
      CountIsSize(rows[..|rows| - 1], sel);
      IdsLast(rows, sel);
    }
  }

  // ---------------------------------------------------------------- queries

  /** The row with that token. */
  function Lookup(rows: Table, token: int): (r: Option<nat>)
    ensures r.Some? ==> r.value < |rows| && rows[r.value].token == token
    ensures r.None? ==> forall k :: 0 <= k < |rows| ==> rows[k].token != token
  {
    if rows == [] then None
    else
      var n := |rows| - 1;
      if rows[n].token == token then Some(n)
      else
        assert forall k :: 0 <= k < n ==> rows[..n][k] == rows[k];
        Lookup(rows[..n], token)
  }

  predicate LogoutAccepts(s: State, token: int) {
    var r := Lookup(s.rows, token);
    r.Some? && !s.rows[r.value].revoked && !(s.rows[r.value].expiresAt < s.now)
  }

  predicate RenewAccepts(c: Config, s: State, token: int) {
    var r := Lookup(s.rows, token);
    r.Some? && !s.rows[r.value].revoked && !(s.rows[r.value].expiresAt + c.grace < s.now)
  }

  predicate StatusAccepts(s: State, token: int) {
    var r := Lookup(s.rows, token);
    r.Some? && !s.rows[r.value].revoked && !(s.rows[r.value].expiresAt < s.now)
  }

  /** What the expiry query may return: expired rows, each once, all of them up to the limit,
      in any order. */
  predicate SweepOf(rows: Table, now: int, ids: seq<nat>) {
    && (forall k :: 0 <= k < |ids| ==> ids[k] < |rows| && ExpiredAt(now)(rows[ids[k]]))
    && (forall j, k :: 0 <= j < k < |ids| ==> ids[j] != ids[k])
    && |ids| == if Count(rows, ExpiredAt(now)) < SWEEP_LIMIT then Count(rows, ExpiredAt(now)) else SWEEP_LIMIT
  }

  function Revoke(rows: Table, id: nat): Table
    requires id < |rows|
  {
    rows[id := rows[id].(revoked := true)]
  }

  function RevokeAll(rows: Table): (r: Table)
    ensures |r| == |rows| && forall k :: 0 <= k < |rows| ==> r[k] == rows[k].(revoked := true)
  {
    seq(|rows|, k requires 0 <= k < |rows| => rows[k].(revoked := true))
  }

  // ---------------------------------------------------------------- events

  datatype Event =
    | Tick(seconds: nat)
    | LoginBegin(account: int, key: int)
    | LoginPeer(ok: bool)
    | LoginInsert(ok: bool, token: int)
    | LoginUndo
    | LogoutBegin(token: int)
    | LogoutPeer
    | LogoutRelease
    | LogoutRevoke
    | RenewBegin(token: int)
    | RenewEnd
    | Snapshot(ids: seq<nat>)
    | ReapPeer
    | ReapRelease
    | ReapRevoke
    | Restart

  /** The cap is checked and an address taken; a key that is in the table is never generated
      again. */
  function DoLoginBegin(c: Config, s: State, account: int, key: int): State {
    if !s.hand.Idle? || !KeyIsNew(s.rows, key) || Count(s.rows, ActiveFor(account, s.now)) >= MAX_SESSIONS then s
    else
      match Allocate(c.pool, s.used)
      case None => s.(used := AfterAllocate(c.pool, s.used))
      case Some(ip) => s.(used := AfterAllocate(c.pool, s.used), hand := Allocated(account, key, ip))
  }

  function DoLoginPeer(s: State, ok: bool): State {
    if !s.hand.Allocated? then s
    else if ok then
      s.(peers := s.peers[s.hand.key := s.hand.ip], hand := Peered(s.hand.account, s.hand.key, s.hand.ip))
    else s.(used := s.used - {s.hand.ip}, hand := Idle)
  }

  /** The insertion fails, too, when the token is in the table already. */
  function DoLoginInsert(c: Config, s: State, ok: bool, token: int): State {
    if !s.hand.Peered? then s
    else if ok && Lookup(s.rows, token).None? then
      s.(rows := s.rows + [Session(s.hand.account, s.hand.key, s.hand.ip, token, s.now + c.ttl, false)],
         hand := Idle, logins := s.logins + 1)
    else s.(peers := s.peers - {s.hand.key}, hand := Undone(s.hand.account, s.hand.ip))
  }

  function DoLoginUndo(s: State): State {
    if !s.hand.Undone? then s else s.(used := s.used - {s.hand.ip}, hand := Idle)
  }

  /** A logout takes a session in hand. */
  predicate LogoutTaken(s: State, token: int) {
    s.hand.Idle? && LogoutAccepts(s, token)
  }

  function DoLogoutBegin(s: State, token: int): State {
    if LogoutTaken(s, token) then s.(hand := LogoutChecked(Lookup(s.rows, token).value)) else s
  }

  function DoLogoutPeer(s: State): State {
    if !s.hand.LogoutChecked? || s.hand.id >= |s.rows| then s
    else s.(peers := s.peers - {s.rows[s.hand.id].key}, hand := LogoutPeerGone(s.hand.id))
  }

  function DoLogoutRelease(s: State): State {
    if !s.hand.LogoutPeerGone? || s.hand.id >= |s.rows| then s
    else s.(used := s.used - {s.rows[s.hand.id].ip}, hand := LogoutReleased(s.hand.id))
  }

  function DoLogoutRevoke(s: State): State {
    if !s.hand.LogoutReleased? || s.hand.id >= |s.rows| then s
    else s.(rows := Revoke(s.rows, s.hand.id), hand := Idle, logouts := s.logouts + 1)
  }

  function DoRenewBegin(c: Config, s: State, token: int): State {
    if !s.hand.Idle? || !RenewAccepts(c, s, token) then s
    else s.(hand := RenewChecked(Lookup(s.rows, token).value, s.now))
  }

  function DoRenewEnd(c: Config, s: State): State {
    if !s.hand.RenewChecked? || s.hand.id >= |s.rows| then s
    else s.(rows := s.rows[s.hand.id := s.rows[s.hand.id].(expiresAt := s.hand.at + c.ttl)], hand := Idle)
  }

  /** A sweep starts with that list. */
  predicate SweepTaken(s: State, ids: seq<nat>) {
    s.work == [] && s.phase == Start && SweepOf(s.rows, s.now, ids)
  }

  function DoSnapshot(s: State, ids: seq<nat>): State {
    if SweepTaken(s, ids) then s.(work := ids) else s
  }

  function DoReapPeer(s: State): State {
    if s.work == [] || s.phase != Start || s.work[0] >= |s.rows| then s
    else s.(peers := s.peers - {s.rows[s.work[0]].key}, phase := PeerGone)
  }

  function DoReapRelease(s: State): State {
    if s.work == [] || s.phase != PeerGone || s.work[0] >= |s.rows| then s
    else s.(used := s.used - {s.rows[s.work[0]].ip}, phase := IpFreed)
  }

  function DoReapRevoke(s: State): State {
    if s.work == [] || s.phase != IpFreed || s.work[0] >= |s.rows| then s
    else s.(rows := Revoke(s.rows, s.work[0]), work := s.work[1..], phase := Start, expirations := s.expirations + 1)
  }

  /** A new process: an empty pool and interface, every old session revoked. */
  function DoRestart(c: Config, s: State): State
    requires c.Valid()
  {
    var last: nat := c.pool.size - 1;
    State({0, last}, map[], RevokeAll(s.rows), s.now, [], Start, Idle, 0, 0, 0)
  }

  function Next(c: Config, s: State, e: Event): State
    requires c.Valid()
  {
    match e
    case Tick(seconds) => s.(now := s.now + seconds)
    case LoginBegin(account, key) => DoLoginBegin(c, s, account, key)
    case LoginPeer(ok) => DoLoginPeer(s, ok)
    case LoginInsert(ok, token) => DoLoginInsert(c, s, ok, token)
    case LoginUndo => DoLoginUndo(s)
    case LogoutBegin(token) => DoLogoutBegin(s, token)
    case LogoutPeer => DoLogoutPeer(s)
    case LogoutRelease => DoLogoutRelease(s)
    case LogoutRevoke => DoLogoutRevoke(s)
    case RenewBegin(token) => DoRenewBegin(c, s, token)
    case RenewEnd => DoRenewEnd(c, s)
    case Snapshot(ids) => DoSnapshot(s, ids)
    case ReapPeer => DoReapPeer(s)
    case ReapRelease => DoReapRelease(s)
    case ReapRevoke => DoReapRevoke(s)
    case Restart => DoRestart(c, s)
  }

  function Run(c: Config, s: State, events: seq<Event>): State
    requires c.Valid()
    decreases |events|
  {
    if events == [] then s else Run(c, Next(c, s, events[0]), events[1..])
  }

  lemma RunFirst(c: Config, s: State, e: Event, rest: seq<Event>)
    requires c.Valid()
    ensures Run(c, s, [e] + rest) == Run(c, Next(c, s, e), rest)
  {
    assert ([e] + rest)[1..] == rest;
  }

  lemma {:induction false} RunConcat(c: Config, s: State, before: seq<Event>, after: seq<Event>)
    requires c.Valid()
    ensures Run(c, s, before + after) == Run(c, Run(c, s, before), after)
    decreases |before|
  {
    if before == [] {
      assert before + after == after;
    } else {
      assert (before + after)[1..] == before[1..] + after;
      RunConcat(c, Next(c, s, before[0]), before[1..], after);
    }
  }

  /** What a new process finds: the table of the one before it, and nothing else. */
  function Fresh(rows: Table, now: int): State {
    State({}, map[], rows, now, [], Start, Idle, 0, 0, 0)
  }

  /** The state of a server that has just started on an old session table. */
  function Started(c: Config, rows: Table, now: int): State
    requires c.Valid()
  {
    DoRestart(c, Fresh(rows, now))
  }

  // ---------------------------------------------------------------- how the threads may meet

  /** The row that a logout is working on. */
  function LoggingOut(h: Hand): Option<nat> {
    match h
    case LogoutChecked(id) => Some(id)
    case LogoutPeerGone(id) => Some(id)
    case LogoutReleased(id) => Some(id)
    case _ => None
  }

  /** No session comes into the hands of both threads: a sweep does not list the session that
      a logout has in hand, and a logout does not take a listed session. Everything else may
      happen at any time. */
  predicate Separate(s: State, e: Event) {
    match e
    case Snapshot(ids) => SweepTaken(s, ids) && LoggingOut(s.hand).Some? ==> LoggingOut(s.hand).value !in ids
    case LogoutBegin(token) => LogoutTaken(s, token) ==> Lookup(s.rows, token).value !in s.work
    case _ => true
  }

  predicate SeparateRun(c: Config, s: State, events: seq<Event>)
    requires c.Valid()
    decreases |events|
  {
    events == [] || (Separate(s, events[0]) && SeparateRun(c, Next(c, s, events[0]), events[1..]))
  }

  // ---------------------------------------------------------------- the invariant

  function Pending(h: Hand): Option<nat> {
    match h
    case Allocated(_, _, ip) => Some(ip)
    case Peered(_, _, ip) => Some(ip)
    case Undone(_, ip) => Some(ip)
    case _ => None
  }

  function PendingPeer(h: Hand): Option<Peer> {
    match h
    case Peered(_, key, ip) => Some(Peer(key, ip))
    case _ => None
  }

  /** The unrevoked rows whose address is released already. */
  function Freed(s: State): set<nat> {
    (if s.work != [] && s.phase == IpFreed then {s.work[0]} else {})
    + (if s.hand.LogoutReleased? then {s.hand.id} else {})
  }

  /** The unrevoked rows whose peer is removed already. */
  function Gone(s: State): set<nat> {
    (if s.work != [] && s.phase != Start then {s.work[0]} else {})
    + (if s.hand.LogoutReleased? || s.hand.LogoutPeerGone? then {s.hand.id} else {})
  }

  /** The work list: unrevoked rows, each once. */
  predicate WorkOk(s: State) {
    && (forall k :: 0 <= k < |s.work| ==> s.work[k] < |s.rows| && !s.rows[s.work[k]].revoked)
    && (forall j, k :: 0 <= j < k < |s.work| ==> s.work[j] != s.work[k])
    && (s.phase != Start ==> s.work != [])
  }

  /** The row that a logout has in hand is unrevoked and not in the work list, its address is
      free once it is released; the key in hand is new. */
  predicate HandOk(s: State) {
    && (LoggingOut(s.hand).Some? ==>
          && LoggingOut(s.hand).value < |s.rows|
          && !s.rows[LoggingOut(s.hand).value].revoked
          && LoggingOut(s.hand).value !in s.work
          && (s.hand.LogoutReleased? ==> s.rows[s.hand.id].ip !in s.used))
    && (s.hand.Allocated? ==> KeyIsNew(s.rows, s.hand.key))
  }

  predicate TokensDiffer(rows: Table) {
    forall a, b | 0 <= a < b < |rows| :: rows[a].token != rows[b].token
  }

  /** Sessions are on hosts, also when their address is released already. */
  predicate Hosted(p: Pool, rows: Table) {
    forall k | 0 <= k < |rows| && !rows[k].revoked :: p.Host(rows[k].ip)
  }

  /** Sessions are conserved. */
  predicate Counted(s: State) {
    Count(s.rows, Unrevoked()) + s.logouts + s.expirations == s.logins
  }

  /** Who holds what. */
  ghost predicate Exact(c: Config, s: State) {
    && WorkOk(s)
    && HandOk(s)
    && TokensDiffer(s.rows)
    && Hosted(c.pool, s.rows)
    && Holdings(c, s)
  }

  ghost predicate Holdings(c: Config, s: State) {
    && IpsOwned(c.pool, s.used, s.rows, Freed(s), Pending(s.hand))
    && PeersOwned(s.peers, s.rows, Gone(s), PendingPeer(s.hand))
  }

  ghost predicate Inv(c: Config, s: State) {
    Exact(c, s) && Counted(s)
  }

  // ---------------------------------------------------------------- the limits

  /** No lease runs longer than a fresh one would. */
  predicate LifetimesOk(c: Config, s: State) {
    forall k | 0 <= k < |s.rows| && !s.rows[k].revoked :: s.rows[k].expiresAt <= s.now + c.ttl
  }

  /** The session that a renewal has in hand is about to run longer. */
  predicate RenewOk(c: Config, s: State) {
    s.hand.RenewChecked? ==>
      && s.hand.id < |s.rows|
      && s.hand.at <= s.now
      && s.rows[s.hand.id].expiresAt <= s.hand.at + c.ttl
  }

  /** The table as the cap sees it: a session being renewed counts as active. */
  function CapRows(s: State): Table {
    if s.hand.RenewChecked? && s.hand.id < |s.rows|
    then s.rows[s.hand.id := s.rows[s.hand.id].(expiresAt := s.now)]
    else s.rows
  }

  function InFlight(h: Hand, account: int): nat {
    if (h.Allocated? || h.Peered? || h.Undone?) && h.account == account then 1 else 0
  }

  /** Active sessions of an account, with the login under way. */
  function Load(s: State, account: int): nat {
    Count(CapRows(s), ActiveFor(account, s.now)) + InFlight(s.hand, account)
  }

  ghost predicate Capped(c: Config, s: State) {
    c.grace == 0 ==> forall account :: Load(s, account) <= MAX_SESSIONS
  }

  /** How many active sessions there are, and for how long. */
  ghost predicate Limits(c: Config, s: State) {
    LifetimesOk(c, s) && RenewOk(c, s) && Capped(c, s)
  }
}

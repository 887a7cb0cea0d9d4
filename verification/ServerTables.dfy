/** The session table and the peers as the server keeps them, addresses as text, and what the
    runs of the lease machine mean for them. */
module ServerTables {
  import opened Bytes
  import opened Ipv4
  import opened IpPool
  import opened Ownership
  import opened Lease
  import opened LeaseRuns
  import opened LeaseProgress
  import opened LeaseRequests
  import opened Sets

  /** A row as the table stores it, the address as text. */
  datatype Row = Row(
    accountId: int, devicePubkey: int, allowedIp: cstr, sessionToken: int, expiresAt: int, revoked: bool)

  /** A row copied by the expiry query, with its id. */
  datatype Listed = Listed(id: nat, row: Row)

  datatype Account = Account(id: int, disabled: bool)

  /** The body of a login request: not JSON, without a name or a password, or complete; then
      whether the name is known and the password right. */
  datatype Credentials = Malformed | Incomplete | Given(account: Option<Account>, passwordOk: bool)

  const OK: nat := 200
  const BAD_REQUEST: nat := 400
  const UNAUTHORIZED: nat := 401
  const FORBIDDEN: nat := 403
  const NOT_FOUND: nat := 404
  const CONFLICT: nat := 409
  const TOO_MANY_REQUESTS: nat := 429
  const SERVER_ERROR: nat := 500
  const UNAVAILABLE: nat := 503

  // ---------------------------------------------------------------- abstraction

  /** The member a text names; texts from outside the pool name no member. */
  function IpOf(p: Pool, text: cstr): nat {
    match MemberOf(p, text)
    case None => p.size
    case Some(i) => i
  }

  function AbsRow(p: Pool, r: Row): Session {
    Session(r.accountId, r.devicePubkey, IpOf(p, r.allowedIp), r.sessionToken, r.expiresAt, r.revoked)
  }

  function AbsRows(p: Pool, rows: seq<Row>): (t: Table)
    ensures |t| == |rows| && forall i :: 0 <= i < |rows| ==> t[i] == AbsRow(p, rows[i])
  {
    seq(|rows|, i requires 0 <= i < |rows| => AbsRow(p, rows[i]))
  }

  function AbsPeers(p: Pool, peers: map<int, cstr>): map<int, nat> {
    map key | key in peers :: IpOf(p, peers[key])
  }

  lemma AbsAppend(p: Pool, rows: seq<Row>, row: Row)
    ensures AbsRows(p, rows + [row]) == AbsRows(p, rows) + [AbsRow(p, row)]
  {}

  lemma AbsUpdate(p: Pool, rows: seq<Row>, id: nat, row: Row)
    requires id < |rows|
    ensures AbsRows(p, rows[id := row]) == AbsRows(p, rows)[id := AbsRow(p, row)]
  {}

  lemma AbsAddPeer(p: Pool, peers: map<int, cstr>, key: int, text: cstr)
    ensures AbsPeers(p, peers[key := text]) == AbsPeers(p, peers)[key := IpOf(p, text)]
    ensures AbsPeers(p, peers - {key}) == AbsPeers(p, peers) - {key}
    ensures AbsPeers(p, peers - {key}) == AbsPeers(p, peers)[key := IpOf(p, text)] - {key}
  {}

  lemma AbsRevokeAll(p: Pool, rows: seq<Row>, rows': seq<Row>)
    requires |rows'| == |rows| && forall k :: 0 <= k < |rows| ==> rows'[k] == rows[k].(revoked := true)
    ensures AbsRows(p, rows') == RevokeAll(AbsRows(p, rows)) && AbsPeers(p, map[]) == map[]
  {}

  // ---------------------------------------------------------------- the table

  /** No row has the token. */
  predicate TokenIsNew(rows: seq<Row>, token: int) {
    forall i | 0 <= i < |rows| :: rows[i].sessionToken != token
  }

  /** session_token is a unique column. */
  predicate TokensUnique(rows: seq<Row>) {
    forall i, j | 0 <= i < j < |rows| :: rows[i].sessionToken != rows[j].sessionToken
  }

  /** The one row with that token. */
  predicate RowOf(rows: seq<Row>, token: int, id: nat) {
    && id < |rows| && rows[id].sessionToken == token
    && forall i | 0 <= i < |rows| && rows[i].sessionToken == token :: i == id
  }

  lemma LookupIsRow(p: Pool, rows: seq<Row>, token: int)
    requires TokensUnique(rows)
    ensures var r := Lookup(AbsRows(p, rows), token);
            && (r.None? <==> TokenIsNew(rows, token))
            && (r.Some? ==> RowOf(rows, token, r.value))
  {
    var t := AbsRows(p, rows);
    assert forall i | 0 <= i < |rows| :: t[i].token == rows[i].sessionToken;
  }

  predicate KeyUnused(rows: seq<Row>, key: int) {
    forall i | 0 <= i < |rows| :: rows[i].devicePubkey != key
  }

  /** The ids of the account's sessions that are neither revoked nor expired. */
  function ActiveIds(rows: seq<Row>, accountId: int, now: int): (ids: set<nat>)
    ensures forall i: nat :: i in ids <==>
              i < |rows| && rows[i].accountId == accountId && !rows[i].revoked && rows[i].expiresAt >= now
  {
    set i: nat | i < |rows| && IsActive(rows[i], accountId, now)
  }

  predicate IsActive(row: Row, accountId: int, now: int) {
    row.accountId == accountId && !row.revoked && row.expiresAt >= now
  }

  lemma ActiveIdsLast(rows: seq<Row>, accountId: int, now: int)
    requires rows != []
    ensures var n := |rows| - 1;
            var before := ActiveIds(rows[..n], accountId, now);
            n !in before &&
            ActiveIds(rows, accountId, now) == before + if IsActive(rows[n], accountId, now) then {n} else {}
  {}

  /** The count of the cap is the number of those sessions. */
  lemma CountIsCardinality(p: Pool, rows: seq<Row>, accountId: int, now: int)
    ensures Count(AbsRows(p, rows), ActiveFor(accountId, now)) == |ActiveIds(rows, accountId, now)|
  {
    CountIsSize(AbsRows(p, rows), ActiveFor(accountId, now));
    assert ActiveIds(rows, accountId, now) == Ids(AbsRows(p, rows), ActiveFor(accountId, now));
  }

  /** The ids of the sessions that are expired and not revoked. */
  function LapsedIds(rows: seq<Row>, now: int): (ids: set<nat>)
    ensures forall i: nat :: i in ids <==> i < |rows| && !rows[i].revoked && rows[i].expiresAt < now
  {
    set i: nat | i < |rows| && !rows[i].revoked && rows[i].expiresAt < now
  }

  lemma CountIsLapsed(p: Pool, rows: seq<Row>, now: int)
    ensures Count(AbsRows(p, rows), ExpiredAt(now)) == |LapsedIds(rows, now)|
  {
    CountIsSize(AbsRows(p, rows), ExpiredAt(now));
    assert LapsedIds(rows, now) == Ids(AbsRows(p, rows), ExpiredAt(now));
  }

  predicate HasFreeHost(p: Pool, used: set<nat>) {
    exists k :: 0 < k < p.size - 1 && k !in used && !(p.excludeStart <= p.start + k <= p.excludeEnd)
  }

  predicate LowestFreeHost(p: Pool, used: set<nat>, host: nat) {
    && 0 < host < p.size - 1 && host !in used && !(p.excludeStart <= p.start + host <= p.excludeEnd)
    && forall k :: 0 < k < host && k !in used ==> p.excludeStart <= p.start + k <= p.excludeEnd
  }

  /** The same marks on what may be handed out. */
  predicate SameHosts(p: Pool, used: set<nat>, used': set<nat>) {
    forall k :: 0 < k < p.size - 1 && !(p.excludeStart <= p.start + k <= p.excludeEnd) ==> (k in used <==> k in used')
  }

  /** A release takes away the mark of the address that the text names, and no other. */
  ghost predicate Frees(used: set<nat>, used': set<nat>, start: nat, text: cstr) {
    forall k: nat :: k in used' <==> k in used && AddressOf(text) != Some(start + k)
  }

  // ---------------------------------------------------------------- runs on the tables

  /** A state whose table and peers are these. */
  predicate Shows(s: State, p: Pool, rows: seq<Row>, peers: map<int, cstr>) {
    s.rows == AbsRows(p, rows) && s.peers == AbsPeers(p, peers)
  }

  /** How a login of an admitted account comes out: over the cap, without an address, done, or
      undone. */
  ghost predicate LoginResult(c: Config, used: set<nat>, rows: seq<Row>, peers: map<int, cstr>, now: int,
                              accountId: int, key: int, token: int, peerOk: bool, insertOk: bool, code: nat, host: nat,
                              used': set<nat>, rows': seq<Row>, peers': map<int, cstr>)
  {
    var r := Allocate(c.pool, used);
    var text := HostText(c.pool.start + host);
    if |ActiveIds(rows, accountId, now)| >= 5 then
      code == TOO_MANY_REQUESTS && used' == used && rows' == rows && peers' == peers
    else if r.None? then
      code == UNAVAILABLE && used' == AfterAllocate(c.pool, used) && rows' == rows && peers' == peers
    else if peerOk && insertOk && TokenIsNew(rows, token) then
      && code == OK && r == Some(host) && used' == AfterAllocate(c.pool, used)
      && rows' == rows + [Row(accountId, key, text, token, now + c.ttl, false)]
      && peers' == peers[key := text]
    else
      && code == SERVER_ERROR && r == Some(host) && used' == AfterAllocate(c.pool, used) - {host}
      && rows' == rows && peers' == if peerOk then peers - {key} else peers
  }

  /** The same without the order of the steps, in what can be seen of the pool. */
  ghost predicate LoginSeen(c: Config, used: set<nat>, rows: seq<Row>, peers: map<int, cstr>, now: int,
                            id: int, key: int, token: int, peerOk: bool, insertOk: bool, code: nat, host: nat,
                            used': set<nat>, rows': seq<Row>, peers': map<int, cstr>)
  {
    var text := HostText(c.pool.start + host);
    && code == (if |ActiveIds(rows, id, now)| >= 5 then TOO_MANY_REQUESTS
                else if !HasFreeHost(c.pool, used) then UNAVAILABLE
                else if peerOk && insertOk && TokenIsNew(rows, token) then OK
                else SERVER_ERROR)
    && if code == OK
       then && LowestFreeHost(c.pool, used, host) && SameHosts(c.pool, used', used + {host})
            && rows' == rows + [Row(id, key, text, token, now + c.ttl, false)]
            && peers' == peers[key := text]
       else && SameHosts(c.pool, used', used) && rows' == rows && (peers' == peers || peers' == peers - {key})
  }

  lemma LoginMarks(c: Config, used: set<nat>, rows: seq<Row>, peers: map<int, cstr>, now: int,
                   id: int, key: int, token: int, peerOk: bool, insertOk: bool, code: nat, host: nat,
                   used': set<nat>, rows': seq<Row>, peers': map<int, cstr>)
    requires c.Valid()
    requires LoginResult(c, used, rows, peers, now, id, key, token, peerOk, insertOk, code, host, used', rows', peers')
    ensures LoginSeen(c, used, rows, peers, now, id, key, token, peerOk, insertOk, code, host, used', rows', peers')
  {
    AllocateSpelled(c.pool, used);
  }

  /** The row and the peer that a login adds. */
  predicate Added(rows: seq<Row>, rows': seq<Row>, peers: map<int, cstr>, peers': map<int, cstr>,
                  id: int, key: int, token: int, expiresAt: int)
  {
    && |rows'| == |rows| + 1 && rows <= rows'
    && (var row := rows'[|rows|];
        && row.accountId == id && row.devicePubkey == key && row.sessionToken == token
        && row.expiresAt == expiresAt && !row.revoked && peers' == peers[key := row.allowedIp])
  }

  lemma SeenAdds(c: Config, used: set<nat>, rows: seq<Row>, peers: map<int, cstr>, now: int,
                 id: int, key: int, token: int, peerOk: bool, insertOk: bool, code: nat, host: nat,
                 used': set<nat>, rows': seq<Row>, peers': map<int, cstr>)
    requires LoginSeen(c, used, rows, peers, now, id, key, token, peerOk, insertOk, code, host, used', rows', peers')
    ensures code == 200 ==> Added(rows, rows', peers, peers', id, key, token, now + c.ttl)
    ensures code != 200 ==> rows' == rows
    ensures var live := |ActiveIds(rows, id, now)|;
            var free := HasFreeHost(c.pool, used);
            var effects := peerOk && insertOk && TokenIsNew(rows, token);
            && (code == 200 <==> live < 5 && free && effects)
            && (code == 429 <==> live >= 5)
            && (code == 503 <==> live < 5 && !free)
            && (code == 500 <==> live < 5 && free && !effects)
  {}

  /** It is a run of the machine. */
  lemma LoginIsRun(c: Config, s: State, s': State, rows: seq<Row>, peers: map<int, cstr>,
                   accountId: int, key: int, token: int, peerOk: bool, insertOk: bool, code: nat, host: nat,
                   rows': seq<Row>, peers': map<int, cstr>)
    requires c.Valid() && s.hand.Idle? && Shows(s, c.pool, rows, peers) && TokensUnique(rows) && KeyUnused(rows, key)
    requires LoginResult(c, s.used, rows, peers, s.now, accountId, key, token, peerOk, insertOk, code, host,
                         s'.used, rows', peers')
    requires s' == s.(used := s'.used, rows := AbsRows(c.pool, rows'), peers := AbsPeers(c.pool, peers'),
                      logins := s.logins + if code == OK then 1 else 0)
    ensures s' == Run(c, s, LoginEvents(accountId, key, peerOk, insertOk, token))
  {
    if |ActiveIds(rows, accountId, s.now)| >= 5 || Allocate(c.pool, s.used).None? {
      LoginRefused(c, s, rows, accountId, key, token, peerOk, insertOk);
    } else if peerOk && insertOk && TokenIsNew(rows, token) {
      LoginSucceedsOnTables(c, s, rows, accountId, key, token);
      var row := Row(accountId, key, HostText(c.pool.start + host), token, s.now + c.ttl, false);
      LoginDone(c, s, rows, peers, accountId, key, token, host, row);
    } else {
      LoginUndone(c, s, rows, peers, accountId, key, token, peerOk, insertOk, host);
    }
  }

  /** A login that the cap or the pool refuses. */
  lemma LoginRefused(c: Config, s: State, rows: seq<Row>,
                     accountId: int, key: int, token: int, peerOk: bool, insertOk: bool)
    requires c.Valid() && s.hand.Idle? && s.rows == AbsRows(c.pool, rows) && KeyUnused(rows, key)
    requires |ActiveIds(rows, accountId, s.now)| >= 5 || Allocate(c.pool, s.used).None?
    ensures Run(c, s, LoginEvents(accountId, key, peerOk, insertOk, token)) ==
            if |ActiveIds(rows, accountId, s.now)| >= 5 then s else s.(used := AfterAllocate(c.pool, s.used))
  {
    LoginSteps(c, s, accountId, key, peerOk, insertOk, token);
    CountIsCardinality(c.pool, rows, accountId, s.now);
  }

  lemma IpOfHost(p: Pool, used: set<nat>, host: nat)
    requires p.Valid() && Allocate(p, used) == Some(host)
    ensures IpOf(p, HostText(p.start + host)) == host
  {
    TextNamesMember(p, host);
    IpOfMember(p, TextOf(p, host), host);
  }

  lemma IpOfMember(p: Pool, text: cstr, i: nat)
    requires MemberOf(p, text) == Some(i)
    ensures IpOf(p, text) == i
  {}

  /** A login with an address, all effects done. */
  lemma LoginDone(c: Config, s: State, rows: seq<Row>, peers: map<int, cstr>,
                  accountId: int, key: int, token: int, host: nat, row: Row)
    requires c.Valid() && s.hand.Idle? && Shows(s, c.pool, rows, peers)
    requires LoginSucceeds(c, s, accountId, true, true, token) && KeyIsNew(s.rows, key)
    requires Allocate(c.pool, s.used) == Some(host)
    requires row == Row(accountId, key, HostText(c.pool.start + host), token, s.now + c.ttl, false)
    ensures Run(c, s, LoginEvents(accountId, key, true, true, token)) ==
            s.(used := AfterAllocate(c.pool, s.used), peers := AbsPeers(c.pool, peers[key := row.allowedIp]),
               rows := AbsRows(c.pool, rows + [row]), logins := s.logins + 1)
  {
    IpOfHost(c.pool, s.used, host);
    AbsAddPeer(c.pool, peers, key, row.allowedIp);
    AbsAppend(c.pool, rows, row);
    LoginAdds(c, s, AbsRow(c.pool, row), AbsRows(c.pool, rows + [row]), AbsPeers(c.pool, peers[key := row.allowedIp]));
  }

  lemma LoginSucceedsOnTables(c: Config, s: State, rows: seq<Row>, accountId: int, key: int, token: int)
    requires s.rows == AbsRows(c.pool, rows) && TokensUnique(rows)
    requires KeyUnused(rows, key) && TokenIsNew(rows, token)
    requires |ActiveIds(rows, accountId, s.now)| < 5 && Allocate(c.pool, s.used).Some?
    ensures LoginSucceeds(c, s, accountId, true, true, token) && KeyIsNew(s.rows, key)
  {
    CountIsCardinality(c.pool, rows, accountId, s.now);
    LookupIsRow(c.pool, rows, token);
  }

  lemma LoginAdds(c: Config, s: State, r: Session, rows: Table, peers: map<int, nat>)
    requires c.Valid() && s.hand.Idle? && KeyIsNew(s.rows, r.key)
    requires LoginSucceeds(c, s, r.account, true, true, r.token)
    requires Allocate(c.pool, s.used) == Some(r.ip) && r.expiresAt == s.now + c.ttl && !r.revoked
    requires rows == s.rows + [r] && peers == s.peers[r.key := r.ip]
    ensures Run(c, s, LoginEvents(r.account, r.key, true, true, r.token)) ==
            s.(used := AfterAllocate(c.pool, s.used), peers := peers, rows := rows, logins := s.logins + 1)
  {
    LoginSuccess(c, s, r.account, r.key, r.token);
    assert r == Session(r.account, r.key, r.ip, r.token, s.now + c.ttl, false);
  }

  /** A login with an address, one effect failing. */
  lemma LoginUndone(c: Config, s: State, rows: seq<Row>, peers: map<int, cstr>,
                    accountId: int, key: int, token: int, peerOk: bool, insertOk: bool, host: nat)
    requires c.Valid() && s.hand.Idle? && Shows(s, c.pool, rows, peers)
    requires TokensUnique(rows) && KeyUnused(rows, key) && !(peerOk && insertOk && TokenIsNew(rows, token))
    requires |ActiveIds(rows, accountId, s.now)| < 5 && Allocate(c.pool, s.used) == Some(host)
    ensures Run(c, s, LoginEvents(accountId, key, peerOk, insertOk, token)) ==
            s.(used := AfterAllocate(c.pool, s.used) - {host},
               peers := AbsPeers(c.pool, if peerOk then peers - {key} else peers))
  {
    LoginSteps(c, s, accountId, key, peerOk, insertOk, token);
    CountIsCardinality(c.pool, rows, accountId, s.now);
    LookupIsRow(c.pool, rows, token);
    IpOfHost(c.pool, s.used, host);
    AbsAddPeer(c.pool, peers, key, HostText(c.pool.start + host));
  }

  lemma UnknownToken(c: Config, s: State, rows: seq<Row>, token: int)
    requires c.Valid() && s.hand.Idle? && s.rows == AbsRows(c.pool, rows) && TokenIsNew(rows, token)
    ensures Run(c, s, LogoutEvents(token)) == s && Run(c, s, RenewEvents(token)) == s
  {
    assert forall i | 0 <= i < |rows| :: s.rows[i].token == rows[i].sessionToken;
    assert Lookup(s.rows, token).None?;
    LogoutOutcome(c, s, token);
    RenewOutcome(c, s, token);
  }

  lemma LogoutOnTables(c: Config, s: State, rows: seq<Row>, peers: map<int, cstr>, token: int, id: nat)
    requires c.Valid() && s.hand.Idle? && Shows(s, c.pool, rows, peers) && TokensUnique(rows)
    requires RowOf(rows, token, id)
    ensures Run(c, s, LogoutEvents(token)) ==
            if rows[id].revoked || rows[id].expiresAt < s.now then s
            else s.(rows := AbsRows(c.pool, rows[id := rows[id].(revoked := true)]),
                    peers := AbsPeers(c.pool, peers - {rows[id].devicePubkey}),
                    used := s.used - {IpOf(c.pool, rows[id].allowedIp)},
                    logouts := s.logouts + 1)
  {
    LogoutOutcome(c, s, token);
    LookupIsRow(c.pool, rows, token);
    AbsUpdate(c.pool, rows, id, rows[id].(revoked := true));
    AbsAddPeer(c.pool, peers, rows[id].devicePubkey, []);
  }

  lemma RenewOnTables(c: Config, s: State, rows: seq<Row>, token: int, id: nat, row: Row)
    requires c.Valid() && s.hand.Idle? && s.rows == AbsRows(c.pool, rows) && TokensUnique(rows)
    requires RowOf(rows, token, id) && row == rows[id].(expiresAt := s.now + c.ttl)
    ensures Run(c, s, RenewEvents(token)) ==
            if rows[id].revoked || rows[id].expiresAt + c.grace < s.now then s
            else s.(rows := AbsRows(c.pool, rows[id := row]))
  {
    LookupIsRow(c.pool, rows, token);
    AbsUpdate(c.pool, rows, id, row);
    RenewChanges(c, s, token, id, AbsRow(c.pool, row), AbsRows(c.pool, rows[id := row]));
  }

  lemma RenewChanges(c: Config, s: State, token: int, id: nat, r: Session, rows: Table)
    requires c.Valid() && s.hand.Idle? && Lookup(s.rows, token) == Some(id)
    requires r == s.rows[id].(expiresAt := s.now + c.ttl) && rows == s.rows[id := r]
    ensures Run(c, s, RenewEvents(token)) ==
            if s.rows[id].revoked || s.rows[id].expiresAt + c.grace < s.now then s else s.(rows := rows)
  {
    RenewOutcome(c, s, token);
  }

  lemma ReapOnTables(s: State, p: Pool, rows: seq<Row>, peers: map<int, cstr>, id: nat)
    requires Shows(s, p, rows, peers) && s.phase == Start && s.work != [] && s.work[0] == id < |rows|
    ensures OneReaped(s) == s.(rows := AbsRows(p, rows[id := rows[id].(revoked := true)]),
                               peers := AbsPeers(p, peers - {rows[id].devicePubkey}),
                               used := s.used - {IpOf(p, rows[id].allowedIp)},
                               work := s.work[1..], expirations := s.expirations + 1)
  {
    AbsUpdate(p, rows, id, rows[id].(revoked := true));
    AbsAddPeer(p, peers, rows[id].devicePubkey, []);
  }

  // ---------------------------------------------------------------- the expiry query

  /** The ids of the expired rows among the first n. */
  function ExpiredIds(rows: Table, now: int): (ids: seq<nat>)
    ensures |ids| == Count(rows, ExpiredAt(now))
    ensures forall k :: 0 <= k < |ids| ==> ids[k] < |rows| && ExpiredAt(now)(rows[ids[k]])
    ensures forall j, k :: 0 <= j < k < |ids| ==> ids[j] < ids[k]
  {
    if rows == [] then []
    else
      var n := |rows| - 1;
      ExpiredIds(rows[..n], now) + if ExpiredAt(now)(rows[n]) then [n] else []
  }

  /** What the query returns when it lists rows in the order of their ids. */
  function Selected(rows: Table, now: int): (ids: seq<nat>)
    ensures SweepOf(rows, now, ids)
  {
    var all := ExpiredIds(rows, now);
    if |all| <= SWEEP_LIMIT then all else all[..SWEEP_LIMIT]
  }

  /** The rows with those ids. */
  function Copies(ids: seq<nat>, rows: seq<Row>): (r: seq<Listed>)
    requires forall k :: 0 <= k < |ids| ==> ids[k] < |rows|
    ensures |r| == |ids| && forall k :: 0 <= k < |ids| ==> r[k] == Listed(ids[k], rows[ids[k]])
  {
    seq(|ids|, k requires 0 <= k < |ids| => Listed(ids[k], rows[ids[k]]))
  }

  // ---------------------------------------------------------------- ended sessions

  function KeysOf(rows: seq<Row>, ids: set<nat>): set<int>
    requires forall id :: id in ids ==> id < |rows|
  {
    set id | id in ids :: rows[id].devicePubkey
  }

  function IpsOf(p: Pool, rows: seq<Row>, ids: set<nat>): set<nat>
    requires forall id :: id in ids ==> id < |rows|
  {
    set id | id in ids :: IpOf(p, rows[id].allowedIp)
  }

  /** Those rows are revoked, their peers removed and their addresses released; nothing else
      has changed. */
  ghost predicate Ended(p: Pool, rows: seq<Row>, peers: map<int, cstr>, used: set<nat>, ids: set<nat>,
                        rows': seq<Row>, peers': map<int, cstr>, used': set<nat>)
  {
    && |rows'| == |rows| && (forall id :: id in ids ==> id < |rows|)
    && (forall id | 0 <= id < |rows| :: rows'[id] == if id in ids then rows[id].(revoked := true) else rows[id])
    && peers' == peers - KeysOf(rows, ids)
    && used' == used - IpsOf(p, rows, ids)
  }

  /** The marks of the addresses that those rows name are taken away, and no other. */
  ghost predicate FreesAll(used: set<nat>, used': set<nat>, start: nat, rows: seq<Row>, ids: set<nat>)
    requires forall id :: id in ids ==> id < |rows|
  {
    forall k: nat :: k in used' <==> k in used && !NamesMember(rows, ids, start, k)
  }

  /** Whether one of those rows has the address of member k. */
  predicate NamesMember(rows: seq<Row>, ids: set<nat>, start: nat, k: nat)
    requires forall id :: id in ids ==> id < |rows|
  {
    exists id | id in ids :: AddressOf(rows[id].allowedIp) == Some(start + k)
  }

  /** In terms of the rows: whose peer is removed. */
  lemma KeysEnded(rows: seq<Row>, peers: map<int, cstr>, ids: set<nat>)
    requires forall id :: id in ids ==> id < |rows|
    ensures forall key :: key in peers - KeysOf(rows, ids) <==>
              key in peers && forall id | id in ids :: rows[id].devicePubkey != key
  {}

  /** In terms of the rows: which marks are taken away. */
  lemma MarksEnded(p: Pool, rows: seq<Row>, used: set<nat>, ids: set<nat>)
    requires forall id :: id in ids ==> id < |rows|
    requires forall k :: k in used ==> k < p.size
    ensures FreesAll(used, used - IpsOf(p, rows, ids), p.start, rows, ids)
  {
    forall k: nat | k in used
      ensures k in IpsOf(p, rows, ids) <==> NamesMember(rows, ids, p.start, k)
    {
      MemberNamed(p, rows, ids, k);
    }
  }

  lemma MemberNamed(p: Pool, rows: seq<Row>, ids: set<nat>, k: nat)
    requires (forall id :: id in ids ==> id < |rows|) && k < p.size
    ensures k in IpsOf(p, rows, ids) <==> NamesMember(rows, ids, p.start, k)
  {
    forall id | id in ids
      ensures IpOf(p, rows[id].allowedIp) == k <==> AddressOf(rows[id].allowedIp) == Some(p.start + k)
    {
      IpOfIs(p, rows[id].allowedIp, k);
    }
  }

  lemma IpOfIs(p: Pool, text: cstr, k: nat)
    requires k < p.size
    ensures IpOf(p, text) == k <==> AddressOf(text) == Some(p.start + k)
  {}

  lemma EndedNone(p: Pool, rows: seq<Row>, peers: map<int, cstr>, used: set<nat>)
    ensures Ended(p, rows, peers, used, {}, rows, peers, used)
  {
    assert peers == peers - {};
  }

  lemma EndedMore(p: Pool, rows: seq<Row>, peers: map<int, cstr>, used: set<nat>, ids: set<nat>,
                  rows': seq<Row>, peers': map<int, cstr>, used': set<nat>, id: nat)
    requires Ended(p, rows, peers, used, ids, rows', peers', used') && id < |rows|
    ensures Ended(p, rows, peers, used, ids + {id}, rows'[id := rows'[id].(revoked := true)],
                  peers' - {rows[id].devicePubkey}, used' - {IpOf(p, rows[id].allowedIp)})
  {
    OneMore(p, rows, ids, id);
    RemoveTwice(peers, KeysOf(rows, ids), rows[id].devicePubkey);
    assert used' - {IpOf(p, rows[id].allowedIp)} == used - (IpsOf(p, rows, ids) + {IpOf(p, rows[id].allowedIp)});
  }

  lemma OneMore(p: Pool, rows: seq<Row>, ids: set<nat>, id: nat)
    requires (forall k :: k in ids ==> k < |rows|) && id < |rows|
    ensures KeysOf(rows, ids + {id}) == KeysOf(rows, ids) + {rows[id].devicePubkey}
    ensures IpsOf(p, rows, ids + {id}) == IpsOf(p, rows, ids) + {IpOf(p, rows[id].allowedIp)}
  {}

  lemma RemoveTwice(peers: map<int, cstr>, keys: set<int>, key: int)
    ensures peers - keys - {key} == peers - (keys + {key})
  {}

  /** Copies of the rows with those ids. */
  predicate Listing(ids: seq<nat>, list: seq<Listed>, rows: seq<Row>) {
    |ids| == |list| && forall k | 0 <= k < |ids| :: ids[k] < |rows| && list[k] == Listed(ids[k], rows[ids[k]])
  }

  function IdSet(ids: seq<nat>): set<nat> {
    set id | id in ids
  }

  lemma IdSetMore(ids: seq<nat>, n: nat)
    requires n < |ids|
    ensures IdSet(ids[..n + 1]) == IdSet(ids[..n]) + {ids[n]}
  {
    assert ids[..n + 1] == ids[..n] + [ids[n]];
  }

  /** What the query returns: as many as there are, up to one hundred. */
  lemma SelectedSize(p: Pool, rows: seq<Row>, now: int)
    ensures var ids := Selected(AbsRows(p, rows), now);
            var lapsed := LapsedIds(rows, now);
            IdSet(ids) <= lapsed && |IdSet(ids)| == if |lapsed| < 100 then |lapsed| else 100
  {
    var ids := Selected(AbsRows(p, rows), now);
    CountIsLapsed(p, rows, now);
    var values := ValuesOfInjective(ids);
    assert values == IdSet(ids);
    forall id | id in IdSet(ids)
      ensures id in LapsedIds(rows, now)
    {
      var k :| 0 <= k < |ids| && ids[k] == id;
      assert ExpiredAt(now)(AbsRows(p, rows)[ids[k]]);
    }
  }
}

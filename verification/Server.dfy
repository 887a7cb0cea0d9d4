/** The request handlers, the reaper and the start of the server, working on the bitmap, the
    peers and the session table. Each is a run of the lease machine. */
module Server {
  import opened Bytes
  import opened Ipv4
  import opened IpPool
  import opened Ownership
  import opened Lease
  import opened LeaseRuns
  import opened LeaseProgress
  import opened LeaseRequests
  import opened RateLimit
  import opened ServerTables

  class VpnServer {
    const pool: AddressPool
    const fails: FailTable
    const ttl: nat
    const grace: nat
    /** The sessions table. */
    var rows: seq<Row>
    /** The peers of the interface, with the address each may use. */
    var peers: map<int, cstr>
    /** Where the reaper thread is in the meantime, and what happened so far. */
    ghost var work: seq<nat>
    ghost var phase: Phase
    ghost var logins: nat
    ghost var logouts: nat
    ghost var expirations: nat

    constructor (rows: seq<Row>, ttl: nat, grace: nat)
      requires 60 <= ttl <= 86400 * 30 && grace <= 86400 && TokensUnique(rows)
      ensures this.rows == rows && this.ttl == ttl && this.grace == grace
      ensures fresh(pool) && fresh(pool.bitmap) && fresh(fails) && fresh(fails.table)
      ensures fails.table.Length == MAX_TRACKED_IPS && Separated()
    {
      this.rows, this.ttl, this.grace := rows, ttl, grace;
      peers := map[];
      work, phase, logins, logouts, expirations := [], Start, 0, 0, 0;
      pool := new AddressPool();
      fails := new FailTable();
    }

    ghost function Conf(): Config
      reads pool
    {
      Config(pool.Shape(), ttl, grace)
    }

    ghost predicate Separated()
      reads pool
    {
      (fails.table as object) != (pool.bitmap as object)
    }

    ghost predicate Valid()
      reads pool
    {
      pool.Valid() && fails.table.Length == MAX_TRACKED_IPS && Separated() && Conf().Valid()
    }

    /** The state of the lease machine, between two requests. */
    ghost function Abs(now: int): State
      reads this, pool, pool.bitmap
    {
      State(pool.Used(), AbsPeers(pool.Shape(), peers), AbsRows(pool.Shape(), rows), now,
            work, phase, Idle, logins, logouts, expirations)
    }

    // -------------------------------------------------------------- the table

    method CountActiveSessions(accountId: int, now: int) returns (n: nat)
      ensures n == |ActiveIds(rows, accountId, now)|
    {
      var i := 0;
      n := 0;
      assert rows[..0] == [];
      while i < |rows|
        invariant 0 <= i <= |rows| && n == |ActiveIds(rows[..i], accountId, now)|
      {
        assert rows[..i + 1][..i] == rows[..i];
        ActiveIdsLast(rows[..i + 1], accountId, now);
        if rows[i].accountId == accountId && !rows[i].revoked && rows[i].expiresAt >= now {
          n := n + 1;
        }
        i := i + 1;
      }
      assert rows[..i] == rows;
    }

    method GetSessionByToken(token: int) returns (r: Option<nat>)
      requires TokensUnique(rows)
      ensures r.None? <==> TokenIsNew(rows, token)
      ensures r.Some? ==> RowOf(rows, token, r.value)
    {
      var i := 0;
      while i < |rows|
        invariant 0 <= i <= |rows| && forall k | 0 <= k < i :: rows[k].sessionToken != token
      {
        if rows[i].sessionToken == token {
          return Some(i);
        }
        i := i + 1;
      }
      r := None;
    }

    /** db_create_session: fails when the token is taken, or for reasons of its own. */
    method CreateSession(row: Row, insertOk: bool) returns (ok: bool)
      requires TokensUnique(rows)
      modifies this`rows
      ensures ok <==> insertOk && TokenIsNew(old(rows), row.sessionToken)
      ensures rows == (if ok then old(rows) + [row] else old(rows)) && TokensUnique(rows)
    {
      var taken := GetSessionByToken(row.sessionToken);
      ok := insertOk && taken.None?;
      if ok {
        rows := rows + [row];
      }
    }

    // -------------------------------------------------------------- single effects

    /** ip_pool_release, whose failure the callers ignore. */
    method ReleaseIp(ip: cstr)
      requires Valid()
      modifies pool.bitmap
      ensures pool.Used() == old(pool.Used()) - {IpOf(pool.Shape(), ip)}
      ensures Frees(old(pool.Used()), pool.Used(), pool.poolStart, ip)
    {
      var released := pool.Release(ip);
      assert forall i: nat :: i in old(pool.Used()) ==> i < pool.numIps;
      assert pool.Used() == old(pool.Used()) - {IpOf(pool.Shape(), ip)};
    }

    /** db_revoke_session. */
    method RevokeSession(id: nat)
      requires id < |rows|
      modifies this`rows
      ensures rows == old(rows)[id := old(rows)[id].(revoked := true)]
    {
      rows := rows[id := rows[id].(revoked := true)];
    }

    /** What ends a session: no peer, no address, the row revoked. */
    method EndSession(id: nat, key: int, ip: cstr)
      requires Valid() && id < |rows|
      modifies this`rows, this`peers, pool.bitmap
      ensures peers == old(peers) - {key}
      ensures pool.Used() == old(pool.Used()) - {IpOf(pool.Shape(), ip)}
      ensures Frees(old(pool.Used()), pool.Used(), pool.poolStart, ip)
      ensures rows == old(rows)[id := old(rows)[id].(revoked := true)]
    {
      peers := peers - {key};
      ReleaseIp(ip);
      RevokeSession(id);
    }

    /** db_update_session_expiry. */
    method UpdateSessionExpiry(id: nat, expiresAt: int)
      requires id < |rows|
      modifies this`rows
      ensures rows == old(rows)[id := old(rows)[id].(expiresAt := expiresAt)]
    {
      rows := rows[id := rows[id].(expiresAt := expiresAt)];
    }

    /** ip_pool_allocate. */
    method TakeIp() returns (ip: Option<cstr>, ghost host: nat)
      requires Valid()
      modifies pool.bitmap
      ensures pool.Used() == AfterAllocate(pool.Shape(), old(pool.Used()))
      ensures Allocate(pool.Shape(), old(pool.Used())) == if ip.Some? then Some(host) else None
      ensures ip.Some? ==> ip.value == HostText(pool.poolStart + host) && IpOf(pool.Shape(), ip.value) == host
    {
      ip, host := pool.AllocateText();
      if ip.Some? {
        IpOfHost(pool.Shape(), old(pool.Used()), host);
      }
    }

    // -------------------------------------------------------------- login

    /** The peer is added, then the row, or the way back. */
    method Enroll(row: Row, peerOk: bool, insertOk: bool) returns (code: nat)
      requires Valid() && TokensUnique(rows)
      modifies this`rows, this`peers, this`logins, pool.bitmap
      ensures TokensUnique(rows)
      ensures code == if peerOk && insertOk && TokenIsNew(old(rows), row.sessionToken) then OK else SERVER_ERROR
      ensures if code == OK
              then && rows == old(rows) + [row] && peers == old(peers)[row.devicePubkey := row.allowedIp]
                   && pool.Used() == old(pool.Used()) && logins == old(logins) + 1
              else && rows == old(rows) && peers == (if peerOk then old(peers) - {row.devicePubkey} else old(peers))
                   && pool.Used() == old(pool.Used()) - {IpOf(pool.Shape(), row.allowedIp)} && logins == old(logins)
    {
      if !peerOk {
        ReleaseIp(row.allowedIp);
        return SERVER_ERROR;
      }
      peers := peers[row.devicePubkey := row.allowedIp];
      var created := CreateSession(row, insertOk);
      if created {
        logins := logins + 1;
        code := OK;
      } else {
        peers := peers - {row.devicePubkey};
        ReleaseIp(row.allowedIp);
        code := SERVER_ERROR;
      }
    }

    /** From the cap to the insertion. */
    method Grant(accountId: int, key: int, token: int, now: int, peerOk: bool, insertOk: bool)
      returns (code: nat, ghost host: nat)
      requires Valid() && TokensUnique(rows)
      modifies this`rows, this`peers, this`logins, pool.bitmap
      ensures TokensUnique(rows) && logins == old(logins) + if code == OK then 1 else 0
      ensures LoginResult(Conf(), old(pool.Used()), old(rows), old(peers), now, accountId, key, token, peerOk, insertOk,
                          code, host, pool.Used(), rows, peers)
    {
      host := 0;
      var active := CountActiveSessions(accountId, now);
      if active >= 5 {
        return TOO_MANY_REQUESTS, host;
      }
      var ip;
      ip, host := TakeIp();
      if ip.None? {
        return UNAVAILABLE, host;
      }
      code := Enroll(Row(accountId, key, ip.value, token, now + ttl, false), peerOk, insertOk);
    }

    /** The same as a run of the machine, and without the order of the steps. */
    method Admit(id: int, key: int, token: int, now: int, peerOk: bool, insertOk: bool)
      returns (code: nat, ghost host: nat)
      requires Valid() && TokensUnique(rows) && KeyUnused(rows, key)
      modifies this`rows, this`peers, this`logins, pool.bitmap
      ensures TokensUnique(rows)
      ensures LoginSeen(Conf(), old(pool.Used()), old(rows), old(peers), now, id, key, token, peerOk, insertOk,
                        code, host, pool.Used(), rows, peers)
      ensures Abs(now) == Run(Conf(), old(Abs(now)), LoginEvents(id, key, peerOk, insertOk, token))
    {
      ghost var s, rows0, peers0 := Abs(now), rows, peers;
      code, host := Grant(id, key, token, now, peerOk, insertOk);
      LoginMarks(Conf(), s.used, rows0, peers0, now, id, key, token, peerOk, insertOk, code, host,
                 pool.Used(), rows, peers);
      LoginIsRun(Conf(), s, Abs(now), rows0, peers0, id, key, token, peerOk, insertOk, code, host, rows, peers);
    }

    /** The checks on who asks: whether the login goes on, and the answer if it does not. */
    method Authenticate(client: Client, request: Credentials, now: int) returns (admitted: bool, code: Option<nat>)
      requires fails.table.Length == MAX_TRACKED_IPS
      modifies fails.table
      ensures admitted <==> Admits(old(Limited(fails.table[..], client, now)), request)
      ensures !admitted ==>
                code == if old(Limited(fails.table[..], client, now)) then Some(TOO_MANY_REQUESTS)
                        else if request.Malformed? then None
                        else if request.Incomplete? then Some(BAD_REQUEST) else Some(UNAUTHORIZED)
      ensures var checked := Checked(old(fails.table[..]), client, now);
              fails.table[..] ==
              if !admitted && code == Some(UNAUTHORIZED) then Record(checked, client, now) else checked
    {
      code := None;
      var limited := fails.CheckRateLimit(client, now);
      if limited {
        return false, Some(TOO_MANY_REQUESTS);
      }
      if request.Malformed? {
        return false, None;
      }
      if request.Incomplete? {
        return false, Some(BAD_REQUEST);
      }
      if request.account.None? {
        fails.RecordLoginFailure(client, now);
        return false, Some(UNAUTHORIZED);
      }
      var account := request.account.value;
      if account.disabled {
        fails.RecordLoginFailure(client, now);
        return false, Some(UNAUTHORIZED);
      }
      if !request.passwordOk {
        fails.RecordLoginFailure(client, now);
        return false, Some(UNAUTHORIZED);
      }
      admitted := true;
    }

    /** Who asks, then what is granted. */
    method Login(client: Client, request: Credentials, key: int, token: int, now: int, peerOk: bool, insertOk: bool)
      returns (code: Option<nat>, ghost host: nat)
      requires Valid() && TokensUnique(rows) && KeyUnused(rows, key)
      modifies this`rows, this`peers, this`logins, pool.bitmap, fails.table
      ensures Valid() && TokensUnique(rows)
      ensures var limited := old(Limited(fails.table[..], client, now));
              if Admits(limited, request) then
                && code.Some?
                && LoginSeen(Conf(), old(pool.Used()), old(rows), old(peers), now, request.account.value.id, key, token,
                             peerOk, insertOk, code.value, host, pool.Used(), rows, peers)
              else
                && rows == old(rows) && peers == old(peers) && pool.Used() == old(pool.Used())
                && code == if limited then Some(TOO_MANY_REQUESTS)
                           else if request.Malformed? then None
                           else if request.Incomplete? then Some(BAD_REQUEST) else Some(UNAUTHORIZED)
      ensures var checked := Checked(old(fails.table[..]), client, now);
              fails.table[..] == if code == Some(UNAUTHORIZED) then Record(checked, client, now) else checked
      ensures Abs(now) ==
              if Admits(old(Limited(fails.table[..], client, now)), request)
              then Run(Conf(), old(Abs(now)), LoginEvents(request.account.value.id, key, peerOk, insertOk, token))
              else old(Abs(now))
    {
      host := 0;
      var admitted;
      admitted, code := Authenticate(client, request, now);
      if !admitted {
        return;
      }
      var granted;
      granted, host := Admit(request.account.value.id, key, token, now, peerOk, insertOk);
      code := Some(granted);
    }

    /** handle_login; no answer at all to a body that is not JSON. */
    method HandleLogin(client: Client, request: Credentials, key: int, token: int, now: int,
                       peerOk: bool, insertOk: bool) returns (code: Option<nat>, ghost host: nat)
      requires Valid() && TokensUnique(rows) && KeyUnused(rows, key)
      modifies this`rows, this`peers, this`logins, pool.bitmap, fails.table
      ensures Valid() && TokensUnique(rows)
      // the answer
      ensures var limited := old(Limited(fails.table[..], client, now));
              var admitted := !limited && request.Given? && request.passwordOk
                              && request.account.Some? && !request.account.value.disabled;
              var live := if admitted then |ActiveIds(old(rows), request.account.value.id, now)| else 0;
              var free := exists k :: 0 < k < pool.numIps - 1 && k !in old(pool.Used()) &&
                            !(pool.excludeStart <= pool.poolStart + k <= pool.excludeEnd);
              var effects := peerOk && insertOk
                             && forall i | 0 <= i < |old(rows)| :: old(rows)[i].sessionToken != token;
              && (code == Some(200) <==> admitted && live < 5 && free && effects)
              && (code == Some(429) <==> limited || (admitted && live >= 5))
              && (code == Some(503) <==> admitted && live < 5 && !free)
              && (code == Some(500) <==> admitted && live < 5 && free && !effects)
              && (code == Some(401) <==> !limited && request.Given? && !admitted)
              && (code == Some(400) <==> !limited && request.Incomplete?)
              && (code == None <==> !limited && request.Malformed?)
      // the session
      ensures code == Some(200) ==>
                && |rows| == |old(rows)| + 1 && old(rows) <= rows
                && var row := rows[|old(rows)|];
                   && row.accountId == request.account.value.id && row.devicePubkey == key
                   && row.sessionToken == token && row.expiresAt == now + ttl && !row.revoked
                   && peers == old(peers)[key := row.allowedIp]
      // what is left behind, and the run
      ensures if Admits(old(Limited(fails.table[..], client, now)), request)
              then code.Some? &&
                   LoginSeen(Conf(), old(pool.Used()), old(rows), old(peers), now, request.account.value.id, key, token,
                             peerOk, insertOk, code.value, host, pool.Used(), rows, peers) &&
                   Abs(now) == Run(Conf(), old(Abs(now)),
                                   LoginEvents(request.account.value.id, key, peerOk, insertOk, token))
              else peers == old(peers) && pool.Used() == old(pool.Used()) && Abs(now) == old(Abs(now))
      ensures code != Some(200) ==> rows == old(rows)
      // the failures
      ensures var checked := Checked(old(fails.table[..]), client, now);
              fails.table[..] == if code == Some(401) then Record(checked, client, now) else checked
    {
      ghost var limited := Limited(fails.table[..], client, now);
      code, host := Login(client, request, key, token, now, peerOk, insertOk);
      if Admits(limited, request) {
        SeenAdds(Conf(), old(pool.Used()), old(rows), old(peers), now, request.account.value.id, key, token,
                 peerOk, insertOk, code.value, host, pool.Used(), rows, peers);
      }
    }

    // -------------------------------------------------------------- logout, renew, status

    /** handle_logout: a live session loses its peer, its address and its row. */
    method HandleLogout(token: int, now: int) returns (code: nat)
      requires Valid() && TokensUnique(rows)
      modifies this`rows, this`peers, this`logouts, pool.bitmap
      ensures Valid() && TokensUnique(rows)
      ensures code == 200 <==> exists i :: 0 <= i < |old(rows)| && old(rows)[i].sessionToken == token
                                 && !old(rows)[i].revoked && old(rows)[i].expiresAt >= now
      ensures code == 401 <==> exists i :: 0 <= i < |old(rows)| && old(rows)[i].sessionToken == token
                                 && !old(rows)[i].revoked && old(rows)[i].expiresAt < now
      ensures code == 409 <==> exists i :: 0 <= i < |old(rows)| && old(rows)[i].sessionToken == token
                                 && old(rows)[i].revoked
      ensures code == 404 <==> forall i | 0 <= i < |old(rows)| :: old(rows)[i].sessionToken != token
      ensures |rows| == |old(rows)| && forall i | 0 <= i < |rows| ::
                rows[i] == if code == 200 && old(rows)[i].sessionToken == token then old(rows)[i].(revoked := true)
                           else old(rows)[i]
      ensures code != 200 ==> peers == old(peers) && pool.Used() == old(pool.Used())
      ensures code == 200 ==> forall i | 0 <= i < |old(rows)| && old(rows)[i].sessionToken == token ::
                peers == old(peers) - {old(rows)[i].devicePubkey} &&
                Frees(old(pool.Used()), pool.Used(), pool.poolStart, old(rows)[i].allowedIp)
      ensures Abs(now) == Run(Conf(), old(Abs(now)), LogoutEvents(token))
    {
      ghost var c, s := Conf(), Abs(now);
      var found := GetSessionByToken(token);
      if found.None? {
        UnknownToken(c, s, rows, token);
        return NOT_FOUND;
      }
      var id := found.value;
      LogoutOnTables(c, s, rows, peers, token, id);
      var session := rows[id];
      if session.revoked {
        return CONFLICT;
      }
      if session.expiresAt < now {
        return UNAUTHORIZED;
      }
      EndSession(id, session.devicePubkey, session.allowedIp);
      logouts := logouts + 1;
      code := OK;
    }

    /** handle_renew: a session that is not revoked gets a new end, up to the grace period
        after its old one. */
    method HandleRenew(token: int, now: int) returns (code: nat, expiresAt: int)
      requires Valid() && TokensUnique(rows)
      modifies this`rows
      ensures Valid() && TokensUnique(rows)
      ensures code == 200 <==> exists i :: 0 <= i < |old(rows)| && old(rows)[i].sessionToken == token
                                 && !old(rows)[i].revoked && old(rows)[i].expiresAt + grace >= now
      ensures code == 403 <==> exists i :: 0 <= i < |old(rows)| && old(rows)[i].sessionToken == token
                                 && (old(rows)[i].revoked || old(rows)[i].expiresAt + grace < now)
      ensures code == 404 <==> forall i | 0 <= i < |old(rows)| :: old(rows)[i].sessionToken != token
      ensures code == 200 ==> expiresAt == now + ttl
      ensures |rows| == |old(rows)| && forall i | 0 <= i < |rows| ::
                rows[i] == if code == 200 && old(rows)[i].sessionToken == token
                           then old(rows)[i].(expiresAt := now + ttl)
                           else old(rows)[i]
      ensures Abs(now) == Run(Conf(), old(Abs(now)), RenewEvents(token))
    {
      ghost var c, s := Conf(), Abs(now);
      expiresAt := 0;
      var found := GetSessionByToken(token);
      if found.None? {
        UnknownToken(c, s, rows, token);
        return NOT_FOUND, expiresAt;
      }
      var id := found.value;
      RenewOnTables(c, s, rows, token, id, rows[id].(expiresAt := now + ttl));
      if rows[id].revoked {
        return FORBIDDEN, expiresAt;
      }
      if rows[id].expiresAt + grace < now {
        return FORBIDDEN, expiresAt;
      }
      expiresAt := now + ttl;
      UpdateSessionExpiry(id, expiresAt);
      code := OK;
    }

    /** handle_status: the row of a live session; changes nothing. */
    method HandleStatus(token: int, now: int) returns (code: nat, session: Option<Row>)
      requires Valid() && TokensUnique(rows)
      ensures code == 200 <==> exists i :: 0 <= i < |rows| && rows[i].sessionToken == token
                                 && !rows[i].revoked && rows[i].expiresAt >= now
      ensures code == 403 <==> exists i :: 0 <= i < |rows| && rows[i].sessionToken == token
                                 && (rows[i].revoked || rows[i].expiresAt < now)
      ensures code == 404 <==> forall i | 0 <= i < |rows| :: rows[i].sessionToken != token
      ensures code == 200 ==> session.Some? && session.value in rows && session.value.sessionToken == token
      ensures code == 200 <==> StatusAccepts(Abs(now), token)
    {
      LookupIsRow(pool.Shape(), rows, token);
      session := None;
      var found := GetSessionByToken(token);
      if found.None? {
        return NOT_FOUND, session;
      }
      var row := rows[found.value];
      if row.revoked {
        return FORBIDDEN, session;
      }
      if row.expiresAt < now {
        return FORBIDDEN, session;
      }
      return OK, Some(row);
    }

    // -------------------------------------------------------------- the reaper

    /** realloc to a larger size. */
    method Reallocate(buf: array<Listed>, size: nat) returns (r: array<Listed>)
      requires buf.Length <= size
      ensures fresh(r) && r.Length == size && r[..buf.Length] == buf[..]
    {
      r := new Listed[size](_ => Listed(0, Row(0, 0, [], 0, 0, false)));
      var i := 0;
      while i < buf.Length
        invariant 0 <= i <= buf.Length && r[..i] == buf[..i]
      {
        r[i] := buf[i];
        i := i + 1;
      }
    }

    /** Copies rows into a buffer that starts with room for 64 and doubles when it is full. */
    method CopyOut(ids: seq<nat>) returns (buf: array<Listed>, count: nat)
      requires forall k :: 0 <= k < |ids| ==> ids[k] < |rows|
      ensures fresh(buf) && count == |ids| <= buf.Length && buf[..count] == Copies(ids, rows)
    {
      var capacity := 64;
      buf := new Listed[capacity](_ => Listed(0, Row(0, 0, [], 0, 0, false)));
      count := 0;
      while count < |ids|
        invariant 0 <= count <= |ids| && fresh(buf) && buf.Length == capacity >= 64
        invariant count <= capacity
        invariant buf[..count] == Copies(ids, rows)[..count]
      {
        if count >= capacity {
          capacity := capacity * 2;
          var grown := Reallocate(buf, capacity);
          assert grown[..count] == buf[..count];
          buf := grown;
        }
        buf[count] := Listed(ids[count], rows[ids[count]]);
        assert buf[..count + 1] == buf[..count] + [buf[count]];
        assert Copies(ids, rows)[..count + 1] == Copies(ids, rows)[..count] + [buf[count]];
        count := count + 1;
      }
    }

    /** db_get_expired_sessions. */
    method GetExpiredSessions(now: int) returns (buf: array<Listed>, count: nat)
      requires Valid()
      ensures fresh(buf) && count <= buf.Length
      ensures buf[..count] == Copies(Selected(AbsRows(pool.Shape(), rows), now), rows)
    {
      var ids := Selected(AbsRows(PoolShape(), rows), now);
      buf, count := CopyOut(ids);
    }

    function PoolShape(): Pool
      reads pool
    {
      Pool(pool.poolStart, pool.numIps, pool.excludeStart, pool.excludeEnd)
    }

    /** The i-th round of the loop: the three effects on one session of the list. */
    method ReapAt(list: seq<Listed>, i: nat, now: int, ghost ids: seq<nat>, ghost start: State,
                  ghost rows0: seq<Row>, ghost peers0: map<int, cstr>)
      requires i < |list| && Reaping(list, i, now, ids, start, rows0, peers0)
      modifies this`rows, this`peers, this`work, this`expirations, pool.bitmap
      ensures Reaping(list, i + 1, now, ids, start, rows0, peers0)
    {
      ghost var s, p, rows1, peers1 := Abs(now), pool.Shape(), rows, peers;
      var session := list[i];
      assert work[0] == session.id && work[1..] == ids[i + 1..];
      EndedMore(p, rows0, peers0, start.used, IdSet(ids[..i]), rows, peers, s.used, session.id);
      IdSetMore(ids, i);
      ReapOnTables(s, p, rows, peers, session.id);
      EndSession(session.id, session.row.devicePubkey, session.row.allowedIp);
      work := work[1..];
      expirations := expirations + 1;
      ReapedNext(start, i);
    }

    /** i of the listed sessions have come to their end. */
    ghost predicate Reaping(list: seq<Listed>, i: nat, now: int, ids: seq<nat>, start: State,
                            rows0: seq<Row>, peers0: map<int, cstr>)
      reads this, pool, pool.bitmap
    {
      && Valid() && phase == Start && Listing(ids, list, rows0) && i <= |list|
      && work == ids[i..] && Abs(now) == Reaped(start, i)
      && Ended(pool.Shape(), rows0, peers0, start.used, IdSet(ids[..i]), rows, peers, pool.Used())
    }

    /** The loop over the list. */
    method ReapAll(list: seq<Listed>, now: int, ghost ids: seq<nat>, ghost start: State)
      requires Valid() && phase == Start && Listing(ids, list, rows) && work == ids && Abs(now) == start
      modifies this`rows, this`peers, this`work, this`expirations, pool.bitmap
      ensures phase == Start && work == [] && Abs(now) == Reaped(start, |ids|)
      ensures Ended(pool.Shape(), old(rows), old(peers), old(pool.Used()), IdSet(ids), rows, peers, pool.Used())
    {
      ghost var rows0, peers0 := rows, peers;
      EndedNone(pool.Shape(), rows, peers, start.used);
      assert IdSet(ids[..0]) == {} && ids[|ids|..] == [] && ids[..|ids|] == ids;
      var i := 0;
      while i < |list|
        invariant Reaping(list, i, now, ids, start, rows0, peers0)
      {
        ReapAt(list, i, now, ids, start, rows0, peers0);
        i := i + 1;
      }
    }

    /** The query and the loop. */
    method ReapExpired(now: int) returns (ghost ended: set<nat>)
      requires Valid() && phase == Start && work == []
      modifies this`rows, this`peers, this`work, this`expirations, pool.bitmap
      ensures Valid() && phase == Start && work == []
      ensures ended <= LapsedIds(old(rows), now)
      ensures |ended| == if |LapsedIds(old(rows), now)| < 100 then |LapsedIds(old(rows), now)| else 100
      ensures Ended(pool.Shape(), old(rows), old(peers), old(pool.Used()), ended, rows, peers, pool.Used())
      ensures Abs(now) == Run(Conf(), old(Abs(now)), SweepEvents(Selected(old(Abs(now)).rows, now)))
    {
      ghost var s, rows0, peers0 := Abs(now), rows, peers;
      ghost var ids := Selected(s.rows, now);
      SelectedSize(pool.Shape(), rows, now);
      ended := IdSet(ids);
      var buf, count := GetExpiredSessions(now);
      var list := buf[..count];
      work := ids;
      ghost var s1 := DoSnapshot(s, ids);
      assert Abs(now) == s1;
      ReapAll(list, now, ids, s1);
      SweepIsRun(Conf(), s, ids);
    }

    /** One round of reaper_worker: the expired sessions come to their end, one hundred of them
        if there are more. */
    method Sweep(now: int) returns (ghost ended: set<nat>)
      requires Valid() && phase == Start && work == []
      modifies this`rows, this`peers, this`work, this`expirations, pool.bitmap
      ensures Valid() && phase == Start && work == []
      ensures forall id :: id in ended ==>
                id < |old(rows)| && !old(rows)[id].revoked && old(rows)[id].expiresAt < now
      ensures |ended| == if |LapsedIds(old(rows), now)| < 100 then |LapsedIds(old(rows), now)| else 100
      ensures |rows| == |old(rows)| && forall id | 0 <= id < |rows| ::
                rows[id] == if id in ended then old(rows)[id].(revoked := true) else old(rows)[id]
      ensures forall key :: key in peers <==>
                key in old(peers) && forall id | id in ended :: old(rows)[id].devicePubkey != key
      ensures forall key | key in peers :: peers[key] == old(peers)[key]
      ensures FreesAll(old(pool.Used()), pool.Used(), pool.poolStart, old(rows), ended)
      ensures Abs(now) == Run(Conf(), old(Abs(now)), SweepEvents(Selected(old(Abs(now)).rows, now)))
    {
      ghost var was := pool.Used();
      assert forall k :: k in was ==> k < pool.numIps;
      ended := ReapExpired(now);
      KeysEnded(old(rows), old(peers), ended);
      MarksEnded(pool.Shape(), old(rows), was, ended);
    }

    // -------------------------------------------------------------- start

    /** main: a new pool, an interface without dynamic peers, every old session revoked. */
    method StartUp(cidr: cstr, exclude: Option<cstr>, now: int) returns (ok: bool)
      requires 60 <= ttl <= 86400 * 30 && grace <= 86400 && fails.table.Length == MAX_TRACKED_IPS
      modifies this, pool
      ensures ok <==> AddressOf(cidr).Some? && 12 <= PrefixOf(cidr) <= 30
      ensures ok ==> Valid() && peers == map[] && pool.Used() == {0, pool.numIps - 1}
      ensures ok ==> |rows| == |old(rows)| && forall k | 0 <= k < |rows| :: rows[k] == old(rows)[k].(revoked := true)
      ensures ok ==> Abs(now) == Started(Conf(), AbsRows(pool.Shape(), old(rows)), now)
    {
      ok := pool.Init(cidr, exclude);
      if !ok {
        return;
      }
      Begin(now);
    }

    /** An interface without dynamic peers, and revoke_stale_sessions. */
    method Begin(ghost now: int)
      requires Valid() && pool.Used() == {0, pool.numIps - 1}
      modifies this
      ensures peers == map[]
      ensures |rows| == |old(rows)| && forall k | 0 <= k < |rows| :: rows[k] == old(rows)[k].(revoked := true)
      ensures Abs(now) == Started(Conf(), AbsRows(pool.Shape(), old(rows)), now)
    {
      peers := map[];
      work, phase, logins, logouts, expirations := [], Start, 0, 0, 0;
      RevokeAllActiveSessions();
      AbsRevokeAll(pool.Shape(), old(rows), rows);
    }

    /** UPDATE sessions SET revoked = 1 WHERE revoked = 0. */
    method RevokeAllActiveSessions()
      modifies this`rows
      ensures |rows| == |old(rows)| && forall k | 0 <= k < |rows| :: rows[k] == old(rows)[k].(revoked := true)
    {
      var i := 0;
      while i < |rows|
        invariant 0 <= i <= |rows| == |old(rows)|
        invariant forall k :: 0 <= k < |rows| ==>
                    rows[k] == if k < i then old(rows)[k].(revoked := true) else old(rows)[k]
      {
        rows := rows[i := rows[i].(revoked := true)];
        i := i + 1;
      }
    }
  }

  /** Whether a login gets past the checks on who asks. */
  predicate Admits(limited: bool, request: Credentials) {
    && !limited && request.Given? && request.account.Some? && !request.account.value.disabled && request.passwordOk
  }
}

/** What the address bitmap, the peer set and the session table owe each other, and how the
    elementary effects of the handlers and of the reaper keep it. A session counts as the
    holder of its address until the address is released, and as the holder of its peer until
    the peer is removed, whichever moment its row is marked revoked. */
module Ownership {
  import opened Bytes
  import opened IpPool

  /** A row of the session table; its id is its position. Keys and tokens are opaque. */
  datatype Session = Session(account: int, key: int, ip: nat, token: int, expiresAt: int, revoked: bool)

  type Table = seq<Session>

  /** A peer that a login has in hand before its row exists. */
  datatype Peer = Peer(key: int, ip: nat)

  predicate Holds(rows: Table, released: set<nat>, id: nat) {
    id < |rows| && !rows[id].revoked && id !in released
  }

  // ---------------------------------------------------------------- addresses

  /** Holders have distinct hosts, all marked; every marked host has a holder. `freed` are the
      rows whose address is released already, `pending` the address of a login under way. */
  ghost predicate IpsOwned(p: Pool, used: set<nat>, rows: Table, freed: set<nat>, pending: Option<nat>) {
    && HoldersMarked(p, used, rows, freed)
    && Apart(rows, freed)
    && PendingApart(p, used, rows, freed, pending)
    && (forall i :: i in used && p.Host(i) ==> Owned(rows, freed, pending, i))
    && Reserved(p, used)
  }

  predicate HoldersMarked(p: Pool, used: set<nat>, rows: Table, freed: set<nat>) {
    forall id | 0 <= id < |rows| && Holds(rows, freed, id) :: p.Host(rows[id].ip) && rows[id].ip in used
  }

  predicate Apart(rows: Table, freed: set<nat>) {
    forall a, b | 0 <= a < b < |rows| && Holds(rows, freed, a) && Holds(rows, freed, b) :: rows[a].ip != rows[b].ip
  }

  predicate PendingApart(p: Pool, used: set<nat>, rows: Table, freed: set<nat>, pending: Option<nat>) {
    pending.Some? ==>
      && p.Host(pending.value)
      && pending.value in used
      && forall id | 0 <= id < |rows| && Holds(rows, freed, id) :: rows[id].ip != pending.value
  }

  predicate Owned(rows: Table, freed: set<nat>, pending: Option<nat>, i: nat) {
    pending == Some(i) || exists id | 0 <= id < |rows| && Holds(rows, freed, id) :: rows[id].ip == i
  }

  /** The network and the broadcast address stay marked, and only members are. */
  predicate Reserved(p: Pool, used: set<nat>) {
    && p.size > 2
    && 0 in used && p.size - 1 in used
    && forall i :: i in used ==> i < p.size
  }

  /** A fresh pool owes nothing to revoked rows. */
  lemma NobodyOwns(p: Pool, rows: Table)
    requires p.Valid() && forall id | 0 <= id < |rows| :: rows[id].revoked
    ensures IpsOwned(p, {0, p.size - 1}, rows, {}, None)
  {}

  /** Allocation: the address found has no holder. */
  lemma AllocateKeepsIps(p: Pool, used: set<nat>, rows: Table, freed: set<nat>)
    requires p.Valid() && IpsOwned(p, used, rows, freed, None)
    ensures IpsOwned(p, AfterAllocate(p, used), rows, freed, Allocate(p, used))
  {
    AllocateIsLowest(p, used);
    var used' := AfterAllocate(p, used);
    forall i | i in used' && p.Host(i)
      ensures Owned(rows, freed, Allocate(p, used), i)
    {
      if i in used {
        assert Owned(rows, freed, None, i);
      }
    }
  }

  /** A failed login gives its address back. */
  lemma ReleasePendingKeepsIps(p: Pool, used: set<nat>, rows: Table, freed: set<nat>, ip: nat)
    requires IpsOwned(p, used, rows, freed, Some(ip))
    ensures IpsOwned(p, used - {ip}, rows, freed, None)
  {
    forall i | i in used - {ip} && p.Host(i)
      ensures Owned(rows, freed, None, i)
    {
      assert Owned(rows, freed, Some(ip), i);
    }
  }

  /** Inserting the row hands the address over to it. */
  lemma InsertKeepsIps(p: Pool, used: set<nat>, rows: Table, freed: set<nat>, row: Session)
    requires IpsOwned(p, used, rows, freed, Some(row.ip)) && !row.revoked
    requires forall id :: id in freed ==> id < |rows|
    ensures IpsOwned(p, used, rows + [row], freed, None)
  {
    var rows' := rows + [row];
    HoldsAfterInsert(rows, freed, row);
    forall i | i in used && p.Host(i)
      ensures Owned(rows', freed, None, i)
    {
      assert Owned(rows, freed, Some(row.ip), i);
      if i == row.ip {
        assert Holds(rows', freed, |rows|) && rows'[|rows|].ip == i;
      } else {
        var id :| 0 <= id < |rows| && Holds(rows, freed, id) && rows[id].ip == i;
        assert Holds(rows', freed, id);
      }
    }
  }

  lemma HoldsAfterInsert(rows: Table, freed: set<nat>, row: Session)
    requires !row.revoked && forall id :: id in freed ==> id < |rows|
    ensures forall id | 0 <= id < |rows| :: Holds(rows + [row], freed, id) == Holds(rows, freed, id)
  {
    forall id | 0 <= id < |rows|
      ensures Holds(rows + [row], freed, id) == Holds(rows, freed, id)
    {
      assert (rows + [row])[id] == rows[id];
    }
  }

  /** Releasing the address of a holder. */
  lemma ReleaseKeepsIps(p: Pool, used: set<nat>, rows: Table, freed: set<nat>, pending: Option<nat>, id: nat)
    requires IpsOwned(p, used, rows, freed, pending) && Holds(rows, freed, id)
    ensures IpsOwned(p, used - {rows[id].ip}, rows, freed + {id}, pending)
  {
    var freed' := freed + {id};
    assert forall k | 0 <= k < |rows| :: Holds(rows, freed', k) <==> Holds(rows, freed, k) && k != id;
    forall i | i in used - {rows[id].ip} && p.Host(i)
      ensures Owned(rows, freed', pending, i)
    {
      assert Owned(rows, freed, pending, i);
      if pending != Some(i) {
        var k :| 0 <= k < |rows| && Holds(rows, freed, k) && rows[k].ip == i;
        assert Holds(rows, freed', k);
      }
    }
  }

  /** Revoking a row whose address is released already changes no holder. */
  lemma RevokeKeepsIps(p: Pool, used: set<nat>, rows: Table, freed: set<nat>, pending: Option<nat>, id: nat)
    requires IpsOwned(p, used, rows, freed, pending) && id in freed && id < |rows|
    ensures IpsOwned(p, used, rows[id := rows[id].(revoked := true)], freed - {id}, pending)
  {
    SameHoldersIps(p, used, rows, freed, pending, rows[id := rows[id].(revoked := true)], freed - {id});
  }

  /** What matters of the table is who holds which address. */
  lemma SameHoldersIps(p: Pool, used: set<nat>, rows: Table, freed: set<nat>, pending: Option<nat>,
                       rows': Table, freed': set<nat>)
    requires IpsOwned(p, used, rows, freed, pending) && |rows'| == |rows|
    requires forall k | 0 <= k < |rows| :: Holds(rows', freed', k) == Holds(rows, freed, k) && rows'[k].ip == rows[k].ip
    ensures IpsOwned(p, used, rows', freed', pending)
  {
    forall i | i in used && p.Host(i)
      ensures Owned(rows', freed', pending, i)
    {
      assert Owned(rows, freed, pending, i);
      if pending != Some(i) {
        var k :| 0 <= k < |rows| && Holds(rows, freed, k) && rows[k].ip == i;
        assert Holds(rows', freed', k);
      }
    }
  }

  // ---------------------------------------------------------------- peers

  /** Holders have their peer, with their address; every peer has a holder. `gone` are the
      rows whose peer is removed already. */
  ghost predicate PeersOwned(peers: map<int, nat>, rows: Table, gone: set<nat>, pending: Option<Peer>) {
    && KeysDiffer(rows)
    && (forall id | 0 <= id < |rows| && Holds(rows, gone, id) ::
          rows[id].key in peers && peers[rows[id].key] == rows[id].ip)
    && (pending.Some? ==>
          && pending.value.key in peers && peers[pending.value.key] == pending.value.ip
          && KeyIsNew(rows, pending.value.key))
    && (forall key :: key in peers ==> HasHolder(rows, gone, pending, key))
  }

  predicate KeysDiffer(rows: Table) {
    forall a, b | 0 <= a < b < |rows| :: rows[a].key != rows[b].key
  }

  predicate KeyIsNew(rows: Table, key: int) {
    forall id | 0 <= id < |rows| :: rows[id].key != key
  }

  predicate HasHolder(rows: Table, gone: set<nat>, pending: Option<Peer>, key: int) {
    || (pending.Some? && pending.value.key == key)
    || exists id | 0 <= id < |rows| && Holds(rows, gone, id) :: rows[id].key == key
  }

  lemma NoPeers(rows: Table)
    requires KeysDiffer(rows) && forall id | 0 <= id < |rows| :: rows[id].revoked
    ensures PeersOwned(map[], rows, {}, None)
  {}

  /** A login adds a peer under a new key. */
  lemma AddKeepsPeers(peers: map<int, nat>, rows: Table, gone: set<nat>, peer: Peer)
    requires PeersOwned(peers, rows, gone, None) && KeyIsNew(rows, peer.key)
    ensures PeersOwned(peers[peer.key := peer.ip], rows, gone, Some(peer))
  {
    forall key | key in peers[peer.key := peer.ip]
      ensures HasHolder(rows, gone, Some(peer), key)
    {
      if key != peer.key {
        assert HasHolder(rows, gone, None, key);
      }
    }
  }

  /** A failed login removes it again. */
  lemma RemovePendingKeepsPeers(peers: map<int, nat>, rows: Table, gone: set<nat>, peer: Peer)
    requires PeersOwned(peers, rows, gone, Some(peer))
    ensures PeersOwned(peers - {peer.key}, rows, gone, None)
  {
    forall key | key in peers - {peer.key}
      ensures HasHolder(rows, gone, None, key)
    {
      assert HasHolder(rows, gone, Some(peer), key);
    }
  }

  /** Inserting the row hands the peer over to it. */
  lemma InsertKeepsPeers(peers: map<int, nat>, rows: Table, gone: set<nat>, row: Session)
    requires PeersOwned(peers, rows, gone, Some(Peer(row.key, row.ip))) && !row.revoked
    requires forall id :: id in gone ==> id < |rows|
    ensures PeersOwned(peers, rows + [row], gone, None)
  {
    var rows' := rows + [row];
    HoldsAfterInsert(rows, gone, row);
    forall key | key in peers
      ensures HasHolder(rows', gone, None, key)
    {
      assert HasHolder(rows, gone, Some(Peer(row.key, row.ip)), key);
      if key == row.key {
        assert Holds(rows', gone, |rows|) && rows'[|rows|].key == key;
      } else {
        var id :| 0 <= id < |rows| && Holds(rows, gone, id) && rows[id].key == key;
        assert Holds(rows', gone, id);
      }
    }
  }

  /** Removing the peer of a holder. */
  lemma RemoveKeepsPeers(peers: map<int, nat>, rows: Table, gone: set<nat>, pending: Option<Peer>, id: nat)
    requires PeersOwned(peers, rows, gone, pending) && Holds(rows, gone, id)
    ensures PeersOwned(peers - {rows[id].key}, rows, gone + {id}, pending)
  {
    var gone' := gone + {id};
    assert forall k | 0 <= k < |rows| :: Holds(rows, gone', k) <==> Holds(rows, gone, k) && k != id;
    forall key | key in peers - {rows[id].key}
      ensures HasHolder(rows, gone', pending, key)
    {
      assert HasHolder(rows, gone, pending, key);
      if !(pending.Some? && pending.value.key == key) {
        var k :| 0 <= k < |rows| && Holds(rows, gone, k) && rows[k].key == key;
        assert Holds(rows, gone', k);
      }
    }
  }

  lemma RevokeKeepsPeers(peers: map<int, nat>, rows: Table, gone: set<nat>, pending: Option<Peer>, id: nat)
    requires PeersOwned(peers, rows, gone, pending) && id in gone && id < |rows|
    ensures PeersOwned(peers, rows[id := rows[id].(revoked := true)], gone - {id}, pending)
  {
    SameHoldersPeers(peers, rows, gone, pending, rows[id := rows[id].(revoked := true)], gone - {id});
  }

  lemma SameHoldersPeers(peers: map<int, nat>, rows: Table, gone: set<nat>, pending: Option<Peer>,
                         rows': Table, gone': set<nat>)
    requires PeersOwned(peers, rows, gone, pending) && |rows'| == |rows|
    requires forall k | 0 <= k < |rows| ::
               Holds(rows', gone', k) == Holds(rows, gone, k)
               && rows'[k].ip == rows[k].ip && rows'[k].key == rows[k].key
    ensures PeersOwned(peers, rows', gone', pending)
  {
    forall key | key in peers
      ensures HasHolder(rows', gone', pending, key)
    {
      assert HasHolder(rows, gone, pending, key);
      if !(pending.Some? && pending.value.key == key) {
        var k :| 0 <= k < |rows| && Holds(rows, gone, k) && rows[k].key == key;
        assert Holds(rows', gone', k);
      }
    }
  }

  // ---------------------------------------------------------------- with nothing under way

  /** Unrevoked sessions hold distinct addresses, the marked hosts are exactly those, and
      every other mark is a reserved or an excluded address. */
  ghost predicate AddressesExact(p: Pool, used: set<nat>, rows: Table) {
    && (forall a, b | 0 <= a < b < |rows| && !rows[a].revoked && !rows[b].revoked :: rows[a].ip != rows[b].ip)
    && (set i | i in used && p.Host(i)) == (set id | 0 <= id < |rows| && !rows[id].revoked :: rows[id].ip)
    && (forall i :: i in used && !p.Host(i) ==> i == 0 || i == p.size - 1 || p.Excluded(i))
  }

  /** The peers are exactly those of the unrevoked sessions. */
  ghost predicate PeersExact(peers: map<int, nat>, rows: Table) {
    && KeysDiffer(rows)
    && peers == map id | 0 <= id < |rows| && !rows[id].revoked :: rows[id].key := rows[id].ip
  }

  lemma AddressesWhenQuiet(p: Pool, used: set<nat>, rows: Table)
    requires IpsOwned(p, used, rows, {}, None)
    ensures AddressesExact(p, used, rows)
  {
    assert forall id | 0 <= id < |rows| :: Holds(rows, {}, id) == !rows[id].revoked;
    var owned := set id | 0 <= id < |rows| && !rows[id].revoked :: rows[id].ip;
    forall i | i in used && p.Host(i)
      ensures i in owned
    {
      assert Owned(rows, {}, None, i);
    }
  }

  lemma PeersWhenQuiet(peers: map<int, nat>, rows: Table)
    requires PeersOwned(peers, rows, {}, None)
    ensures PeersExact(peers, rows)
  {
    assert forall id | 0 <= id < |rows| :: Holds(rows, {}, id) == !rows[id].revoked;
    forall key | key in peers
      ensures exists id :: 0 <= id < |rows| && !rows[id].revoked && rows[id].key == key
    {
      assert HasHolder(rows, {}, None, key);
    }
  }
}

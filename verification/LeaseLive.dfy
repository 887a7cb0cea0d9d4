/** What a live session is, for status, logout, renewal and the cap alike, and how long it may
    be one. */
module LeaseLive {
  import opened Bytes
  import opened IpPool
  import opened Ownership
  import opened Lease
  import opened LeaseSafety
  import opened LeaseLimits
  import opened LeaseRuns

  /** Status and logout accept a token exactly when some session has it that is neither revoked
      nor expired; renewal allows for the grace period. */
  lemma LiveTokens(c: Config, s: State, token: int)
    requires TokensDiffer(s.rows)
    ensures StatusAccepts(s, token) <==>
            exists i :: 0 <= i < |s.rows| && s.rows[i].token == token && !s.rows[i].revoked
                        && s.rows[i].expiresAt >= s.now
    ensures LogoutAccepts(s, token) <==>
            exists i :: 0 <= i < |s.rows| && s.rows[i].token == token && !s.rows[i].revoked
                        && s.rows[i].expiresAt >= s.now
    ensures RenewAccepts(c, s, token) <==>
            exists i :: 0 <= i < |s.rows| && s.rows[i].token == token && !s.rows[i].revoked
                        && s.rows[i].expiresAt + c.grace >= s.now
  {
    var r := Lookup(s.rows, token);
    assert r.Some? ==> forall i | 0 <= i < |s.rows| && s.rows[i].token == token :: i == r.value;
  }

  /** The ids of an account's sessions whose status is accepted. */
  function AcceptedIds(s: State, account: int): set<nat> {
    set i: nat | i < |s.rows| && s.rows[i].account == account && StatusAccepts(s, s.rows[i].token)
  }

  /** The cap counts just the sessions whose status is accepted. */
  lemma CapCountsLive(s: State, account: int)
    requires TokensDiffer(s.rows)
    ensures Count(s.rows, ActiveFor(account, s.now)) == |AcceptedIds(s, account)|
  {
    CountIsSize(s.rows, ActiveFor(account, s.now));
    forall i: nat | i < |s.rows|
      ensures StatusAccepts(s, s.rows[i].token) <==> !s.rows[i].revoked && s.rows[i].expiresAt >= s.now
    {
      LookupFinds(s.rows, s.rows[i].token, i);
    }
    assert AcceptedIds(s, account) == Ids(s.rows, ActiveFor(account, s.now));
  }

  /** No renewal of that session comes to its end. */
  predicate Untouched(c: Config, s: State, events: seq<Event>, id: nat)
    requires c.Valid()
    decreases |events|
  {
    events == [] ||
    (!(events[0].RenewEnd? && s.hand.RenewChecked? && s.hand.id == id)
     && Untouched(c, Next(c, s, events[0]), events[1..], id))
  }

  lemma NextKeepsEnd(c: Config, s: State, e: Event, id: nat)
    requires c.Valid() && id < |s.rows| && !(e.RenewEnd? && s.hand.RenewChecked? && s.hand.id == id)
    ensures id < |Next(c, s, e).rows| && Next(c, s, e).rows[id].expiresAt == s.rows[id].expiresAt
  {}

  lemma {:induction false} RunKeepsEnd(c: Config, s: State, events: seq<Event>, id: nat)
    requires c.Valid() && id < |s.rows| && Untouched(c, s, events, id)
    ensures id < |Run(c, s, events).rows| && Run(c, s, events).rows[id].expiresAt == s.rows[id].expiresAt
    decreases |events|
  {
    if events != [] {
      NextKeepsEnd(c, s, events[0], id);
      RunKeepsEnd(c, Next(c, s, events[0]), events[1..], id);
    }
  }

  lemma {:induction false} RunKeepsTokens(c: Config, s: State, events: seq<Event>)
    requires c.Valid() && TokensDiffer(s.rows)
    ensures TokensDiffer(Run(c, s, events).rows)
    decreases |events|
  {
    if events != [] {
      NextKeepsTokens(c, s, events[0]);
      RunKeepsTokens(c, Next(c, s, events[0]), events[1..]);
    }
  }

  /** In every run, however the threads meet: from any moment on, a session that is not renewed
      is accepted, by status and by logout and in the count of the cap, exactly until it is
      revoked or its end has passed, and that is never more than ttl away. With the moment of
      its login or last renewal: no status succeeds more than ttl after it. */
  lemma LiveForTtl(c: Config, rows: Table, now: int, before: seq<Event>, after: seq<Event>, id: nat)
    requires c.Valid() && TokensDiffer(rows)
    requires id < |Run(c, Started(c, rows, now), before).rows|
    requires Untouched(c, Run(c, Started(c, rows, now), before), after, id)
    ensures var s := Run(c, Started(c, rows, now), before);
            var t := Run(c, s, after);
            var token := s.rows[id].token;
            && id < |t.rows| && t.rows[id].token == token
            && (StatusAccepts(t, token) <==> !t.rows[id].revoked && t.now <= s.rows[id].expiresAt)
            && (LogoutAccepts(t, token) <==> !t.rows[id].revoked && t.now <= s.rows[id].expiresAt)
            && (ActiveFor(t.rows[id].account, t.now)(t.rows[id]) <==> StatusAccepts(t, token))
            && (StatusAccepts(t, token) ==> t.now <= s.now + c.ttl)
  {
    var s := Run(c, Started(c, rows, now), before);
    RunKeepsTokens(c, Started(c, rows, now), before);
    StartIsLimited(c, rows, now);
    RunKeepsLimits(c, Started(c, rows, now), before);
    RunKeepsEnd(c, s, after, id);
    RunKeepsRow(c, s, after, id);
    LookupFinds(Run(c, s, after).rows, s.rows[id].token, id);
  }
}

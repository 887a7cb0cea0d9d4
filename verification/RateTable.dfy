/** The table of failed logins slot by slot, in numbers. */
module RateTable {
  import opened Bytes
  import opened RateLimit

  // ---------------------------------------------------------------- the hash

  function Power33(n: nat): nat {
    if n == 0 then 1 else 33 * Power33(n - 1)
  }

  /** The bytes as digits to the base 33, the first one the highest. */
  function Digits33(ip: seq<byte>): nat {
    if ip == [] then 0 else ip[0] * Power33(|ip| - 1) + Digits33(ip[1..])
  }

  lemma {:induction false} LastDigit(ip: seq<byte>)
    requires ip != []
    ensures Digits33(ip) == 33 * Digits33(ip[..|ip| - 1]) + ip[|ip| - 1]
    decreases |ip|
  {
    var n := |ip| - 1;
    if n > 0 {
      LastDigit(ip[1..]);
      assert ip[1..][..n - 1] == ip[..n][1..];
      Distribute(ip[0], Power33(n - 1));
    } else {
      assert ip[..0] == [] && ip[1..] == [];
      assert Power33(0) == 1;
    }
  }

  lemma Distribute(a: nat, b: nat)
    ensures a * (33 * b) == 33 * (a * b)
  {}

  /** One step of the loop, before and after the reduction. */
  lemma HashStep(h: nat, p: nat, d: nat, c: nat)
    requires h == (5381 * p + d) % 0x1_0000_0000
    ensures (33 * h + c) % 0x1_0000_0000 == (5381 * (33 * p) + (33 * d + c)) % 0x1_0000_0000
  {
    var n := 5381 * p + d;
    assert 5381 * (33 * p) + (33 * d + c) == 33 * n + c;
    ModOfSum(n, c);
  }

  lemma ModOfSum(n: nat, c: nat)
    ensures (33 * (n % 0x1_0000_0000) + c) % 0x1_0000_0000 == (33 * n + c) % 0x1_0000_0000
  {}

  /** The 32-bit loop computes 5381 followed by the bytes, read to the base 33. */
  lemma {:induction false} HashIsPolynomial(ip: seq<byte>)
    ensures Hash(ip) == (5381 * Power33(|ip|) + Digits33(ip)) % 0x1_0000_0000
    decreases |ip|
  {
    if ip == [] {
      assert Power33(0) == 1;
    } else {
      var n := |ip| - 1;
      HashIsPolynomial(ip[..n]);
      LastDigit(ip);
      HashStep(Hash(ip[..n]), Power33(n), Digits33(ip[..n]), ip[n]);
    }
  }

  // ---------------------------------------------------------------- the slots

  /** The i-th slot of a client: in a row from its hash on, round the table of 1024. */
  lemma SlotSpelled(ip: Client, i: nat)
    ensures Slot(ip, i) == (Hash(ip) + i) % 1024
  {
    ModAdd(Hash(ip), i);
  }

  lemma ModAdd(h: nat, i: nat)
    ensures (h % 1024 + i) % 1024 == (h + i) % 1024
  {}

  /** Of the client's eight slots number i is the first that is empty or its own. */
  predicate Leads(t: Slots, ip: Client, i: nat) {
    && i < 8
    && (t[Slot(ip, i)].ip == [] || t[Slot(ip, i)].ip == ip)
    && forall k | 0 <= k < i :: t[Slot(ip, k)].ip != [] && t[Slot(ip, k)].ip != ip
  }

  lemma {:induction false} ProbeLeads(t: Slots, ip: Client, i: nat, j: nat)
    requires i <= j <= 8
    requires forall k | i <= k < j :: t[Slot(ip, k)].ip != [] && t[Slot(ip, k)].ip != ip
    ensures Probe(t, ip, i) == Probe(t, ip, j)
    decreases j - i
  {
    if i < j {
      ProbeLeads(t, ip, i + 1, j);
    }
  }

  lemma LeadIsProbed(t: Slots, ip: Client, i: nat)
    requires Leads(t, ip, i)
    ensures Probe(t, ip, 0) == Some(Slot(ip, i))
  {
    ProbeLeads(t, ip, 0, i);
  }

  /** Every client has at most one leading slot, and none only when eight others are in the way. */
  lemma {:induction false} LeadOrFull(t: Slots, ip: Client, from: nat) returns (r: Option<nat>)
    requires from <= 8 && forall k | 0 <= k < from :: t[Slot(ip, k)].ip != [] && t[Slot(ip, k)].ip != ip
    ensures if r.Some? then Leads(t, ip, r.value)
            else forall k | 0 <= k < 8 :: t[Slot(ip, k)].ip != [] && t[Slot(ip, k)].ip != ip
    decreases 8 - from
  {
    if from == 8 {
      r := None;
    } else {
      if t[Slot(ip, from)].ip == [] || t[Slot(ip, from)].ip == ip {
        r := Some(from);
      } else {
        r := LeadOrFull(t, ip, from + 1);
      }
    }
  }

  /** What a failure writes: a new count in an empty slot or after ten minutes, else one more. */
  lemma RecordSpelled(t: Slots, ip: Client, now: int, i: nat)
    requires Leads(t, ip, i)
    ensures var s := Slot(ip, i);
            Record(t, ip, now) ==
            t[s := if t[s].ip == [] || now - t[s].firstFail > 600 then Entry(ip, 1, now, now)
                   else Entry(ip, t[s].failCount + 1, t[s].firstFail, now)]
  {
    LeadIsProbed(t, ip, i);
  }

  /** What a check answers and writes: refused with five failures that began at most ten minutes
      ago; an older count is emptied. */
  lemma CheckSpelled(t: Slots, ip: Client, now: int, i: nat)
    requires Leads(t, ip, i)
    ensures var s := Slot(ip, i);
            && (Limited(t, ip, now) <==> t[s].ip == ip && now - t[s].firstFail <= 600 && t[s].failCount >= 5)
            && Checked(t, ip, now) ==
               if t[s].ip == ip && now - t[s].firstFail > 600 then t[s := Entry([], 0, t[s].firstFail, t[s].lastFail)]
               else t
  {
    LeadIsProbed(t, ip, i);
  }

  /** With all eight slots taken by others a client is neither counted nor refused. */
  lemma FullSpelled(t: Slots, ip: Client, now: int)
    requires forall i: nat :: !Leads(t, ip, i)
    ensures Record(t, ip, now) == t && Checked(t, ip, now) == t && !Limited(t, ip, now)
  {
    var r := LeadOrFull(t, ip, 0);
    ProbeLeads(t, ip, 0, 8);
  }
}

/** The pool of addresses: a bitmap over a CIDR range. */
module IpPool {
  import opened Bytes
  import opened Bits
  import opened Ipv4
  import opened Numbers

  // ---------------------------------------------------------------- the pool as a set

  /** The addresses of a pool and the range that is never handed out. Members of the pool
      are counted from its first address. */
  datatype Pool = Pool(start: nat, size: nat, excludeStart: nat, excludeEnd: nat) {
    predicate Valid() {
      2 < size <= MAX_SIZE && start + size <= Unit(4)
    }

    predicate Excluded(i: nat) {
      excludeStart <= start + i <= excludeEnd
    }

    /** May be handed out: neither the network nor the broadcast address, nor excluded. */
    predicate Host(i: nat) {
      0 < i < size - 1 && !Excluded(i)
    }
  }

  const MAX_SIZE: nat := 1048576

  /** The lowest free host from i on. */
  function Scan(p: Pool, used: set<nat>, i: nat): (r: Option<nat>)
    ensures r.Some? ==> i <= r.value < p.size - 1 && r.value !in used && !p.Excluded(r.value)
    ensures r.Some? ==> forall j :: i <= j < r.value ==> j in used || p.Excluded(j)
    ensures r.None? ==> forall j :: i <= j < p.size - 1 ==> j in used || p.Excluded(j)
    decreases p.size - i
  {
    if i >= p.size - 1 then None
    else if i !in used && !p.Excluded(i) then Some(i)
    else Scan(p, used, i + 1)
  }

  /** The excluded members from 1 up to k: the scan marks those it passes. */
  function Passed(p: Pool, k: int): set<nat> {
    set j: nat | 1 <= j < k && p.Excluded(j)
  }

  function Allocate(p: Pool, used: set<nat>): Option<nat> {
    Scan(p, used, 1)
  }

  function AfterAllocate(p: Pool, used: set<nat>): set<nat> {
    match Allocate(p, used)
    case None => used + Passed(p, p.size - 1)
    case Some(k) => used + Passed(p, k) + {k}
  }

  /** The member that a text names. */
  function MemberOf(p: Pool, text: cstr): (r: Option<nat>)
    ensures r.Some? ==> r.value < p.size
  {
    match AddressOf(text)
    case None => None
    case Some(ip) => if p.start <= ip < p.start + p.size then Some(ip - p.start) else None
  }

  function TextOf(p: Pool, i: nat): cstr {
    HostText(p.start + i)
  }

  /** Whatever is marked, the allocated address is a host and the lowest free one, and
      allocation fails only when every host is taken. */
  lemma AllocateIsLowest(p: Pool, used: set<nat>)
    requires p.Valid()
    ensures Allocate(p, used).Some? <==> exists i :: p.Host(i) && i !in used
    ensures Allocate(p, used).Some? ==>
              var k := Allocate(p, used).value;
              p.Host(k) && k !in used && forall i :: p.Host(i) && i !in used ==> k <= i
  {
    if Allocate(p, used).Some? {
      assert p.Host(Allocate(p, used).value);
    }
  }

  /** The same in numbers, with all that is marked. */
  lemma AllocateSpelled(p: Pool, used: set<nat>)
    requires p.Valid()
    ensures Allocate(p, used).Some? <==> exists k :: 0 < k < p.size - 1 && k !in used &&
                                           !(p.excludeStart <= p.start + k <= p.excludeEnd)
    ensures Allocate(p, used).Some? ==>
              var taken := Allocate(p, used).value;
              && 0 < taken < p.size - 1 && taken !in used && !(p.excludeStart <= p.start + taken <= p.excludeEnd)
              && forall k :: 0 < k < taken && k !in used ==> p.excludeStart <= p.start + k <= p.excludeEnd
    ensures var r := Allocate(p, used);
            forall i :: i in AfterAllocate(p, used) <==>
              i in used || (r.Some? && i == r.value)
              || (0 < i < (if r.Some? then r.value else p.size - 1) && p.excludeStart <= p.start + i <= p.excludeEnd)
  {}

  function Hosts(p: Pool): set<nat> {
    set i: nat | i < p.size && p.Host(i)
  }

  /** Allocation takes one free host, as long as there is one. */
  lemma AllocateTakesHost(p: Pool, used: set<nat>)
    requires p.Valid()
    ensures Hosts(p) - used != {} <==> Allocate(p, used).Some?
    ensures Allocate(p, used).Some? ==>
              var ip := Allocate(p, used).value;
              ip in Hosts(p) - used && Hosts(p) - AfterAllocate(p, used) == Hosts(p) - used - {ip}
  {
    AllocateIsLowest(p, used);
    if Allocate(p, used).Some? {
      var ip := Allocate(p, used).value;
      assert ip in Hosts(p) - used;
      assert Hosts(p) - AfterAllocate(p, used) == Hosts(p) - used - {ip};
    } else {
      assert forall i :: i in Hosts(p) ==> p.Host(i);
      assert Hosts(p) - used == {};
    }
  }

  /** The text handed out names the address: releasing it frees that member and no other. */
  lemma TextNamesMember(p: Pool, i: nat)
    requires p.Valid() && i < p.size
    ensures MemberOf(p, TextOf(p, i)) == Some(i)
  {
    HostTextNames(p.start + i);
  }

  /** What a pool is asked to do. */
  datatype Request = Take | Free(text: cstr) | Mark(text: cstr)

  function Perform(p: Pool, used: set<nat>, q: Request): set<nat> {
    match q
    case Take => AfterAllocate(p, used)
    case Free(text) =>
      (match MemberOf(p, text) case None => used case Some(i) => used - {i})
    case Mark(text) =>
      (match MemberOf(p, text) case None => used case Some(i) => used + {i})
  }

  /** The members handed out by a series of requests, in order. */
  function HandedOut(p: Pool, used: set<nat>, requests: seq<Request>): seq<nat>
    decreases requests
  {
    if requests == [] then []
    else
      var rest := HandedOut(p, Perform(p, used, requests[0]), requests[1..]);
      if requests[0].Take? && Allocate(p, used).Some? then [Allocate(p, used).value] + rest else rest
  }

  /** No series of releases, not even of reserved or excluded addresses, makes the pool hand
      out the network, the broadcast or an excluded address. */
  lemma {:induction false} OnlyHostsAreHandedOut(p: Pool, used: set<nat>, requests: seq<Request>)
    requires p.Valid()
    ensures forall i :: i in HandedOut(p, used, requests) ==> p.Host(i)
    decreases requests
  {
    if requests != [] {
      AllocateIsLowest(p, used);
      OnlyHostsAreHandedOut(p, Perform(p, used, requests[0]), requests[1..]);
    }
  }

  /** Whether member i is released somewhere in a series. */
  predicate Released(p: Pool, i: nat, requests: seq<Request>) {
    exists k :: 0 <= k < |requests| && requests[k].Free? && MemberOf(p, requests[k].text) == Some(i)
  }

  /** A marked member is not handed out again before it is released. */
  lemma {:induction false} NotHandedOutTwice(p: Pool, used: set<nat>, i: nat, requests: seq<Request>)
    requires i in used && !Released(p, i, requests)
    ensures i !in HandedOut(p, used, requests)
    decreases requests
  {
    if requests != [] {
      var tail := requests[1..];
      assert !(requests[0].Free? && MemberOf(p, requests[0].text) == Some(i));
      forall k | 0 <= k < |tail|
        ensures !(tail[k].Free? && MemberOf(p, tail[k].text) == Some(i))
      {
        assert tail[k] == requests[k + 1];
      }
      NotHandedOutTwice(p, Perform(p, used, requests[0]), i, tail);
    }
  }

  // ---------------------------------------------------------------- the bits

  predicate Marked(bits: seq<byte>, i: nat) {
    i / 8 < |bits| && Bit(bits[i / 8], i % 8)
  }

  lemma ByteIsPower()
    ensures Pow2(8) == 256
  {}

  /** bitmap[i / 8] & (1 << (i % 8)). */
  lemma TestBit(x: byte, k: nat)
    requires k < 8
    ensures And(x, Pow2(k)) != 0 <==> Bit(x, k)
  {
    AndPow2(x, k);
  }

  /** bitmap[i / 8] |= 1 << (i % 8) marks member i and nothing else. */
  lemma SetBit(bits: seq<byte>, i: nat)
    requires i / 8 < |bits|
    ensures Or(bits[i / 8], Pow2(i % 8)) < 256
    ensures forall j: nat :: Marked(bits[i / 8 := Or(bits[i / 8], Pow2(i % 8))], j) <==> j == i || Marked(bits, j)
  {
    var x, k := bits[i / 8], i % 8;
    ByteIsPower();
    BitOfHole(8, k, 0);
    OrBound(x, Pow2(k), 8);
    var bits' := bits[i / 8 := Or(x, Pow2(k))];
    forall j: nat
      ensures Marked(bits', j) <==> j == i || Marked(bits, j)
    {
      if j / 8 == i / 8 {
        BitOfOr(x, Pow2(k), j % 8);
        BitOfPow2(k, j % 8);
      }
    }
  }

  /** bitmap[i / 8] &= ~(1 << (i % 8)) unmarks member i and nothing else. */
  lemma ClearBit(bits: seq<byte>, i: nat)
    requires i / 8 < |bits|
    ensures Pow2(i % 8) < 256 && And(bits[i / 8], 255 - Pow2(i % 8)) < 256
    ensures forall j: nat ::
              Marked(bits[i / 8 := And(bits[i / 8], 255 - Pow2(i % 8))], j) <==> j != i && Marked(bits, j)
  {
    var x, k := bits[i / 8], i % 8;
    ByteIsPower();
    BitOfHole(8, k, 0);
    var m := 255 - Pow2(k);
    AndBound(x, m);
    var bits' := bits[i / 8 := And(x, m)];
    forall j: nat
      ensures Marked(bits', j) <==> j != i && Marked(bits, j)
    {
      if j / 8 == i / 8 {
        BitOfAnd(x, m, j % 8);
        BitOfHole(8, k, j % 8);
      }
    }
  }

  lemma {:induction false} PowerGrows(a: nat, b: nat)
    requires a < b
    ensures 2 * Pow2(a) <= Pow2(b)
  {
    if a + 1 < b {
      PowerGrows(a, b - 1);
    }
  }

  /** Of the prefixes that a CIDR text may have, 12 to 30 give a pool. */
  lemma PoolPrefixes(prefix: nat)
    requires 1 <= prefix <= 30
    ensures 2 < Pow2(32 - prefix) <= MAX_SIZE <==> 12 <= prefix
  {
    assert Pow2(1) == 2;
    assert Pow2(10) == 1024;
    PowerSum(10, 10);
    PowerGrows(1, 32 - prefix);
    if prefix < 12 {
      PowerGrows(20, 32 - prefix);
    } else if prefix > 12 {
      PowerGrows(32 - prefix, 20);
    }
  }

  /** Whether the text of the exclusion gives a range. */
  predicate Excludes(exclude: Option<cstr>) {
    exclude.Some? && exclude.value != [] && AddressOf(exclude.value).Some? && 1 <= PrefixOf(exclude.value) <= 30
  }

  // ---------------------------------------------------------------- the bitmap

  class AddressPool {
    var poolStart: nat
    var poolEnd: nat
    var excludeStart: nat
    var excludeEnd: nat
    var numIps: nat
    var bitmap: array<byte>

    constructor ()
      ensures fresh(bitmap)
    {
      poolStart, poolEnd, excludeStart, excludeEnd, numIps := 0, 0, 0, 0, 0;
      bitmap := new byte[0];
    }

    ghost function Shape(): Pool
      reads this
    {
      Pool(poolStart, numIps, excludeStart, excludeEnd)
    }

    ghost predicate Valid()
      reads this
    {
      && Shape().Valid()
      && poolEnd + 1 == poolStart + numIps
      && bitmap.Length == (numIps + 7) / 8
    }

    /** The marked members. */
    ghost function Used(): set<nat>
      reads this, bitmap
    {
      set i | 0 <= i < numIps && Marked(bitmap[..], i)
    }

    method IsMarked(i: nat) returns (marked: bool)
      requires Valid() && i < numIps
      ensures marked <==> i in Used()
    {
      TestBit(bitmap[i / 8], i % 8);
      marked := And(bitmap[i / 8], Pow2(i % 8)) != 0;
    }

    method SetMember(i: nat)
      requires Valid() && i < numIps
      modifies bitmap
      ensures Used() == old(Used()) + {i}
    {
      SetBit(bitmap[..], i);
      bitmap[i / 8] := Or(bitmap[i / 8], Pow2(i % 8));
      assert bitmap[..] == old(bitmap[..])[i / 8 := bitmap[i / 8]];
    }

    method ClearMember(i: nat)
      requires Valid() && i < numIps
      modifies bitmap
      ensures Used() == old(Used()) - {i}
    {
      ClearBit(bitmap[..], i);
      bitmap[i / 8] := And(bitmap[i / 8], 255 - Pow2(i % 8));
      assert bitmap[..] == old(bitmap[..])[i / 8 := bitmap[i / 8]];
      assert forall j :: j in Used() <==> j in old(Used()) - {i};
    }

    /** The first and the last address of the pool. */
    method SetRange(cidr: cstr) returns (ok: bool)
      modifies this`poolStart, this`poolEnd
      ensures ok <==> AddressOf(cidr).Some? && 1 <= PrefixOf(cidr) <= 30
      ensures ok ==> Block(Range(poolStart, poolEnd), AddressOf(cidr).value, Pow2(32 - PrefixOf(cidr)))
      ensures ok ==> poolEnd < Unit(4)
    {
      var range := ParseCidr(cidr);
      if range.None? {
        return false;
      }
      UnitIsPower();
      poolStart, poolEnd := range.value.start, range.value.end;
      ok := true;
    }

    /** The range that is never handed out; address 0 alone when the text gives none. */
    method SetExclusion(exclude: Option<cstr>)
      modifies this`excludeStart, this`excludeEnd
      ensures if Excludes(exclude)
              then Block(Range(excludeStart, excludeEnd), AddressOf(exclude.value).value,
                         Pow2(32 - PrefixOf(exclude.value)))
              else excludeStart == 0 && excludeEnd == 0
    {
      excludeStart, excludeEnd := 0, 0;
      if exclude.Some? && |exclude.value| > 0 {
        var hole := ParseCidr(exclude.value);
        if hole.Some? {
          excludeStart, excludeEnd := hole.value.start, hole.value.end;
        }
      }
    }

    /** The number of addresses, when it is neither too small nor too large. */
    method Measure() returns (ok: bool)
      requires poolStart <= poolEnd
      modifies this`numIps
      ensures numIps == poolEnd - poolStart + 1 && (ok <==> 2 < numIps <= MAX_SIZE)
    {
      numIps := poolEnd - poolStart + 1;
      if numIps <= 2 {
        return false;
      }
      if numIps == 0 || numIps > MAX_SIZE {
        return false;
      }
      ok := true;
    }

    /** calloc of the bitmap and the two reserved bits. */
    method Clear()
      requires Shape().Valid()
      modifies this`bitmap
      ensures fresh(bitmap) && bitmap.Length == (numIps + 7) / 8 && Used() == {0, numIps - 1}
    {
      bitmap := new byte[(numIps + 7) / 8](_ => 0);
      NothingMarked(bitmap[..]);
      assert Used() == {};
      SetBit(bitmap[..], 0);
      bitmap[0] := Or(bitmap[0], Pow2(0));
      SetBit(bitmap[..], numIps - 1);
      label L:
      bitmap[(numIps - 1) / 8] := Or(bitmap[(numIps - 1) / 8], Pow2((numIps - 1) % 8));
      assert bitmap[..] == old@L(bitmap[..])[(numIps - 1) / 8 := bitmap[(numIps - 1) / 8]];
    }

    /** ip_pool_init. An exclusion that cannot be read excludes nothing but address 0. */
    method Init(cidr: cstr, exclude: Option<cstr>) returns (ok: bool)
      modifies this
      ensures ok <==> AddressOf(cidr).Some? && 12 <= PrefixOf(cidr) <= 30
      ensures ok ==> Valid() && fresh(bitmap) && Used() == {0, numIps - 1}
      ensures ok ==> numIps == Pow2(32 - PrefixOf(cidr)) &&
                     Block(Range(poolStart, poolEnd), AddressOf(cidr).value, numIps)
      ensures ok ==>
                && poolStart % numIps == 0 && poolEnd == poolStart + numIps - 1
                && poolStart <= AddressOf(cidr).value < poolStart + numIps
      ensures ok ==> if exclude.Some? && exclude.value != [] && AddressOf(exclude.value).Some?
                        && 1 <= PrefixOf(exclude.value) <= 30
                     then Block(Range(excludeStart, excludeEnd), AddressOf(exclude.value).value,
                                Pow2(32 - PrefixOf(exclude.value)))
                     else excludeStart == 0 && excludeEnd == 0
    {
      ok := SetRange(cidr);
      if !ok {
        return;
      }
      SetExclusion(exclude);
      PoolPrefixes(PrefixOf(cidr));
      ok := Measure();
      if ok {
        Clear();
      }
    }

    /** The loop over the bitmap. */
    method TakeLowest() returns (r: Option<nat>)
      requires Valid()
      modifies bitmap
      ensures r == Allocate(Shape(), old(Used())) && Used() == AfterAllocate(Shape(), old(Used()))
    {
      ghost var p := Shape();
      ghost var was := Used();
      var i := 1;
      while i < numIps - 1
        invariant 1 <= i <= numIps - 1
        invariant Used() == was + Passed(p, i)
        invariant Scan(p, was, 1) == Scan(p, was, i)
      {
        var taken := IsMarked(i);
        if !taken {
          var ip := poolStart + i;
          if excludeStart <= ip <= excludeEnd {
            SetMember(i);
            assert p.Excluded(i);
          } else {
            SetMember(i);
            return Some(i);
          }
        }
        PassedStep(p, was, i);
        i := i + 1;
      }
      r := None;
    }

    /** ip_pool_allocate: the lowest host that is free, marked from now on together with the
        excluded members below it, and its text; none only when there is none. */
    method AllocateText() returns (r: Option<cstr>, ghost taken: nat)
      requires Valid()
      modifies bitmap
      ensures Used() == AfterAllocate(Shape(), old(Used()))
      ensures r == match Allocate(Shape(), old(Used()))
                   case None => None
                   case Some(k) => Some(TextOf(Shape(), k))
      ensures r.Some? <==> exists k :: 0 < k < numIps - 1 && k !in old(Used()) &&
                             !(excludeStart <= poolStart + k <= excludeEnd)
      ensures r.Some? ==>
                && 0 < taken < numIps - 1 && taken !in old(Used())
                && !(excludeStart <= poolStart + taken <= excludeEnd)
                && forall k :: 0 < k < taken && k !in old(Used()) ==> excludeStart <= poolStart + k <= excludeEnd
      ensures r.Some? ==>
                var ip := poolStart + taken;
                r.value == Decimal(ip / 0x100_0000) + [0x2E] + Decimal(ip / 0x1_0000 % 256) + [0x2E]
                           + Decimal(ip / 256 % 256) + [0x2E] + Decimal(ip % 256) + [0x2F, 0x33, 0x32]
      ensures forall i :: i in Used() <==>
                i in old(Used()) || (r.Some? && i == taken)
                || (0 < i < (if r.Some? then taken else numIps - 1) && excludeStart <= poolStart + i <= excludeEnd)
    {
      AllocateSpelled(Shape(), Used());
      taken := 0;
      var i := TakeLowest();
      if i.None? {
        return None, taken;
      }
      taken := i.value;
      HostTextSpelled(poolStart + i.value);
      r := Some(HostText(poolStart + i.value));
    }

    /** ip_pool_release. */
    method Release(text: cstr) returns (ok: bool)
      requires Valid()
      modifies bitmap
      ensures ok <==> MemberOf(Shape(), text).Some?
      ensures Used() == Perform(Shape(), old(Used()), Free(text))
      ensures forall i: nat :: i in Used() <==> i in old(Used()) && AddressOf(text) != Some(poolStart + i)
    {
      assert forall i: nat :: i in Used() ==> i < numIps;
      var address := AddressOf(text);
      if address.None? {
        return false;
      }
      var ip := address.value;
      if ip < poolStart || ip > poolEnd {
        return false;
      }
      ClearMember(ip - poolStart);
      ok := true;
    }

    /** ip_pool_mark_used. */
    method MarkUsed(text: cstr) returns (ok: bool)
      requires Valid()
      modifies bitmap
      ensures ok <==> MemberOf(Shape(), text).Some?
      ensures Used() == Perform(Shape(), old(Used()), Mark(text))
      ensures forall i: nat :: i in Used() <==>
                i in old(Used()) || (i < numIps && AddressOf(text) == Some(poolStart + i))
    {
      var address := AddressOf(text);
      if address.None? {
        return false;
      }
      var ip := address.value;
      if ip < poolStart || ip > poolEnd {
        return false;
      }
      SetMember(ip - poolStart);
      ok := true;
    }
  }

  lemma NothingMarked(bits: seq<byte>)
    requires forall k :: 0 <= k < |bits| ==> bits[k] == 0
    ensures forall i: nat :: !Marked(bits, i)
  {
    forall i: nat
      ensures !Marked(bits, i)
    {
      BitOfZero(i % 8);
    }
  }

  /** One step of the scan over a member that is taken, or excluded and now marked. */
  lemma PassedStep(p: Pool, was: set<nat>, i: nat)
    requires 1 <= i && (i in was || p.Excluded(i))
    ensures i < p.size - 1 ==> Scan(p, was, i) == Scan(p, was, i + 1)
    ensures was + Passed(p, i + 1) == was + Passed(p, i) + {i}
  {}
}

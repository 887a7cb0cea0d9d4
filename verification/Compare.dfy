/** When two values compare equal. */
module Compare {
  import opened Bytes
  import opened Json
  import opened Sets

  // ---------------------------------------------------------------- keys and numbers

  function ToLower(c: cchar): cchar {
    if 0x41 <= c <= 0x5A then c + 0x20 else c
  }

  function Lower(t: cstr): (r: cstr)
    ensures |r| == |t|
    ensures forall i :: 0 <= i < |t| ==> r[i] == ToLower(t[i])
  {
    if t == [] then [] else [ToLower(t[0])] + Lower(t[1..])
  }

  /** Keys are compared as they are, or without regard to the case of ASCII letters. */
  predicate SameKey(a: cstr, b: cstr, caseSensitive: bool) {
    if caseSensitive then a == b else Lower(a) == Lower(b)
  }

  /** DBL_EPSILON, 2 to the power -52. */
  const EPSILON: real := 1.0 / 4503599627370496.0

  function Abs(x: real): real {
    if x < 0.0 then -x else x
  }

  /** compare_double. */
  predicate Close(a: real, b: real) {
    var maxVal := if Abs(a) > Abs(b) then Abs(a) else Abs(b);
    Abs(a - b) <= maxVal * EPSILON
  }

  // ---------------------------------------------------------------- the comparison

  /** The first member with that key. */
  function Find(members: seq<Member>, name: cstr, caseSensitive: bool): (r: Option<nat>)
    ensures r.Some? ==> r.value < |members| && SameKey(name, members[r.value].key, caseSensitive)
    ensures r.Some? ==> forall i :: 0 <= i < r.value ==> !SameKey(name, members[i].key, caseSensitive)
    ensures r.None? ==> forall i :: 0 <= i < |members| ==> !SameKey(name, members[i].key, caseSensitive)
  {
    if members == [] then None
    else if SameKey(name, members[0].key, caseSensitive) then Some(0)
    else
      match Find(members[1..], name, caseSensitive)
      case None =>
        assert members == [members[0]] + members[1..];
        None
      case Some(i) =>
        assert members == [members[0]] + members[1..];
        Some(i + 1)
  }

  lemma {:induction false} ItemNesting(items: seq<Json>, i: nat)
    requires i < |items|
    ensures Nesting(items[i]) <= ItemsNesting(items)
    decreases i
  {
    if i > 0 {
      ItemNesting(items[1..], i - 1);
    }
  }

  lemma {:induction false} MemberNesting(members: seq<Member>, i: nat)
    requires i < |members|
    ensures Nesting(members[i].value) <= MembersNesting(members)
    decreases i
  {
    if i > 0 {
      MemberNesting(members[1..], i - 1);
    }
  }

  /** cJSON_Compare on two different nodes. */
  predicate Same(a: Json, b: Json, cs: bool)
    decreases Nesting(a) + Nesting(b), 1
  {
    match (a, b)
    case (Null, Null) => true
    case (False, False) => true
    case (True, True) => true
    case (Number(x), Number(y)) => Close(x, y)
    case (String(s), String(t)) => s == t
    case (Array(items), Array(others)) =>
      && |items| == |others|
      && forall i | 0 <= i < |items| :: SameItem(items, others, i, cs)
    case (Object(members), Object(others)) => Covers(others, members, cs) && Covers(members, others, cs)
    case _ => false
  }

  predicate SameItem(items: seq<Json>, others: seq<Json>, i: nat, cs: bool)
    requires i < |items| && i < |others|
    decreases 1 + ItemsNesting(items) + ItemsNesting(others), 0
  {
    ItemNesting(items, i);
    ItemNesting(others, i);
    Same(items[i], others[i], cs)
  }

  /** Every member has its like in `among`. */
  predicate Covers(among: seq<Member>, members: seq<Member>, cs: bool)
    decreases 1 + MembersNesting(members) + MembersNesting(among), 1
  {
    forall i | 0 <= i < |members| :: HasMember(among, members, i, cs)
  }

  /** The first member of `among` with the key of member i has the same value. */
  predicate HasMember(among: seq<Member>, members: seq<Member>, i: nat, cs: bool)
    requires i < |members|
    decreases 1 + MembersNesting(members) + MembersNesting(among), 0
  {
    var j := Find(among, members[i].key, cs);
    MemberNesting(members, i);
    if j.None? then false
    else
      MemberNesting(among, j.value);
      Same(members[i].value, among[j.value].value, cs)
  }

  // ---------------------------------------------------------------- symmetry

  /** Comparison is symmetric on all trees, duplicate keys included. */
  lemma {:induction false} SameIsSymmetric(a: Json, b: Json, cs: bool)
    ensures Same(a, b, cs) == Same(b, a, cs)
    decreases Nesting(a) + Nesting(b)
  {
    if a.Array? && b.Array? && |a.items| == |b.items| {
      forall i | 0 <= i < |a.items|
        ensures SameItem(a.items, b.items, i, cs) == SameItem(b.items, a.items, i, cs)
      {
        ItemNesting(a.items, i);
        ItemNesting(b.items, i);
        SameIsSymmetric(a.items[i], b.items[i], cs);
      }
    }
  }

  // ---------------------------------------------------------------- equality up to order

  /** No object in the tree has two members with the same key. */
  predicate DistinctKeys(v: Json, cs: bool)
    decreases v
  {
    match v
    case Array(items) => forall i | 0 <= i < |items| :: DistinctKeys(items[i], cs)
    case Object(members) =>
      && (forall i, j | 0 <= i < j < |members| :: !SameKey(members[i].key, members[j].key, cs))
      && (forall i | 0 <= i < |members| :: DistinctKeys(members[i].value, cs))
    case _ => true
  }

  /** p lists every index below n once. */
  predicate IsPermutation(p: seq<nat>, n: nat) {
    && |p| == n
    && (forall i | 0 <= i < n :: p[i] < n)
    && (forall i, j | 0 <= i < j < n :: p[i] != p[j])
  }

  /** Equal trees, but for the order of the members of objects, the case of keys where it
      does not matter, and the tolerance for numbers. */
  ghost predicate EqualUpToOrder(a: Json, b: Json, cs: bool)
    decreases a, 1
  {
    match (a, b)
    case (Number(x), Number(y)) => Close(x, y)
    case (Array(items), Array(others)) =>
      && |items| == |others|
      && forall i | 0 <= i < |items| :: EqualUpToOrder(items[i], others[i], cs)
    case (Object(members), Object(others)) =>
      && |members| == |others|
      && exists p: seq<nat> :: IsPermutation(p, |members|) && Matches(a, b, p, cs)
    case _ => a == b
  }

  /** Member i of a is member p[i] of b. */
  ghost predicate Matches(a: Json, b: Json, p: seq<nat>, cs: bool)
    requires a.Object? && b.Object? && |a.members| == |b.members| && IsPermutation(p, |a.members|)
    decreases a, 0
  {
    forall i | 0 <= i < |a.members| ::
      && SameKey(a.members[i].key, b.members[p[i]].key, cs)
      && EqualUpToOrder(a.members[i].value, b.members[p[i]].value, cs)
  }

  // ---------------------------------------------------------------- the theorem

  /** Where the members of an object find their partners in another. */
  function Partners(members: seq<Member>, among: seq<Member>, n: nat, cs: bool): (p: seq<nat>)
    requires n <= |members| && forall i :: 0 <= i < n ==> Find(among, members[i].key, cs).Some?
    ensures |p| == n && forall i :: 0 <= i < n ==> p[i] == Find(among, members[i].key, cs).value
  {
    if n == 0 then [] else Partners(members, among, n - 1, cs) + [Find(among, members[n - 1].key, cs).value]
  }

  predicate Distinct(members: seq<Member>, cs: bool) {
    forall i, j | 0 <= i < j < |members| :: !SameKey(members[i].key, members[j].key, cs)
  }

  lemma FindUnique(members: seq<Member>, name: cstr, i: nat, cs: bool)
    requires Distinct(members, cs) && i < |members| && SameKey(name, members[i].key, cs)
    ensures Find(members, name, cs) == Some(i)
  {
    var j := Find(members, name, cs).value;
    SameKeyJoins(name, members[j].key, members[i].key, cs);
  }

  lemma SameKeyJoins(name: cstr, a: cstr, b: cstr, cs: bool)
    requires SameKey(name, a, cs) && SameKey(name, b, cs)
    ensures SameKey(a, b, cs)
  {}

  /** Members with distinct keys have distinct partners. */
  lemma PartnersDiffer(members: seq<Member>, among: seq<Member>, cs: bool)
    requires Distinct(members, cs)
    requires forall i :: 0 <= i < |members| ==> Find(among, members[i].key, cs).Some?
    ensures Injective(Partners(members, among, |members|, cs))
  {
    var p := Partners(members, among, |members|, cs);
    forall i, j | 0 <= i < j < |p|
      ensures p[i] != p[j]
    {
      assert !SameKey(members[i].key, members[j].key, cs);
    }
  }

  /** On trees whose objects have distinct keys, comparison is equality up to the order
      of members. */
  lemma {:induction false} CompareIsEqualUpToOrder(a: Json, b: Json, cs: bool)
    requires DistinctKeys(a, cs) && DistinctKeys(b, cs)
    ensures Same(a, b, cs) <==> EqualUpToOrder(a, b, cs)
    decreases a, 2
  {
    if a.Array? && b.Array? {
      if |a.items| == |b.items| {
        ArraysCompare(a, b, cs);
      }
    } else if a.Object? && b.Object? {
      if Same(a, b, cs) {
        SameGivesOrder(a, b, cs);
      }
      if EqualUpToOrder(a, b, cs) {
        var p: seq<nat> :| IsPermutation(p, |a.members|) && Matches(a, b, p, cs);
        OrderGivesSame(a, b, p, cs);
      }
    }
  }

  lemma {:induction false} ArraysCompare(a: Json, b: Json, cs: bool)
    requires a.Array? && b.Array? && |a.items| == |b.items|
    requires DistinctKeys(a, cs) && DistinctKeys(b, cs)
    ensures Same(a, b, cs) <==> EqualUpToOrder(a, b, cs)
    decreases a, 1
  {
    forall i | 0 <= i < |a.items|
      ensures SameItem(a.items, b.items, i, cs) <==> EqualUpToOrder(a.items[i], b.items[i], cs)
    {
      CompareIsEqualUpToOrder(a.items[i], b.items[i], cs);
    }
  }

  lemma PartnersPermute(ms: seq<Member>, ns: seq<Member>, cs: bool) returns (p: seq<nat>)
    requires Covers(ns, ms, cs) && Covers(ms, ns, cs) && Distinct(ms, cs) && Distinct(ns, cs)
    ensures |ms| == |ns| && IsPermutation(p, |ms|)
    ensures forall i :: 0 <= i < |ms| ==> Find(ns, ms[i].key, cs) == Some(p[i])
  {
    p := InjectivePartners(ms, ns, cs);
    var q := InjectivePartners(ns, ms, cs);
  }

  lemma InjectivePartners(ms: seq<Member>, ns: seq<Member>, cs: bool) returns (p: seq<nat>)
    requires Covers(ns, ms, cs) && Distinct(ms, cs)
    ensures |p| == |ms| <= |ns| && Injective(p) && forall i :: 0 <= i < |ms| ==> p[i] < |ns|
    ensures forall i :: 0 <= i < |ms| ==> Find(ns, ms[i].key, cs) == Some(p[i])
  {
    AllFound(ns, ms, cs);
    p := Partners(ms, ns, |ms|, cs);
    PartnersDiffer(ms, ns, cs);
    PigeonHole(p, |ns|);
  }

  lemma {:induction false} SameGivesOrder(a: Json, b: Json, cs: bool)
    requires a.Object? && b.Object? && Same(a, b, cs)
    requires DistinctKeys(a, cs) && DistinctKeys(b, cs)
    ensures EqualUpToOrder(a, b, cs)
    decreases a, 1
  {
    var ms, ns := a.members, b.members;
    var p := PartnersPermute(ms, ns, cs);
    forall i | 0 <= i < |ms|
      ensures SameKey(ms[i].key, ns[p[i]].key, cs) && EqualUpToOrder(ms[i].value, ns[p[i]].value, cs)
    {
      assert HasMember(ns, ms, i, cs);
      CompareIsEqualUpToOrder(ms[i].value, ns[p[i]].value, cs);
    }
    assert IsPermutation(p, |ms|) && Matches(a, b, p, cs);
  }

  lemma AllFound(among: seq<Member>, members: seq<Member>, cs: bool)
    requires Covers(among, members, cs)
    ensures forall i :: 0 <= i < |members| ==> Find(among, members[i].key, cs).Some?
  {
    forall i | 0 <= i < |members|
      ensures Find(among, members[i].key, cs).Some?
    {
      assert HasMember(among, members, i, cs);
    }
  }

  lemma {:induction false} OrderGivesSame(a: Json, b: Json, p: seq<nat>, cs: bool)
    requires a.Object? && b.Object? && |a.members| == |b.members|
    requires IsPermutation(p, |a.members|) && Matches(a, b, p, cs)
    requires DistinctKeys(a, cs) && DistinctKeys(b, cs)
    ensures Same(a, b, cs)
    decreases a, 1
  {
    var ms, ns := a.members, b.members;
    PigeonHole(p, |ms|);
    forall i | 0 <= i < |ms|
      ensures HasMember(ns, ms, i, cs) && HasMember(ms, ns, p[i], cs)
    {
      assert SameKey(ms[i].key, ns[p[i]].key, cs) && EqualUpToOrder(ms[i].value, ns[p[i]].value, cs);
      FindUnique(ns, ms[i].key, p[i], cs);
      FindUnique(ms, ns[p[i]].key, i, cs);
      CompareIsEqualUpToOrder(ms[i].value, ns[p[i]].value, cs);
      SameIsSymmetric(ms[i].value, ns[p[i]].value, cs);
    }
    forall j | 0 <= j < |ns|
      ensures HasMember(ms, ns, j, cs)
    {
      assert j in p;
      var i :| 0 <= i < |p| && p[i] == j;
      assert HasMember(ms, ns, p[i], cs);
    }
  }

  // ---------------------------------------------------------------- in numbers

  /** Numbers that compare equal differ by no more than 2 to the power -52 of the larger
      magnitude, and such numbers compare equal. */
  lemma CloseExactly(x: real, y: real)
    ensures var m := if x < 0.0 then -x else x;
            var n := if y < 0.0 then -y else y;
            var larger := if m > n then m else n;
            Close(x, y) <==> -larger / 4503599627370496.0 <= x - y <= larger / 4503599627370496.0
  {}

  /** Numbers of 32-bit integers compare equal only when they are equal. */
  lemma IntegersAreExact(x: real, y: real)
    requires IsInt32(x) && IsInt32(y)
    ensures Close(x, y) <==> x == y
  {
    CloseExactly(x, y);
    var m, n := ValueInt(x), ValueInt(y);
    assert -2147483648.0 <= x <= 2147483647.0 && -2147483648.0 <= y <= 2147483647.0;
    if m != n {
      assert m as real - n as real >= 1.0 || n as real - m as real >= 1.0;
    }
  }

  /** The same byte, or the same ASCII letter in either case. */
  predicate SameLetter(c: cchar, d: cchar) {
    c == d || (0x41 <= c <= 0x5A && d == c + 0x20) || (0x41 <= d <= 0x5A && c == d + 0x20)
  }

  /** Keys agree byte by byte, letters in either case where case does not matter. */
  lemma SameKeySpelled(s: cstr, t: cstr, cs: bool)
    ensures SameKey(s, t, cs) <==>
            |s| == |t| && forall i :: 0 <= i < |s| ==> if cs then s[i] == t[i] else SameLetter(s[i], t[i])
  {
    if !cs && |s| == |t| {
      if Lower(s) == Lower(t) {
        forall i | 0 <= i < |s|
          ensures SameLetter(s[i], t[i])
        {
          assert Lower(s)[i] == Lower(t)[i];
        }
      }
      if forall i :: 0 <= i < |s| ==> SameLetter(s[i], t[i]) {
        assert Lower(s) == Lower(t);
      }
    }
  }

  /** Equal values when the members of objects are put in the right order; keys are the same
      up to case where it does not matter, everything else is the same as it is. */
  ghost predicate Reordered(a: Json, b: Json, cs: bool)
    decreases a, 1
  {
    match (a, b)
    case (Array(items), Array(others)) =>
      |items| == |others| && forall i | 0 <= i < |items| :: Reordered(items[i], others[i], cs)
    case (Object(members), Object(others)) =>
      |members| == |others| && exists p: seq<nat> :: IsPermutation(p, |members|) && InOrder(a, b, p, cs)
    case _ => a == b
  }

  /** Member i of a is member p[i] of b. */
  ghost predicate InOrder(a: Json, b: Json, p: seq<nat>, cs: bool)
    requires a.Object? && b.Object? && |a.members| == |b.members| && IsPermutation(p, |a.members|)
    decreases a, 0
  {
    forall i | 0 <= i < |a.members| ::
      && SameKey(a.members[i].key, b.members[p[i]].key, cs)
      && Reordered(a.members[i].value, b.members[p[i]].value, cs)
  }

  /** With 32-bit integers for numbers the tolerance makes no difference. */
  lemma {:induction false} ToleranceIsExact(a: Json, b: Json, cs: bool)
    requires IntegerNumbers(a) && IntegerNumbers(b)
    ensures EqualUpToOrder(a, b, cs) <==> Reordered(a, b, cs)
    decreases a, 1
  {
    match (a, b)
    case (Number(x), Number(y)) => IntegersAreExact(x, y);
    case (Array(items), Array(others)) =>
      if |items| == |others| {
        forall i | 0 <= i < |items|
          ensures EqualUpToOrder(items[i], others[i], cs) <==> Reordered(items[i], others[i], cs)
        {
          IntegerItemAt(items, i);
          IntegerItemAt(others, i);
          ToleranceIsExact(items[i], others[i], cs);
        }
      }
    case (Object(members), Object(others)) =>
      if |members| == |others| {
        forall p: seq<nat> | IsPermutation(p, |members|)
          ensures Matches(a, b, p, cs) <==> InOrder(a, b, p, cs)
        {
          MembersAreExact(a, b, p, cs);
        }
      }
    case _ =>
  }

  lemma {:induction false} MembersAreExact(a: Json, b: Json, p: seq<nat>, cs: bool)
    requires a.Object? && b.Object? && |a.members| == |b.members| && IsPermutation(p, |a.members|)
    requires IntegerNumbers(a) && IntegerNumbers(b)
    ensures Matches(a, b, p, cs) <==> InOrder(a, b, p, cs)
    decreases a, 0
  {
    forall i | 0 <= i < |a.members|
      ensures EqualUpToOrder(a.members[i].value, b.members[p[i]].value, cs)
          <==> Reordered(a.members[i].value, b.members[p[i]].value, cs)
    {
      IntegerMemberAt(a.members, i);
      IntegerMemberAt(b.members, p[i]);
      ToleranceIsExact(a.members[i].value, b.members[p[i]].value, cs);
    }
  }

  /** Trees of 32-bit integers with distinct keys compare equal exactly when putting members in
      the right order makes them equal. */
  lemma SameIsReordered(a: Json, b: Json, cs: bool)
    requires IntegerNumbers(a) && IntegerNumbers(b) && DistinctKeys(a, cs) && DistinctKeys(b, cs)
    ensures Same(a, b, cs) <==> Reordered(a, b, cs)
  {
    CompareIsEqualUpToOrder(a, b, cs);
    ToleranceIsExact(a, b, cs);
  }

  /** Members that repeat an earlier key also repeat its value, at every depth. */
  predicate ConsistentKeys(v: Json, cs: bool)
    decreases v
  {
    match v
    case Array(items) => forall i | 0 <= i < |items| :: ConsistentKeys(items[i], cs)
    case Object(members) => forall i | 0 <= i < |members| :: ConsistentMember(members, i, cs)
    case _ => true
  }

  predicate ConsistentMember(members: seq<Member>, i: nat, cs: bool)
    requires i < |members|
    decreases members
  {
    if RepeatsEarlier(members, i, cs)
    then Same(members[i].value, members[Find(members, members[i].key, cs).value].value, cs)
    else ConsistentKeys(members[i].value, cs)
  }

  predicate RepeatsEarlier(members: seq<Member>, i: nat, cs: bool)
    requires i < |members|
  {
    exists j :: 0 <= j < i && SameKey(members[i].key, members[j].key, cs)
  }

  lemma FirstOfKey(members: seq<Member>, i: nat, cs: bool) returns (j: nat)
    requires i < |members|
    ensures Find(members, members[i].key, cs) == Some(j) && j <= i
    ensures j < i <==> RepeatsEarlier(members, i, cs)
  {
    assert SameKey(members[i].key, members[i].key, cs);
    j := Find(members, members[i].key, cs).value;
  }

  /** A tree compares equal to a copy of itself exactly when repeated keys repeat their
      values. */
  lemma {:induction false} ReflexiveExactly(v: Json, cs: bool)
    ensures Same(v, v, cs) <==> ConsistentKeys(v, cs)
    decreases Nesting(v)
  {
    match v
    case Array(items) =>
      forall i | 0 <= i < |items|
        ensures SameItem(items, items, i, cs) <==> ConsistentKeys(items[i], cs)
      {
        ItemNesting(items, i);
        ReflexiveExactly(items[i], cs);
      }
    case Object(members) =>
      forall i | 0 <= i < |members|
        ensures HasMember(members, members, i, cs) == ConsistentMember(members, i, cs)
      {
        MemberNesting(members, i);
        var j := FirstOfKey(members, i, cs);
        ReflexiveExactly(members[i].value, cs);
      }
      assert Covers(members, members, cs) <==> ConsistentKeys(v, cs);
    case Number(x) => CloseToItself(x);
    case _ =>
  }

  lemma {:induction false} DistinctIsConsistent(v: Json, cs: bool)
    requires DistinctKeys(v, cs)
    ensures ConsistentKeys(v, cs)
    decreases v
  {
    match v
    case Array(items) =>
      forall i | 0 <= i < |items|
        ensures ConsistentKeys(items[i], cs)
      {
        DistinctIsConsistent(items[i], cs);
      }
    case Object(members) =>
      forall i | 0 <= i < |members|
        ensures ConsistentMember(members, i, cs)
      {
        DistinctIsConsistent(members[i].value, cs);
      }
    case _ =>
  }

  lemma CloseToItself(x: real)
    ensures Close(x, x)
  {
    assert Abs(x) * EPSILON >= 0.0;
  }

  /** A tree that is not even equal to its own copy. */
  lemma DuplicateKeysAreNotReflexive()
    ensures !Same(Object([Member([0x61], True), Member([0x61], False)]),
                  Object([Member([0x61], True), Member([0x61], False)]), true)
  {
    var ms := [Member([0x61], True), Member([0x61], False)];
    assert Find(ms, ms[1].key, true) == Some(0);
    assert !HasMember(ms, ms, 1, true);
    assert !Covers(ms, ms, true);
  }

  // ---------------------------------------------------------------- the loops

  /** case_insensitive_strcmp: zero exactly for strings that differ in case only, otherwise the
      difference of the first two characters that differ. */
  method CaseInsensitiveStrcmp(a: cstr, b: cstr) returns (r: int)
    ensures r == 0 <==> Lower(a) == Lower(b)
    ensures r != 0 ==> exists i :: FirstDifference(a, b, i, r)
  {
    var s, t := Terminated(a), Terminated(b);
    var i := 0;
    while ToLowerByte(s[i]) == ToLowerByte(t[i])
      invariant 0 <= i <= |a| && i <= |b|
      invariant forall k :: 0 <= k < i ==> ToLower(a[k]) == ToLower(b[k])
      decreases |a| - i
    {
      if s[i] == 0 {
        return 0;
      }
      i := i + 1;
    }
    DifferAt(a, b, i);
    r := ToLowerByte(s[i]) as int - ToLowerByte(t[i]) as int;
    assert FirstDifference(a, b, i, r);
  }

  predicate FirstDifference(a: cstr, b: cstr, i: nat, r: int) {
    && i <= |a| && i <= |b|
    && (forall k :: 0 <= k < i ==> ToLower(a[k]) == ToLower(b[k]))
    && r == ToLowerByte(Terminated(a)[i]) - ToLowerByte(Terminated(b)[i])
  }

  lemma DifferAt(a: cstr, b: cstr, i: nat)
    requires i <= |a| && i <= |b| && ToLowerByte(Terminated(a)[i]) != ToLowerByte(Terminated(b)[i])
    ensures Lower(a) != Lower(b)
  {
    if |a| == |b| {
      assert Lower(a)[i] != Lower(b)[i];
    }
  }

  function ToLowerByte(c: byte): byte {
    if c == 0 then 0 else ToLower(c)
  }
}

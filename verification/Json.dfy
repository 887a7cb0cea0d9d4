/** The values a cJSON tree stands for. */
module Json {
  import opened Bytes

  /** Arrays keep the order of their items, objects the order of their members,
      and an object may hold one key several times. */
  datatype Json =
    | Null
    | False
    | True
    | Number(value: real)
    | String(text: cstr)
    | Array(items: seq<Json>)
    | Object(members: seq<Member>)

  datatype Member = Member(key: cstr, value: Json)

  const NESTING_LIMIT: nat := 1000

  /** How deep arrays and objects nest: 0 for a scalar, 1 for an empty container. */
  function Nesting(v: Json): nat
    decreases v
  {
    match v
    case Array(items) => 1 + ItemsNesting(items)
    case Object(members) => 1 + MembersNesting(members)
    case _ => 0
  }

  function ItemsNesting(items: seq<Json>): nat
    decreases items
  {
    if items == [] then 0 else Max(Nesting(items[0]), ItemsNesting(items[1..]))
  }

  function MembersNesting(members: seq<Member>): nat
    decreases members
  {
    if members == [] then 0 else Max(Nesting(members[0].value), MembersNesting(members[1..]))
  }

  lemma {:induction false} NestingOfTail(items: seq<Json>, i: nat)
    requires i < |items|
    ensures ItemsNesting(items[i..]) == Max(Nesting(items[i]), ItemsNesting(items[i + 1..]))
  {
    assert items[i..][1..] == items[i + 1..];
  }

  lemma {:induction false} NestingOfMembersTail(members: seq<Member>, i: nat)
    requires i < |members|
    ensures MembersNesting(members[i..]) == Max(Nesting(members[i].value), MembersNesting(members[i + 1..]))
  {
    assert members[i..][1..] == members[i + 1..];
  }

  /** The 32-bit integer kept beside a number: saturated, else truncated toward zero. */
  function ValueInt(d: real): (n: int)
    ensures INT_MIN <= n <= INT_MAX
  {
    if d >= INT_MAX as real then INT_MAX
    else if d <= INT_MIN as real then INT_MIN
    else if d >= 0.0 then d.Floor else -((-d).Floor)
  }

  /** Numbers that print through the integer format. */
  predicate IsInt32(d: real) {
    d == ValueInt(d) as real
  }

  lemma ValueIntOfInt(n: int)
    requires -2147483648 <= n <= 2147483647
    ensures ValueInt(n as real) == n && IsInt32(n as real)
  {}

  /** Out of range the nearest end, in range the next integer toward zero. */
  lemma ValueIntSpelled(d: real)
    ensures d >= 2147483647.0 ==> ValueInt(d) == 2147483647
    ensures d <= -2147483648.0 ==> ValueInt(d) == -2147483648
    ensures 0.0 <= d < 2147483647.0 ==> d - 1.0 < ValueInt(d) as real <= d
    ensures -2147483648.0 < d <= 0.0 ==> d <= ValueInt(d) as real < d + 1.0
  {}

  /** Every number in the tree is a 32-bit integer. */
  predicate IntegerNumbers(v: Json)
    decreases v
  {
    match v
    case Number(d) => IsInt32(d)
    case Array(items) => IntegerItems(items)
    case Object(members) => IntegerMembers(members)
    case _ => true
  }

  predicate IntegerItems(items: seq<Json>)
    decreases items
  {
    items == [] || (IntegerNumbers(items[0]) && IntegerItems(items[1..]))
  }

  predicate IntegerMembers(members: seq<Member>)
    decreases members
  {
    members == [] || (IntegerNumbers(members[0].value) && IntegerMembers(members[1..]))
  }

  lemma {:induction false} IntegerItemAt(items: seq<Json>, i: nat)
    requires IntegerItems(items) && i < |items|
    ensures IntegerNumbers(items[i])
    decreases i
  {
    if i > 0 {
      IntegerItemAt(items[1..], i - 1);
    }
  }

  lemma {:induction false} IntegerMemberAt(members: seq<Member>, i: nat)
    requires IntegerMembers(members) && i < |members|
    ensures IntegerNumbers(members[i].value)
    decreases i
  {
    if i > 0 {
      IntegerMemberAt(members[1..], i - 1);
    }
  }
}

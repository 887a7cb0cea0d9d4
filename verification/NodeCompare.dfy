/** Comparison over nodes in memory. */
module NodeCompare {
  import opened Bytes
  import opened Json
  import opened Compare
  import opened NodeTree

  /** A node of the tree of another, which may be the other itself. */
  ghost predicate Within(b: Node, a: Node)
    requires a.Valid()
    reads a, a.repr
    decreases a.repr, 1
  {
    b == a || Below(b, a)
  }

  ghost predicate Below(b: Node, a: Node)
    requires a.Valid()
    reads a, a.repr
    decreases a.repr, 0
  {
    exists i {:trigger a.kids[i]} :: 0 <= i < |a.kids| && (KidIsValid(a, i); Within(b, a.kids[i]))
  }

  lemma ChildrenOf(a: Node)
    requires a.Valid()
    ensures Source(a.kids, a.repr - {a}, a.value) && a.child == First(a.kids)
  {}

  lemma KidIsValid(a: Node, i: nat)
    requires a.Valid() && i < |a.kids|
    ensures a.kids[i].Valid() && a.kids[i].repr <= a.repr - {a} && a.kids[i].repr < a.repr
  {
    ChildrenOf(a);
    KidOf(a.kids, a.repr - {a}, a.value, i);
    assert a !in a.kids[i].repr && a in a.repr;
  }

  lemma {:induction false} WithinIsPart(b: Node, a: Node)
    requires a.Valid() && Within(b, a)
    ensures b.Valid() && b.repr <= a.repr
    decreases a.repr
  {
    if b != a {
      var i :| 0 <= i < |a.kids| && (KidIsValid(a, i); Within(b, a.kids[i]));
      KidIsValid(a, i);
      WithinIsPart(b, a.kids[i]);
    }
  }

  /** A child of a node within is below. */
  lemma {:induction false} KidIsBelow(b: Node, a: Node, j: nat)
    requires a.Valid() && Within(b, a) && b.Valid() && j < |b.kids|
    ensures Below(b.kids[j], a)
    decreases a.repr
  {
    if b == a {
      KidIsValid(a, j);
      assert Within(b.kids[j], a.kids[j]);
    } else {
      var i :| 0 <= i < |a.kids| && (KidIsValid(a, i); Within(b, a.kids[i]));
      KidIsValid(a, i);
      KidIsBelow(b, a.kids[i], j);
      assert Within(b.kids[j], a.kids[i]);
    }
  }

  /** What is below is not the node itself. */
  lemma BelowIsElsewhere(b: Node, a: Node)
    requires a.Valid() && Below(b, a)
    ensures b.Valid() && b.repr <= a.repr - {a} && b != a
  {
    var i :| 0 <= i < |a.kids| && (KidIsValid(a, i); Within(b, a.kids[i]));
    KidIsValid(a, i);
    WithinIsPart(b, a.kids[i]);
    assert b in b.repr;
  }

  /** Two nodes of a forest: the same, one below the other, or apart. */
  ghost predicate Related(a: Node, b: Node)
    requires a.Valid() && b.Valid()
    reads a, b, a.repr, b.repr
  {
    a == b || Below(a, b) || Below(b, a) || a.repr !! b.repr
  }

  ghost predicate Comparable(a: Node?, b: Node?)
    reads a, b, if a == null then {} else a.repr, if b == null then {} else b.repr
  {
    && (a != null ==> a.Valid())
    && (b != null ==> b.Valid())
    && (a != null && b != null ==> Related(a, b))
  }

  ghost function Rank(a: Node?): nat
    reads a
  {
    if a == null then 0 else Nesting(a.value)
  }

  /** get_object_item. */
  method GetObjectItem(owner: Node, name: cstr, cs: bool) returns (item: Node?)
    requires owner.Valid() && owner.value.Object?
    ensures var r := Find(owner.value.members, name, cs);
            item == (if r.None? then null else owner.kids[r.value])
  {
    ghost var kids, members := owner.kids, owner.value.members;
    ghost var i := 0;
    ChildrenOf(owner);
    item := owner.child;
    while item != null
      invariant 0 <= i <= |kids| && item == if i < |kids| then kids[i] else null
      invariant forall k :: 0 <= k < i ==> !SameKey(name, members[k].key, cs)
      decreases |kids| - i
    {
      KeyOf(owner, i);
      var differ := 1;
      if cs {
        differ := if name == item.key.value then 0 else 1;
      } else {
        differ := CaseInsensitiveStrcmp(name, item.key.value);
      }
      if differ == 0 {
        return;
      }
      item := item.next;
      i := i + 1;
    }
  }

  lemma KeyOf(owner: Node, i: nat)
    requires owner.Valid() && owner.value.Object? && i < |owner.kids|
    ensures i < |owner.value.members| && owner.kids[i].key == Some(owner.value.members[i].key)
    ensures owner.kids[i].value == owner.value.members[i].value
    ensures owner.kids[i].next == NextOf(owner.kids, null, i)
  {
    ChildrenOf(owner);
    KidOf(owner.kids, owner.repr - {owner}, owner.value, i);
    assert StandsFor(owner.kids[i], owner.value, i);
  }

  /** cJSON_Compare: a node is equal to itself at once; otherwise the values decide. */
  method CompareNodes(a: Node?, b: Node?, cs: bool) returns (r: bool)
    requires Comparable(a, b)
    ensures r <==> a != null && b != null && (a == b || Same(a.value, b.value, cs))
    decreases Rank(a) + Rank(b), 2
  {
    if a == null || b == null {
      return false;
    }
    if a == b {
      return true;
    }
    match a.kind
    case NullKind => r := b.kind.NullKind?;
    case FalseKind => r := b.kind.FalseKind?;
    case TrueKind => r := b.kind.TrueKind?;
    case NumberKind(x) => r := b.kind.NumberKind? && Close(x, b.kind.value);
    case StringKind(t) => r := b.kind.StringKind? && t == b.kind.text;
    case ArrayKind =>
      r := false;
      if b.kind.ArrayKind? {
        r := CompareItems(a, b, cs);
      }
    case ObjectKind =>
      r := false;
      if b.kind.ObjectKind? {
        r := CompareMembers(a, b, cs);
        if r {
          r := CompareMembers(b, a, cs);
        }
      }
  }

  /** Children of different nodes are different nodes again. */
  lemma KidsAreRelated(a: Node, b: Node, i: nat, j: nat)
    requires a.Valid() && b.Valid() && Related(a, b) && a != b && i < |a.kids| && j < |b.kids|
    ensures a.kids[i].Valid() && b.kids[j].Valid() && Related(a.kids[i], b.kids[j]) && a.kids[i] != b.kids[j]
  {
    KidIsValid(a, i);
    KidIsValid(b, j);
    if Below(b, a) {
      KidOfBelow(b, a, j, i);
    } else if Below(a, b) {
      KidOfBelow(a, b, i, j);
    } else {
      assert a.kids[i] in a.kids[i].repr;
    }
  }

  lemma KidOfBelow(b: Node, a: Node, j: nat, i: nat)
    requires a.Valid() && b.Valid() && Below(b, a) && j < |b.kids| && i < |a.kids|
    requires a.kids[i].Valid() && b.kids[j].Valid()
    ensures Related(b.kids[j], a.kids[i]) && b.kids[j] != a.kids[i]
  {
    var m :| 0 <= m < |a.kids| && (KidIsValid(a, m); Within(b, a.kids[m]));
    KidIsValid(a, m);
    if m == i {
      KidIsBelow(b, a.kids[i], j);
      BelowIsElsewhere(b.kids[j], a.kids[i]);
    } else {
      WithinIsPart(b, a.kids[m]);
      KidIsValid(b, j);
      KidsApart(a, i, m);
      assert b.kids[j] in b.kids[j].repr;
    }
  }

  lemma KidsApart(a: Node, i: nat, m: nat)
    requires a.Valid() && i < |a.kids| && m < |a.kids| && i != m
    ensures a.kids[i].repr !! a.kids[m].repr
  {
    ChildrenOf(a);
    assert i < m ==> TreesDiffer(a.kids[i], a.kids[m]);
    assert m < i ==> TreesDiffer(a.kids[m], a.kids[i]);
  }

  lemma KidsAreComparable(a: Node, b: Node, i: nat, j: nat)
    requires a.Valid() && b.Valid() && Related(a, b) && a != b && i < |a.kids| && j < |b.kids|
    ensures Comparable(a.kids[i], b.kids[j]) && a.kids[i] != b.kids[j]
    ensures |Children(a.value)| == |a.kids| && a.kids[i].value == Children(a.value)[i]
    ensures |Children(b.value)| == |b.kids| && b.kids[j].value == Children(b.value)[j]
    ensures a.kids[i].next == NextOf(a.kids, null, i) && b.kids[j].next == NextOf(b.kids, null, j)
  {
    KidsAreRelated(a, b, i, j);
    ChildrenOf(a);
    ChildrenOf(b);
    KidOf(a.kids, a.repr - {a}, a.value, i);
    KidOf(b.kids, b.repr - {b}, b.value, j);
  }

  lemma ChildNesting(v: Json, i: nat)
    requires i < |Children(v)|
    ensures Nesting(Children(v)[i]) < Nesting(v)
  {
    match v
    case Array(items) => ItemNesting(items, i);
    case Object(members) => MemberNesting(members, i);
    case _ =>
  }

  /** The loop over two arrays: stops at the first difference or the shorter end. */
  method CompareItems(a: Node, b: Node, cs: bool) returns (r: bool)
    requires a.Valid() && b.Valid() && Related(a, b) && a != b && a.value.Array? && b.value.Array?
    ensures r == Same(a.value, b.value, cs)
    decreases Nesting(a.value) + Nesting(b.value), 1
  {
    ghost var kids, others := a.kids, b.kids;
    ChildrenOf(a);
    ChildrenOf(b);
    var x, y := a.child, b.child;
    ghost var i := 0;
    while x != null && y != null
      invariant 0 <= i <= |kids| == |a.value.items| && i <= |others| == |b.value.items|
      invariant x == (if i < |kids| then kids[i] else null) && y == if i < |others| then others[i] else null
      invariant forall k | 0 <= k < i :: SameItem(a.value.items, b.value.items, k, cs)
      decreases |kids| - i
    {
      r, x, y := CompareItem(a, b, x, y, cs, i);
      if !r {
        ItemDiffers(a.value, b.value, i, cs);
        return;
      }
      i := i + 1;
    }
    r := x == y;
    EndsMeet(a, b, i, x, y);
  }

  lemma ItemDiffers(v: Json, w: Json, i: nat, cs: bool)
    requires v.Array? && w.Array? && i < |v.items| && i < |w.items| && !SameItem(v.items, w.items, i, cs)
    ensures !Same(v, w, cs)
  {}

  /** One round of it. */
  method CompareItem(a: Node, b: Node, x: Node, y: Node, cs: bool, ghost i: nat)
    returns (r: bool, x': Node?, y': Node?)
    requires a.Valid() && b.Valid() && Related(a, b) && a != b && a.value.Array? && b.value.Array?
    requires i < |a.kids| == |a.value.items| && i < |b.kids| == |b.value.items| && x == a.kids[i] && y == b.kids[i]
    ensures r == SameItem(a.value.items, b.value.items, i, cs)
    ensures x' == NextOf(a.kids, null, i) && y' == NextOf(b.kids, null, i)
    decreases Nesting(a.value) + Nesting(b.value), 0
  {
    KidsAreComparable(a, b, i, i);
    ChildNesting(a.value, i);
    ChildNesting(b.value, i);
    r := CompareNodes(x, y, cs);
    x', y' := x.next, y.next;
  }

  /** Both loops are through exactly when the arrays are equally long. */
  lemma EndsMeet(a: Node, b: Node, i: nat, x: Node?, y: Node?)
    requires a.Valid() && b.Valid() && Related(a, b) && a != b && i <= |a.kids| && i <= |b.kids|
    requires x == (if i < |a.kids| then a.kids[i] else null) && y == if i < |b.kids| then b.kids[i] else null
    requires x == null || y == null
    ensures x == y <==> |a.kids| == |b.kids|
  {}

  /** One of the two loops over the members of objects. */
  method CompareMembers(a: Node, b: Node, cs: bool) returns (r: bool)
    requires a.Valid() && b.Valid() && Related(a, b) && a != b && a.value.Object? && b.value.Object?
    ensures r == Covers(b.value.members, a.value.members, cs)
    decreases Nesting(a.value) + Nesting(b.value), 1
  {
    ghost var kids, members, among := a.kids, a.value.members, b.value.members;
    ChildrenOf(a);
    var x := a.child;
    ghost var i := 0;
    while x != null
      invariant 0 <= i <= |kids| == |members| && x == if i < |kids| then kids[i] else null
      invariant forall k | 0 <= k < i :: HasMember(among, members, k, cs)
      decreases |kids| - i
    {
      r, x := CompareMember(a, b, x, cs, i);
      if !r {
        return;
      }
      i := i + 1;
    }
    r := true;
  }

  /** One round of it. */
  method CompareMember(a: Node, b: Node, x: Node, cs: bool, ghost i: nat) returns (r: bool, x': Node?)
    requires a.Valid() && b.Valid() && Related(a, b) && a != b && a.value.Object? && b.value.Object?
    requires i < |a.kids| == |a.value.members| && x == a.kids[i]
    ensures r == HasMember(b.value.members, a.value.members, i, cs)
    ensures x' == NextOf(a.kids, null, i)
    decreases Nesting(a.value) + Nesting(b.value), 0
  {
    KeyOf(a, i);
    ChildrenOf(b);
    x' := x.next;
    var y := GetObjectItem(b, x.key.value, cs);
    if y == null {
      return false, x';
    }
    ghost var j := Find(b.value.members, x.key.value, cs).value;
    KidsAreComparable(a, b, i, j);
    ChildNesting(a.value, i);
    ChildNesting(b.value, j);
    r := CompareNodes(x, y, cs);
  }

  /** Two different nodes with integers and distinct keys compare equal exactly when putting
      members in the right order makes their values equal. */
  method CompareIntegers(a: Node, b: Node, cs: bool) returns (r: bool)
    requires Comparable(a, b) && a != b && IntegerNumbers(a.value) && IntegerNumbers(b.value)
    requires DistinctKeys(a.value, cs) && DistinctKeys(b.value, cs)
    ensures r <==> Reordered(a.value, b.value, cs)
  {
    SameIsReordered(a.value, b.value, cs);
    r := CompareNodes(a, b, cs);
  }

  /** A tree as shallow as the parser allows can be duplicated, and the copy compares equal to the
      original exactly when repeated keys repeat their values. */
  method DuplicateAndCompare(item: Node, cs: bool) returns (same: bool)
    requires item.Valid() && Nesting(item.value) <= NESTING_LIMIT
    ensures same <==> ConsistentKeys(item.value, cs)
  {
    LevelsBelowNesting(item.value);
    LevelsArePaths(item.value, 10001);
    var copy := Duplicate(item, true);
    ReflexiveExactly(item.value, cs);
    same := CompareNodes(copy, item, cs);
  }
}

/** Trees of nodes in memory, and their duplication. */
module NodeTree {
  import opened Bytes
  import opened Json

  /** What a node says of its value by itself. */
  datatype Kind =
    | NullKind
    | FalseKind
    | TrueKind
    | NumberKind(value: real)
    | StringKind(text: cstr)
    | ArrayKind
    | ObjectKind

  function KindOf(v: Json): Kind {
    match v
    case Null => NullKind
    case False => FalseKind
    case True => TrueKind
    case Number(d) => NumberKind(d)
    case String(t) => StringKind(t)
    case Array(_) => ArrayKind
    case Object(_) => ObjectKind
  }

  /** The value of a node of that kind without children. */
  function Childless(v: Json): Json {
    match v
    case Array(_) => Array([])
    case Object(_) => Object([])
    case _ => v
  }

  class Node {
    var kind: Kind
    var key: Option<cstr>
    var next: Node?
    var prev: Node?
    var child: Node?
    /** The children in order, the nodes of the tree, and the value it stands for. */
    ghost var kids: seq<Node>
    ghost var repr: set<Node>
    ghost var value: Json

    constructor (kind: Kind, key: Option<cstr>, ghost value: Json)
      ensures this.kind == kind && this.key == key && next == null && prev == null && child == null
      ensures kids == [] && repr == {this} && this.value == value
    {
      this.kind, this.key, this.value := kind, key, value;
      next, prev, child, kids := null, null, null, [];
      repr := {this};
    }

    /** The place of a node among its siblings is no part of its own tree. */
    ghost predicate Valid()
      reads this`kind, this`child, this`kids, this`repr, this`value, repr - {this}
      decreases repr, 0
    {
      && this in repr
      && kind == KindOf(value)
      && child == First(kids)
      && (forall k :: k in kids ==> k in repr - {this})
      && Trees(kids, repr - {this})
      && Chain(kids, Last(kids), null)
      && Stand(kids, value)
    }
  }

  /** The trees of siblings are among nodes, and apart. */
  ghost predicate Apart(kids: seq<Node>, nodes: set<Node>)
    reads kids`repr
  {
    && (forall i {:trigger TreeAmong(kids[i], nodes)} :: 0 <= i < |kids| ==> TreeAmong(kids[i], nodes))
    && (forall i, j {:trigger TreesDiffer(kids[i], kids[j])} :: 0 <= i < j < |kids| ==> TreesDiffer(kids[i], kids[j]))
  }

  ghost predicate TreeAmong(n: Node, nodes: set<Node>)
    reads n`repr
  {
    n in n.repr && n.repr <= nodes
  }

  ghost predicate TreesDiffer(a: Node, b: Node)
    reads a`repr, b`repr
  {
    a.repr !! b.repr
  }

  lemma ApartAt(kids: seq<Node>, nodes: set<Node>, i: nat)
    requires Apart(kids, nodes) && i < |kids|
    ensures kids[i] in kids[i].repr && kids[i].repr <= nodes
    ensures forall k :: k in kids && k != kids[i] ==> k !in kids[i].repr
  {
    assert TreeAmong(kids[i], nodes);
    forall j | 0 <= j < |kids| && j != i
      ensures kids[j] !in kids[i].repr
    {
      assert TreeAmong(kids[j], nodes);
      assert i < j ==> TreesDiffer(kids[i], kids[j]);
      assert j < i ==> TreesDiffer(kids[j], kids[i]);
    }
  }

  /** And valid; how the siblings are linked is no part of this. */
  ghost predicate Trees(kids: seq<Node>, nodes: set<Node>)
    reads kids`kind, kids`child, kids`kids, kids`repr, kids`value, nodes - (set k | k in kids)
    decreases nodes, 1
  {
    && Apart(kids, nodes)
    && forall i {:trigger kids[i].Valid()} :: 0 <= i < |kids| ==>
         (ApartAt(kids, nodes, i);
          kids[i].Valid())
  }

  /** The siblings are linked; the prev of the first and the next of the last are given. */
  ghost predicate Chain(kids: seq<Node>, before: Node?, after: Node?)
    reads kids`next, kids`prev
  {
    forall i :: 0 <= i < |kids| ==> LinkedAt(kids, before, after, i)
  }

  ghost predicate LinkedAt(kids: seq<Node>, before: Node?, after: Node?, i: nat)
    requires i < |kids|
    reads kids`next, kids`prev
  {
    kids[i].next == NextOf(kids, after, i) && kids[i].prev == PrevOf(kids, before, i)
  }

  ghost function NextOf(kids: seq<Node>, after: Node?, i: nat): Node?
    requires i < |kids|
  {
    if i + 1 < |kids| then kids[i + 1] else after
  }

  ghost function PrevOf(kids: seq<Node>, before: Node?, i: nat): Node?
    requires i < |kids|
  {
    if i == 0 then before else kids[i - 1]
  }

  ghost function First(kids: seq<Node>): Node? {
    if kids == [] then null else kids[0]
  }

  ghost function Last(kids: seq<Node>): Node? {
    if kids == [] then null else kids[|kids| - 1]
  }

  /** The children of a value, as nodes keep them: an item has a value, a member a key, too. */
  function Children(v: Json): seq<Json> {
    match v
    case Array(items) => items
    case Object(members) => Values(members)
    case _ => []
  }

  function Values(members: seq<Member>): (vs: seq<Json>)
    ensures |vs| == |members| && forall i :: 0 <= i < |members| ==> vs[i] == members[i].value
  {
    if members == [] then [] else [members[0].value] + Values(members[1..])
  }

  /** The nodes stand for the children of the value. */
  ghost predicate Stand(kids: seq<Node>, v: Json)
    reads kids`value, kids`key
  {
    && |kids| == |Children(v)|
    && forall i {:trigger StandsFor(kids[i], v, i)} :: 0 <= i < |kids| ==> StandsFor(kids[i], v, i)
  }

  ghost predicate StandsFor(n: Node, v: Json, i: nat)
    requires i < |Children(v)|
    reads n`value, n`key
  {
    n.value == Children(v)[i] && (v.Object? ==> n.key == Some(v.members[i].key))
  }

  // ---------------------------------------------------------------- duplication

  /** A node behind siblings that lead to it. */
  lemma AppendTrees(row: seq<Node>, nodes: set<Node>, last: Node)
    requires Trees(row, nodes) && last.Valid() && last.repr !! nodes
    ensures Trees(row + [last], nodes + last.repr)
  {
    var longer := row + [last];
    forall i | 0 <= i < |longer|
      ensures TreeAmong(longer[i], nodes + last.repr) && longer[i].Valid()
    {
      assert i < |row| ==> TreeAmong(row[i], nodes) && row[i].Valid();
    }
    forall i, j | 0 <= i < j < |longer|
      ensures TreesDiffer(longer[i], longer[j])
    {
      assert TreeAmong(row[i], nodes);
      assert j < |row| ==> TreesDiffer(row[i], row[j]);
    }
  }

  lemma AppendChain(row: seq<Node>, last: Node)
    requires Chain(row, null, last) && last.next == null && last.prev == Last(row)
    ensures Chain(row + [last], null, null)
  {
    var longer := row + [last];
    forall i | 0 <= i < |longer|
      ensures LinkedAt(longer, null, null, i)
    {
      assert i < |row| ==> LinkedAt(row, null, last, i);
    }
  }

  ghost predicate Distinct(kids: seq<Node>) {
    forall i, j :: 0 <= i < j < |kids| ==> kids[i] != kids[j]
  }

  lemma ApartAreDistinct(kids: seq<Node>, nodes: set<Node>)
    requires Apart(kids, nodes)
    ensures Distinct(kids)
  {
    forall i, j | 0 <= i < j < |kids|
      ensures kids[i] != kids[j]
    {
      assert TreeAmong(kids[i], nodes) && TreeAmong(kids[j], nodes) && TreesDiffer(kids[i], kids[j]);
    }
  }

  /** The last sibling is made to lead to a node. */
  method SetNext(last: Node, after: Node, ghost row: seq<Node>)
    requires Distinct(row) && Chain(row, null, null) && last == Last(row)
    modifies last`next
    ensures Chain(row, null, after)
  {
    label L:
    last.next := after;
    forall i | 0 <= i < |row|
      ensures LinkedAt(row, null, after, i)
    {
      assert old@L(LinkedAt(row, null, null, i));
    }
  }

  /** A node is linked behind the last sibling. */
  method Link(next: Node, newchild: Node, ghost done: seq<Node>)
    requires Distinct(done) && Chain(done, null, null) && next == Last(done)
    requires newchild !in done && newchild.next == null
    modifies next`next, newchild`prev
    ensures Chain(done + [newchild], null, null)
  {
    SetNext(next, newchild, done);
    newchild.prev := next;
    AppendChain(done, newchild);
  }

  /** A copy, not linked to siblings. */
  ghost predicate IsCopy(copy: Node, value: Json, key: Option<cstr>)
    reads copy, copy.repr
  {
    copy.Valid() && copy.value == value && copy.key == key && copy.next == null && copy.prev == null
  }

  /** The copies made so far, and the node whose children they are to become. */
  ghost predicate Copied(newitem: Node, done: seq<Node>, nodes: set<Node>)
    reads newitem, nodes, done
  {
    && Trees(done, nodes) && Chain(done, null, null) && newitem !in nodes
    && newitem.child == First(done) && newitem.next == null && newitem.prev == null
  }

  /** newchild becomes the last of the copies made so far. */
  method Attach(newitem: Node, next: Node?, newchild: Node, ghost done: seq<Node>, ghost nodes: set<Node>,
                ghost value: Json, ghost key: Option<cstr>)
    requires Copied(newitem, done, nodes) && next == Last(done)
    requires IsCopy(newchild, value, key) && newchild.repr !! nodes && newitem !in newchild.repr
    modifies newitem`child, newchild`prev, (if next == null then {} else {next})`next
    ensures Copied(newitem, done + [newchild], nodes + newchild.repr)
  {
    OthersTree(done, nodes, newchild);
    if next != null {
      Link(next, newchild, done);
    } else {
      newitem.child := newchild;
    }
    AppendTrees(done, nodes, newchild);
  }

  lemma OthersTree(done: seq<Node>, nodes: set<Node>, other: Node)
    requires Apart(done, nodes) && other !in nodes
    ensures Distinct(done) && other !in done
    ensures forall k :: k in done ==> k in nodes
  {
    ApartAreDistinct(done, nodes);
    forall i | 0 <= i < |done|
      ensures done[i] in nodes
    {
      assert TreeAmong(done[i], nodes);
    }
  }

  /** The head comes to know the last; with that the children are complete. */
  method Complete(newitem: Node, newchild: Node?, ghost done: seq<Node>, ghost nodes: set<Node>, ghost value: Json)
    requires Distinct(done) && newitem !in done && Chain(done, null, null)
    requires newitem.child == First(done) && newchild == Last(done)
    modifies newitem`kids, newitem`repr, newitem`value, (if newitem.child == null then {} else {newitem.child})`prev
    ensures newitem.kids == done && newitem.repr == {newitem} + nodes && newitem.value == value
    ensures Chain(done, newchild, null)
  {
    label L:
    if newitem.child != null {
      newitem.child.prev := newchild;
    }
    newitem.kids, newitem.repr, newitem.value := done, {newitem} + nodes, value;
    forall i | 0 <= i < |done|
      ensures LinkedAt(done, newchild, null, i)
    {
      assert old@L(LinkedAt(done, null, null, i));
    }
  }

  lemma IsValid(n: Node, nodes: set<Node>)
    requires n !in nodes && n.repr == {n} + nodes
    requires n.kind == KindOf(n.value) && n.child == First(n.kids) && Stand(n.kids, n.value)
    requires Trees(n.kids, nodes) && Chain(n.kids, Last(n.kids), null)
    ensures n.Valid()
  {
    assert n.repr - {n} == nodes;
    OthersTree(n.kids, nodes, n);
  }

  /** The copies become the children of the new node. */
  method Adopt(newitem: Node, newchild: Node?, ghost done: seq<Node>, ghost nodes: set<Node>, ghost value: Json)
    requires Copied(newitem, done, nodes) && Stand(done, value)
    requires newchild == Last(done) && newitem.kind == KindOf(value)
    modifies newitem`kids, newitem`repr, newitem`value, (if newitem.child == null then {} else {newitem.child})`prev
    ensures IsCopy(newitem, value, newitem.key) && newitem.repr == {newitem} + nodes
  {
    OthersTree(done, nodes, newitem);
    Complete(newitem, newchild, done, nodes, value);
    IsValid(newitem, nodes);
  }

  // ---------------------------------------------------------------- how deep a copy may go

  const CIRCULAR_LIMIT: nat := 10000

  /** How many levels have children: 0 for scalars and for empty containers. */
  function Levels(v: Json): nat
    decreases v
  {
    match v
    case Array(items) => ItemsLevels(items)
    case Object(members) => MembersLevels(members)
    case _ => 0
  }

  function ItemsLevels(items: seq<Json>): nat
    decreases items
  {
    if items == [] then 0 else Max(1 + Levels(items[0]), ItemsLevels(items[1..]))
  }

  function MembersLevels(members: seq<Member>): nat
    decreases members
  {
    if members == [] then 0 else Max(1 + Levels(members[0].value), MembersLevels(members[1..]))
  }

  lemma {:induction false} LevelsBelowNesting(v: Json)
    ensures Levels(v) <= Nesting(v)
    decreases v, 0
  {
    match v
    case Array(items) => ItemsLevelsBelow(items);
    case Object(members) => MembersLevelsBelow(members);
    case _ =>
  }

  lemma {:induction false} ItemsLevelsBelow(items: seq<Json>)
    ensures ItemsLevels(items) <= 1 + ItemsNesting(items)
    decreases items, 1
  {
    if items != [] {
      LevelsBelowNesting(items[0]);
      ItemsLevelsBelow(items[1..]);
    }
  }

  lemma {:induction false} MembersLevelsBelow(members: seq<Member>)
    ensures MembersLevels(members) <= 1 + MembersNesting(members)
    decreases members, 1
  {
    if members != [] {
      LevelsBelowNesting(members[0].value);
      MembersLevelsBelow(members[1..]);
    }
  }

  lemma {:induction false} LevelsOfMembers(members: seq<Member>)
    ensures ItemsLevels(Values(members)) == MembersLevels(members)
  {
    if members != [] {
      LevelsOfMembers(members[1..]);
      assert Values(members)[1..] == Values(members[1..]);
    }
  }

  lemma LevelsOfChildren(v: Json)
    ensures Levels(v) == ItemsLevels(Children(v))
  {
    if v.Object? {
      LevelsOfMembers(v.members);
    }
  }

  /** A way down the tree, child by child. */
  predicate Path(v: Json, p: seq<nat>)
    decreases |p|
  {
    p == [] || (p[0] < |Children(v)| && Path(Children(v)[p[0]], p[1..]))
  }

  lemma {:induction false} ItemBelow(items: seq<Json>, i: nat)
    requires i < |items|
    ensures 1 + Levels(items[i]) <= ItemsLevels(items)
    decreases i
  {
    if i > 0 {
      ItemBelow(items[1..], i - 1);
    }
  }

  lemma {:induction false} DeepestItem(items: seq<Json>) returns (i: nat)
    requires items != []
    ensures i < |items| && ItemsLevels(items) == 1 + Levels(items[i])
  {
    i := 0;
    if |items| > 1 && 1 + Levels(items[0]) < ItemsLevels(items[1..]) {
      var j := DeepestItem(items[1..]);
      i := j + 1;
    }
  }

  lemma {:induction false} PathIsShort(v: Json, p: seq<nat>)
    requires Path(v, p)
    ensures |p| <= Levels(v)
    decreases |p|
  {
    LevelsOfChildren(v);
    if p != [] {
      ItemBelow(Children(v), p[0]);
      PathIsShort(Children(v)[p[0]], p[1..]);
    }
  }

  lemma {:induction false} LongestPath(v: Json) returns (p: seq<nat>)
    ensures Path(v, p) && |p| == Levels(v)
    decreases Levels(v)
  {
    LevelsOfChildren(v);
    p := [];
    if Children(v) != [] {
      var i := DeepestItem(Children(v));
      var rest := LongestPath(Children(v)[i]);
      p := [i] + rest;
      assert p[1..] == rest;
    }
  }

  lemma {:induction false} PathPrefix(v: Json, p: seq<nat>, n: nat)
    requires Path(v, p) && n <= |p|
    ensures Path(v, p[..n])
    decreases n
  {
    if n > 0 {
      PathPrefix(Children(v)[p[0]], p[1..], n - 1);
      assert p[..n][1..] == p[1..][..n - 1];
    }
  }

  /** Levels are how far one can go down. */
  lemma LevelsArePaths(v: Json, n: nat)
    ensures Levels(v) >= n <==> exists p: seq<nat> :: |p| == n && Path(v, p)
  {
    var p := LongestPath(v);
    if n <= |p| {
      PathPrefix(v, p, n);
      assert |p[..n]| == n;
    }
    forall q: seq<nat> | |q| == n && Path(v, q)
      ensures n <= Levels(v)
    {
      PathIsShort(v, q);
    }
  }

  /** The levels of the children from i on are below the limit. */
  predicate Remaining(v: Json, depth: nat, i: nat) {
    i <= |Children(v)| && depth + ItemsLevels(Children(v)[i..]) <= CIRCULAR_LIMIT
  }

  lemma AllRemain(v: Json, depth: nat)
    requires depth <= CIRCULAR_LIMIT
    ensures Remaining(v, depth, 0) <==> depth + Levels(v) <= CIRCULAR_LIMIT
    ensures Remaining(v, depth, |Children(v)|)
  {
    LevelsOfChildren(v);
    assert Children(v)[0..] == Children(v);
  }

  lemma NextLevels(vs: seq<Json>, i: nat)
    requires i < |vs|
    ensures ItemsLevels(vs[i..]) == Max(1 + Levels(vs[i]), ItemsLevels(vs[i + 1..]))
  {
    assert vs[i..][1..] == vs[i + 1..];
  }

  // ---------------------------------------------------------------- duplication

  /** Their values and keys. */
  ghost predicate Alike(done: seq<Node>, kids: seq<Node>)
    reads done`value, done`key, kids`value, kids`key
  {
    && |done| <= |kids|
    && forall j {:trigger SameLabel(done[j], kids[j])} :: 0 <= j < |done| ==> SameLabel(done[j], kids[j])
  }

  ghost predicate SameLabel(a: Node, b: Node)
    reads a`value, a`key, b`value, b`key
  {
    a.value == b.value && a.key == b.key
  }

  lemma AppendAlike(done: seq<Node>, kids: seq<Node>, last: Node)
    requires Alike(done, kids) && |done| < |kids|
    requires last.value == kids[|done|].value && last.key == kids[|done|].key
    ensures Alike(done + [last], kids)
  {
    var longer := done + [last];
    forall j | 0 <= j < |longer|
      ensures SameLabel(longer[j], kids[j])
    {
      assert j < |done| ==> SameLabel(done[j], kids[j]);
    }
  }

  lemma AlikeStand(done: seq<Node>, kids: seq<Node>, value: Json)
    requires |done| == |kids| && Alike(done, kids) && Stand(kids, value)
    ensures Stand(done, value)
  {
    forall i | 0 <= i < |done|
      ensures StandsFor(done[i], value, i)
    {
      assert SameLabel(done[i], kids[i]) && StandsFor(kids[i], value, i);
    }
  }

  /** Children to be copied: valid trees apart, linked, and standing for the children of the
      value. */
  ghost predicate Source(kids: seq<Node>, trees: set<Node>, value: Json)
    reads trees, kids
  {
    Trees(kids, trees) && Chain(kids, Last(kids), null) && Stand(kids, value)
  }

  lemma KidOf(kids: seq<Node>, trees: set<Node>, value: Json, i: nat)
    requires Source(kids, trees, value) && i < |kids|
    ensures |Children(value)| == |kids| && kids[i].value == Children(value)[i]
    ensures kids[i].Valid() && kids[i].repr <= trees
    ensures kids[i].next == NextOf(kids, null, i)
  {
    assert TreeAmong(kids[i], trees) && kids[i].Valid() && StandsFor(kids[i], value, i);
    assert LinkedAt(kids, Last(kids), null, i);
  }

  /** cJSON_Duplicate_rec: a copy in fresh nodes; with recurse, of the whole tree, exactly when
      every level with children is below the limit. */
  method DuplicateRec(item: Node?, depth: nat, recurse: bool) returns (copy: Node?)
    requires depth <= CIRCULAR_LIMIT && (item != null ==> item.Valid())
    ensures item == null ==> copy == null
    ensures item != null ==> (copy == null <==> recurse && depth + Levels(item.value) > CIRCULAR_LIMIT)
    ensures item != null && copy != null ==>
              && IsCopy(copy, if recurse then item.value else Childless(item.value), item.key)
              && fresh(copy.repr)
    decreases if item == null then {} else item.repr, 0
  {
    if item == null {
      return null;
    }
    var newitem := new Node(item.kind, item.key, Childless(item.value));
    if !recurse {
      return newitem;
    }
    ghost var trees := item.repr - {item};
    copy := CopyChildren(item.child, depth, newitem, item.kids, trees, item.value);
  }

  /** i children are copied; next is the last copy. */
  ghost predicate Progress(newitem: Node, next: Node?, done: seq<Node>, nodes: set<Node>, kids: seq<Node>, i: nat)
    reads newitem, nodes, done, kids
  {
    && Copied(newitem, done, nodes) && |done| == i && Alike(done, kids)
    && next == Last(done) && (next == null || next in nodes)
  }

  /** cJSON_Duplicate_rec behind the test of recurse. */
  method CopyChildren(first: Node?, depth: nat, newitem: Node,
                      ghost kids: seq<Node>, ghost trees: set<Node>, ghost value: Json) returns (copy: Node?)
    requires depth <= CIRCULAR_LIMIT && Source(kids, trees, value) && first == First(kids)
    requires newitem !in trees && Copied(newitem, [], {}) && newitem.kind == KindOf(value)
    modifies newitem
    ensures copy == null <==> depth + Levels(value) > CIRCULAR_LIMIT
    ensures copy != null ==>
              && copy == newitem && IsCopy(copy, value, old(newitem.key))
              && newitem in copy.repr && fresh(copy.repr - {newitem})
    decreases trees, 4
  {
    var good, newchild, done, nodes := Walk(first, depth, newitem, kids, trees, value);
    if !good {
      return null;
    }
    Finish(newitem, newchild, done, nodes, kids, value);
    copy := newitem;
  }

  /** The walk over the children. */
  method Walk(first: Node?, depth: nat, newitem: Node, ghost kids: seq<Node>, ghost trees: set<Node>, ghost value: Json)
    returns (good: bool, newchild: Node?, ghost done: seq<Node>, ghost nodes: set<Node>)
    requires depth <= CIRCULAR_LIMIT && Source(kids, trees, value) && first == First(kids)
    requires newitem !in trees && Copied(newitem, [], {})
    modifies newitem`child
    ensures good <==> depth + Levels(value) <= CIRCULAR_LIMIT
    ensures good ==>
              && fresh(nodes) && Stand(kids, value)
              && Progress(newitem, newchild, done, nodes, kids, |kids|)
    decreases trees, 3
  {
    var child := first;
    var next: Node? := null;
    ghost var i := 0;
    newchild, done, nodes := null, [], {};
    AllRemain(value, depth);
    while child != null
      invariant 0 <= i <= |kids| && child == if i < |kids| then kids[i] else null
      invariant Progress(newitem, next, done, nodes, kids, i) && next == newchild
      invariant fresh(nodes) && Source(kids, trees, value)
      invariant Remaining(value, depth, i) <==> depth + Levels(value) <= CIRCULAR_LIMIT
      decreases |kids| - i
    {
      newchild, done, nodes := Round(child, depth, newitem, next, kids, trees, value, i, done, nodes);
      if newchild == null {
        return false, null, done, nodes;
      }
      next := newchild;
      child := child.next;
      i := i + 1;
    }
    good := true;
  }

  /** All children are copied. */
  method Finish(newitem: Node, newchild: Node?, ghost done: seq<Node>, ghost nodes: set<Node>,
                ghost kids: seq<Node>, ghost value: Json)
    requires Progress(newitem, newchild, done, nodes, kids, |kids|) && Stand(kids, value)
    requires newitem.kind == KindOf(value)
    modifies newitem`kids, newitem`repr, newitem`value, nodes`prev
    ensures IsCopy(newitem, value, newitem.key) && newitem.repr == {newitem} + nodes
  {
    AlikeStand(done, kids, value);
    OthersTree(done, nodes, newitem);
    assert newitem.child != null ==> done[0] in done;
    Adopt(newitem, newchild, done, nodes, value);
  }

  /** The loop body: behind the copies of i children comes that of the next. */
  method Round(child: Node, depth: nat, newitem: Node, next: Node?,
               ghost kids: seq<Node>, ghost trees: set<Node>, ghost value: Json, ghost i: nat,
               ghost done: seq<Node>, ghost nodes: set<Node>)
    returns (newchild: Node?, ghost done': seq<Node>, ghost nodes': set<Node>)
    requires depth <= CIRCULAR_LIMIT && Source(kids, trees, value) && i < |kids| && child == kids[i]
    requires Progress(newitem, next, done, nodes, kids, i)
    requires newitem !in trees && nodes !! trees
    modifies newitem`child, (if next == null then {} else {next})`next
    ensures Source(kids, trees, value) && child.next == NextOf(kids, null, i)
    ensures Remaining(value, depth, i) <==> newchild != null && Remaining(value, depth, i + 1)
    ensures newchild != null ==> fresh(nodes' - nodes) && Progress(newitem, newchild, done', nodes', kids, i + 1)
    decreases trees, 2
  {
    KidOf(kids, trees, value, i);
    NextLevels(Children(value), i);
    newchild := CopyChild(child, depth, newitem, next, done, nodes, kids, trees, value);
    done', nodes' := done, nodes;
    if newchild != null {
      AppendAlike(done, kids, newchild);
      done', nodes' := done + [newchild], nodes + newchild.repr;
    }
  }

  /** The child is copied and attached; the original is left alone. */
  method CopyChild(child: Node, depth: nat, newitem: Node, next: Node?, ghost done: seq<Node>, ghost nodes: set<Node>,
                   ghost kids: seq<Node>, ghost trees: set<Node>, ghost value: Json) returns (newchild: Node?)
    requires depth <= CIRCULAR_LIMIT && child.Valid() && child.repr <= trees
    requires Copied(newitem, done, nodes) && next == Last(done)
    requires Source(kids, trees, value) && newitem !in trees && (next != null ==> next !in trees)
    modifies newitem`child, (if next == null then {} else {next})`next
    ensures Source(kids, trees, value)
    ensures newchild == null <==> depth + 1 + Levels(child.value) > CIRCULAR_LIMIT
    ensures newchild != null ==>
              && fresh(newchild.repr) && newchild in newchild.repr && SameLabel(newchild, child)
              && Copied(newitem, done + [newchild], nodes + newchild.repr)
    decreases trees, 1
  {
    if depth >= CIRCULAR_LIMIT {
      return null;
    }
    newchild := DuplicateRec(child, depth + 1, true);
    if newchild != null {
      AttachBeside(newitem, next, newchild, done, nodes, child, kids, trees, value);
    }
  }

  method AttachBeside(newitem: Node, next: Node?, newchild: Node, ghost done: seq<Node>, ghost nodes: set<Node>,
                      child: Node, ghost kids: seq<Node>, ghost trees: set<Node>, ghost value: Json)
    requires Copied(newitem, done, nodes) && next == Last(done)
    requires IsCopy(newchild, child.value, child.key) && newchild.repr !! nodes && newitem !in newchild.repr
    requires Source(kids, trees, value) && newitem !in trees && newchild !in trees && (next != null ==> next !in trees)
    modifies newitem`child, newchild`prev, (if next == null then {} else {next})`next
    ensures Source(kids, trees, value) && Copied(newitem, done + [newchild], nodes + newchild.repr)
  {
    OthersTree(kids, trees, newitem);
    Attach(newitem, next, newchild, done, nodes, child.value, child.key);
  }

  /** cJSON_Duplicate: the copy is all new, and nothing that was there before is written. A whole
      tree is copied exactly when nothing in it is more than 10000 levels down. */
  method Duplicate(item: Node?, recurse: bool) returns (copy: Node?)
    requires item != null ==> item.Valid()
    ensures item == null ==> copy == null
    ensures item != null ==> (copy == null <==> recurse && exists p: seq<nat> :: |p| == 10001 && Path(item.value, p))
    ensures item != null && copy != null ==>
              && IsCopy(copy, if recurse then item.value else Childless(item.value), item.key)
              && fresh(copy.repr) && copy.repr !! item.repr
  {
    if item != null {
      LevelsArePaths(item.value, 10001);
    }
    copy := DuplicateRec(item, 0, recurse);
  }
}

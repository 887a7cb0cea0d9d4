/** The doubly linked children of arrays and objects. The chain of `next` ends in null, the
    chain of `prev` runs backwards, and the `prev` of the first child is the last child. */
module ItemList {

  class Item {
    var next: Item?
    var prev: Item?
    var child: Item?
    /** The children in order. */
    ghost var children: seq<Item>

    constructor ()
      ensures next == null && prev == null && child == null && children == []
      ensures Valid()
    {
      next, prev, child, children := null, null, null, [];
    }

    ghost predicate Valid()
      reads this, children
    {
      && this !in children
      && child == (if children == [] then null else children[0])
      && Linked(children)
    }
  }

  predicate Distinct(s: seq<Item>) {
    forall i, j :: 0 <= i < j < |s| ==> s[i] != s[j]
  }

  ghost predicate Linked(s: seq<Item>)
    reads s
  {
    && Distinct(s)
    && forall i :: 0 <= i < |s| ==> LinkedAt(s, i)
  }

  ghost predicate LinkedAt(s: seq<Item>, i: nat)
    requires i < |s|
    reads s
  {
    s[i].next == Next(s, i) && s[i].prev == Prev(s, i)
  }

  ghost function Next(s: seq<Item>, i: nat): Item?
    requires i < |s|
  {
    if i + 1 < |s| then s[i + 1] else null
  }

  ghost function Prev(s: seq<Item>, i: nat): Item?
    requires i < |s|
  {
    if i == 0 then s[|s| - 1] else s[i - 1]
  }

  // ---------------------------------------------------------------- local surgery is enough

  /** Behind a new tail: the old tail leads to it and the head records it. */
  ghost predicate BehindTail(s: seq<Item>, item: Item, k: nat)
    requires k < |s|
    reads s
  {
    && s[k].next == (if k == |s| - 1 then item else Next(s, k))
    && s[k].prev == (if k == 0 then item else Prev(s, k))
  }

  lemma AppendLinks(s: seq<Item>, item: Item)
    requires s != [] && Distinct(s) && item !in s && item.next == null && item.prev == s[|s| - 1]
    requires forall k :: 0 <= k < |s| ==> BehindTail(s, item, k)
    ensures Linked(s + [item])
  {
    var t := s + [item];
    forall k | 0 <= k < |t|
      ensures LinkedAt(t, k)
    {
      assert k < |s| ==> BehindTail(s, item, k);
    }
  }

  /** Around item i taken out: its neighbours are linked to each other, and the head records
      the tail when that changes. */
  ghost predicate AroundRemoved(s: seq<Item>, i: nat, k: nat)
    requires i < |s| && k < |s|
    reads s
  {
    && s[k].next == (if k + 1 == i then Next(s, i) else Next(s, k))
    && s[k].prev == (if k == i + 1 || (k == 0 && i == |s| - 1) then Prev(s, i) else Prev(s, k))
  }

  lemma RemovalLinks(s: seq<Item>, i: nat)
    requires i < |s| && Distinct(s)
    requires forall k :: 0 <= k < |s| && k != i ==> AroundRemoved(s, i, k)
    ensures Linked(Remove(s, i))
  {
    var t := Remove(s, i);
    forall k | 0 <= k < |t|
      ensures LinkedAt(t, k)
    {
      var j: nat := if k < i then k else k + 1;
      assert t[k] == s[j] && AroundRemoved(s, i, j);
    }
  }

  /** Around an item put before item i. */
  ghost predicate AroundInserted(s: seq<Item>, i: nat, item: Item, k: nat)
    requires i < |s| && k < |s|
    reads s
  {
    && s[k].next == (if k + 1 == i then item else Next(s, k))
    && s[k].prev == (if k == i then item else Prev(s, k))
  }

  lemma InsertionLinks(s: seq<Item>, i: nat, item: Item)
    requires i < |s| && Distinct(s) && item !in s && item.next == s[i] && item.prev == Prev(s, i)
    requires forall k :: 0 <= k < |s| ==> AroundInserted(s, i, item, k)
    ensures Linked(Insert(s, i, item))
  {
    var t := Insert(s, i, item);
    forall k | 0 <= k < |t|
      ensures LinkedAt(t, k)
    {
      if k != i {
        var j: nat := if k < i then k else k - 1;
        assert t[k] == s[j] && AroundInserted(s, i, item, j);
      }
    }
  }

  /** Around an item put in the place of item i. */
  ghost predicate AroundReplaced(s: seq<Item>, i: nat, item: Item, k: nat)
    requires i < |s| && k < |s|
    reads s
  {
    && s[k].next == (if k + 1 == i then item else Next(s, k))
    && s[k].prev == (if k == i + 1 || (k == 0 && i == |s| - 1) then item else Prev(s, k))
  }

  lemma ReplacementLinks(s: seq<Item>, i: nat, item: Item)
    requires i < |s| && Distinct(s) && item !in s
    requires item.next == Next(s, i) && item.prev == if |s| == 1 then item else Prev(s, i)
    requires forall k :: 0 <= k < |s| && k != i ==> AroundReplaced(s, i, item, k)
    ensures Linked(s[i := item])
  {
    var t := s[i := item];
    forall k | 0 <= k < |t|
      ensures LinkedAt(t, k)
    {
      assert k != i ==> AroundReplaced(s, i, item, k);
    }
  }

  /** What an operation on a list may rewrite besides the item handed to it. */
  ghost function Nodes(list: Item?): set<Item>
    reads list
  {
    if list == null then {} else (set x | x in list.children)
  }

  ghost function One(item: Item?): set<Item> {
    if item == null then {} else {item}
  }

  ghost function IndexOf(s: seq<Item>, item: Item): (i: nat)
    requires item in s
    ensures i < |s| && s[i] == item
  {
    if s[0] == item then 0 else 1 + IndexOf(s[1..], item)
  }

  function Insert(s: seq<Item>, i: nat, item: Item): seq<Item>
    requires i <= |s|
  {
    s[..i] + [item] + s[i..]
  }

  function Remove(s: seq<Item>, i: nat): seq<Item>
    requires i < |s|
  {
    s[..i] + s[i + 1..]
  }

  // ---------------------------------------------------------------- append

  method SuffixObject(prev: Item, item: Item)
    modifies prev`next, item`prev
    ensures prev.next == item && item.prev == prev
  {
    prev.next := item;
    item.prev := prev;
  }

  method AddItemToArray(list: Item?, item: Item?) returns (ok: bool)
    requires list != null ==> list.Valid()
    requires list != null && item != null && item != list ==>
               item !in list.children && (list.children != [] ==> item.next == null)
    modifies One(list)`child, One(list)`children, Nodes(list)`next, Nodes(list)`prev
    modifies One(item)`next, One(item)`prev
    ensures ok <==> list != null && item != null && list != item
    ensures ok ==> list.Valid() && list.children == old(list.children) + [item]
    ensures !ok ==> list == null || (list.Valid() && list.children == old(list.children))
  {
    if item == null || list == null || list == item {
      return false;
    }
    ghost var s := list.children;
    var child := list.child;
    if child == null {
      list.child := item;
      item.prev := item;
      item.next := null;
    } else {
      assert LinkedAt(list.children, 0);
      if child.prev != null {
        SuffixObject(child.prev, item);
        list.child.prev := item;
        forall k | 0 <= k < |s|
          ensures BehindTail(s, item, k)
        {
          assert old(LinkedAt(s, k));
        }
        AppendLinks(s, item);
      }
    }
    list.children := s + [item];
    ok := true;
  }

  // ---------------------------------------------------------------- building

  /** A list under construction: the head does not know the tail yet. */
  ghost predicate Growing(s: seq<Item>)
    reads s
  {
    && Distinct(s)
    && forall i :: 0 <= i < |s| ==> GrowingAt(s, i)
  }

  ghost predicate GrowingAt(s: seq<Item>, i: nat)
    requires i < |s|
    reads s
  {
    s[i].next == Next(s, i) && (i > 0 ==> s[i].prev == s[i - 1])
  }

  /** Linking a new item behind the current one, as the parser and the copier do. */
  method Grow(current: Item?, ghost s: seq<Item>) returns (item: Item, ghost s': seq<Item>)
    requires Growing(s) && current == if s == [] then null else s[|s| - 1]
    modifies One(current)`next
    ensures fresh(item) && s' == s + [item] && Growing(s')
    ensures item.child == null && item.children == []
  {
    item := new Item();
    s' := s + [item];
    if current != null {
      current.next := item;
      item.prev := current;
    }
    forall i | 0 <= i < |s'|
      ensures GrowingAt(s', i)
    {
      if i < |s| {
        assert old(GrowingAt(s, i));
      }
    }
  }

  /** The list that parse_array, parse_object and cJSON_Duplicate_rec build around the values:
      n new items, linked as every operation here expects them. */
  method BuildList(list: Item, n: nat)
    requires list.Valid() && list.children == []
    modifies list`child, list`children
    ensures list.Valid() && |list.children| == n
    ensures forall i :: 0 <= i < n ==> fresh(list.children[i])
  {
    var head: Item?, current: Item? := null, null;
    ghost var s: seq<Item> := [];
    var i := 0;
    while i < n
      invariant 0 <= i <= n && |s| == i && Growing(s) && list !in s
      invariant forall k :: 0 <= k < i ==> fresh(s[k])
      invariant head == (if s == [] then null else s[0]) && current == (if s == [] then null else s[i - 1])
    {
      var item;
      item, s := Grow(current, s);
      if head == null {
        head := item;
      }
      current := item;
      i := i + 1;
    }
    label L:
    if head != null {
      head.prev := current;
    }
    list.child := head;
    list.children := s;
    forall k | 0 <= k < |s|
      ensures LinkedAt(s, k)
    {
      assert old@L(GrowingAt(s, k));
    }
  }

  // ---------------------------------------------------------------- lookup

  method GetArrayItem(list: Item?, index: int) returns (r: Item?)
    requires list != null ==> list.Valid()
    ensures r == if list != null && 0 <= index < |list.children| then list.children[index] else null
  {
    if index < 0 || list == null {
      return null;
    }
    r := list.child;
    var left := index;
    ghost var at: nat := 0;
    while r != null && left > 0
      invariant 0 <= left <= index && at == index - left && at <= |list.children|
      invariant r == if at < |list.children| then list.children[at] else null
      decreases left
    {
      assert LinkedAt(list.children, at);
      left := left - 1;
      r := r.next;
      at := at + 1;
    }
  }

  // ---------------------------------------------------------------- detach

  /** A child that is not the first has a `prev`. */
  lemma NotLinked(parent: Item?, item: Item?)
    requires parent != null ==> parent.Valid()
    requires parent == null || item == null || (item != parent.child && item.prev == null)
    ensures parent != null && item != null ==> item !in parent.children
  {
    if parent != null {
      forall i | 0 <= i < |parent.children|
        ensures parent.children[i] != item
      {
        assert LinkedAt(parent.children, i);
      }
    }
  }

  method DetachItemViaPointer(parent: Item?, item: Item?) returns (r: Item?)
    requires parent != null ==> parent.Valid()
    requires parent != null && item != null ==> item in parent.children || item.prev == null
    modifies One(parent)`child, One(parent)`children, Nodes(parent)`next, Nodes(parent)`prev
    ensures r == if parent != null && item != null && item in old(parent.children) then item else null
    ensures r != null ==> parent.Valid() && r.next == null && r.prev == null
    ensures r != null ==> parent.children == Remove(old(parent.children), IndexOf(old(parent.children), r))
    ensures r == null && parent != null ==> parent.Valid() && parent.children == old(parent.children)
  {
    if parent == null || item == null || (item != parent.child && item.prev == null) {
      NotLinked(parent, item);
      return null;
    }
    ghost var s := parent.children;
    ghost var i := IndexOf(s, item);
    assert LinkedAt(s, i);
    if item != parent.child {
      item.prev.next := item.next;
    }
    if item.next != null {
      item.next.prev := item.prev;
    }
    if item == parent.child {
      parent.child := item.next;
    } else if item.next == null {
      parent.child.prev := item.prev;
    }
    item.prev := null;
    item.next := null;
    parent.children := Remove(s, i);
    forall k | 0 <= k < |s| && k != i
      ensures AroundRemoved(s, i, k)
    {
      assert old(LinkedAt(s, k));
    }
    RemovalLinks(s, i);
    return item;
  }

  method DetachItemFromArray(list: Item?, which: int) returns (r: Item?)
    requires list != null ==> list.Valid()
    modifies One(list)`child, One(list)`children, Nodes(list)`next, Nodes(list)`prev
    ensures list != null ==> list.Valid()
    ensures r == if list != null && 0 <= which < |old(list.children)| then old(list.children)[which] else null
    ensures r != null ==> r.next == null && r.prev == null
    ensures list != null ==>
              list.children == if r != null then Remove(old(list.children), which) else old(list.children)
  {
    if which < 0 {
      return null;
    }
    var item := GetArrayItem(list, which);
    r := DetachItemViaPointer(list, item);
  }

  // ---------------------------------------------------------------- insert

  method InsertItemInArray(list: Item?, which: int, newitem: Item?) returns (ok: bool)
    requires list != null ==> list.Valid()
    requires list != null && newitem != null && 0 <= which < |list.children| ==> newitem != list
    requires list != null && newitem != null && newitem != list && which >= 0 ==> newitem !in list.children
    requires list != null && newitem != null && which >= |list.children| > 0 ==> newitem.next == null
    modifies One(list)`child, One(list)`children, Nodes(list)`next, Nodes(list)`prev
    modifies One(newitem)`next, One(newitem)`prev
    ensures ok <==> which >= 0 && newitem != null && list != null && list != newitem
    ensures list != null ==> list.Valid()
    ensures ok && which < |old(list.children)| ==> list.children == Insert(old(list.children), which, newitem)
    ensures ok && which >= |old(list.children)| ==> list.children == old(list.children) + [newitem]
    ensures !ok && list != null ==> list.children == old(list.children)
  {
    if which < 0 || newitem == null {
      return false;
    }
    var afterInserted := GetArrayItem(list, which);
    if afterInserted == null {
      ok := AddItemToArray(list, newitem);
      return;
    }
    assert LinkedAt(list.children, which);
    if afterInserted != list.child && afterInserted.prev == null {
      return false;
    }
    ghost var s := list.children;
    newitem.next := afterInserted;
    newitem.prev := afterInserted.prev;
    afterInserted.prev := newitem;
    if afterInserted == list.child {
      list.child := newitem;
    } else {
      newitem.prev.next := newitem;
    }
    list.children := Insert(s, which, newitem);
    forall k | 0 <= k < |s|
      ensures AroundInserted(s, which, newitem, k)
    {
      assert old(LinkedAt(s, k));
    }
    InsertionLinks(s, which, newitem);
    ok := true;
  }

  // ---------------------------------------------------------------- replace

  method ReplaceItemViaPointer(parent: Item?, item: Item?, replacement: Item?) returns (ok: bool)
    requires parent != null ==> parent.Valid()
    requires parent != null && parent.child != null && replacement != null && item != null ==>
               item in parent.children && replacement != parent &&
               (replacement != item ==> replacement !in parent.children)
    modifies One(parent)`child, One(parent)`children, Nodes(parent)`next, Nodes(parent)`prev
    modifies One(replacement)`next, One(replacement)`prev
    ensures ok <==> parent != null && old(parent.children) != [] && replacement != null && item != null
    ensures parent != null ==> parent.Valid()
    ensures ok ==> parent.children == old(parent.children)[IndexOf(old(parent.children), item) := replacement]
    ensures ok && replacement != item ==> item.next == null && item.prev == null
    ensures !ok && parent != null ==> parent.children == old(parent.children)
  {
    if parent == null || parent.child == null || replacement == null || item == null {
      return false;
    }
    if replacement == item {
      return true;
    }
    ghost var s := parent.children;
    ghost var i := IndexOf(s, item);
    assert LinkedAt(s, i) && LinkedAt(s, 0);
    replacement.next := item.next;
    replacement.prev := item.prev;
    if replacement.next != null {
      replacement.next.prev := replacement;
    }
    if parent.child == item {
      if parent.child.prev == parent.child {
        replacement.prev := replacement;
      }
      parent.child := replacement;
    } else {
      if replacement.prev != null {
        replacement.prev.next := replacement;
      }
      if replacement.next == null {
        parent.child.prev := replacement;
      }
    }
    item.next := null;
    item.prev := null;
    parent.children := s[i := replacement];
    forall k | 0 <= k < |s| && k != i
      ensures AroundReplaced(s, i, replacement, k)
    {
      assert old(LinkedAt(s, k));
    }
    ReplacementLinks(s, i, replacement);
    ok := true;
  }

  method ReplaceItemInArray(list: Item?, which: int, newitem: Item?) returns (ok: bool)
    requires list != null ==> list.Valid()
    requires list != null && newitem != null && 0 <= which < |list.children| ==>
               newitem != list && (newitem == list.children[which] || newitem !in list.children)
    modifies One(list)`child, One(list)`children, Nodes(list)`next, Nodes(list)`prev
    modifies One(newitem)`next, One(newitem)`prev
    ensures ok <==> list != null && newitem != null && 0 <= which < |old(list.children)|
    ensures list != null ==> list.Valid()
    ensures list != null ==>
              list.children == if ok then old(list.children)[which := newitem] else old(list.children)
  {
    if which < 0 {
      return false;
    }
    var item := GetArrayItem(list, which);
    ghost var s := if list == null then [] else list.children;
    if item != null {
      IndexIsUnique(s, which);
    }
    ok := ReplaceItemViaPointer(list, item, newitem);
  }

  lemma IndexIsUnique(s: seq<Item>, i: nat)
    requires Distinct(s) && i < |s|
    ensures IndexOf(s, s[i]) == i
  {}

  // ---------------------------------------------------------------- one call undoes another

  /** Inserting an item and detaching at the same place gives back the list and the item. */
  method InsertThenDetach(list: Item, which: nat, item: Item) returns (r: Item?)
    requires list.Valid() && item != list && item !in list.children && which <= |list.children|
    requires item.next == null
    modifies list`child, list`children, Nodes(list)`next, Nodes(list)`prev, item`next, item`prev
    ensures r == item && list.Valid() && list.children == old(list.children)
    ensures item.next == null && item.prev == null
  {
    ghost var s := list.children;
    var ok := InsertItemInArray(list, which, item);
    r := DetachItemFromArray(list, which);
    assert Remove(Insert(s, which, item), which) == s;
  }

  /** Moving the first child behind the last rotates the list. */
  method Rotate(list: Item) returns (moved: bool)
    requires list.Valid()
    modifies list`child, list`children, Nodes(list)`next, Nodes(list)`prev
    ensures list.Valid() && moved == (old(list.children) != [])
    ensures moved ==> list.children == old(list.children)[1..] + [old(list.children)[0]]
  {
    var first := DetachItemFromArray(list, 0);
    moved := AddItemToArray(list, first);
  }
}

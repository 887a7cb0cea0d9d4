/** The grammar of RFC 8259 as a relation between an input, the place where a value stands in it
    and the value, written out in character codes; the parser measured against it. */
module JsonGrammar {
  import opened Bytes
  import opened Json
  import opened Numbers
  import opened NumberGrammar
  import opened Strings
  import opened StringGrammar
  import opened ParseSpec

  /** Strict: as in RFC 8259. Otherwise: as the parser takes it, with every byte up to 32 for a
      blank, and the numbers and literals that it admits beyond the standard. */
  predicate Blanks(s: seq<byte>, i: nat, j: nat, strict: bool) {
    i <= j <= |s| && forall k | i <= k < j ::
      if strict then s[k] == 0x20 || s[k] == 0x09 || s[k] == 0x0A || s[k] == 0x0D else s[k] <= 0x20
  }

  predicate Word(s: seq<byte>, o: nat, n: nat, word: seq<byte>) {
    o <= n <= |s| && s[o..n] == word
  }

  ghost predicate StringAt(s: seq<byte>, o: nat, t: cstr, n: nat, strict: bool) {
    o + 1 < n <= |s| && if strict then StrictText(s, o, t, n - 1) else LiteralText(s, o, t, n - 1)
  }

  /** A value from o to n, inside d open containers. */
  ghost predicate ValueAt(s: seq<byte>, o: nat, n: nat, v: Json, d: nat, strict: bool)
    decreases v, 1
  {
    match v
    case Null => Word(s, o, n, [0x6E, 0x75, 0x6C, 0x6C])
    case False => Word(s, o, n, [0x66, 0x61, 0x6C, 0x73, 0x65])
    case True => Word(s, o, n, [0x74, 0x72, 0x75, 0x65])
    case Number(x) => if strict then StrictNumberAt(s, o, n, x) else NumberAt(s, o, n, x)
    case String(t) => StringAt(s, o, t, n, strict)
    case Array(items) =>
      d < 1000 && CharAt(s, o, 0x5B) &&
      if items == [] then ClosedAt(s, o + 1, n, 0x5D, strict)
      else ItemsAt(s, o + 1, n, items, d + 1, strict)
    case Object(members) =>
      d < 1000 && CharAt(s, o, 0x7B) &&
      if members == [] then ClosedAt(s, o + 1, n, 0x7D, strict)
      else MembersAt(s, o + 1, n, members, d + 1, strict)
  }

  /** Blanks and a character right in front of n. */
  predicate ClosedAt(s: seq<byte>, p: nat, n: nat, c: byte, strict: bool) {
    n > 0 && Blanks(s, p, n - 1, strict) && CharAt(s, n - 1, c)
  }

  /** Items between commas, and the closing bracket right in front of n. */
  ghost predicate ItemsAt(s: seq<byte>, p: nat, n: nat, items: seq<Json>, d: nat, strict: bool)
    requires items != []
    decreases items, 2
  {
    exists a: nat, b: nat, q: nat :: ItemAt(s, p, a, b, q, n, items, d, strict)
  }

  /** The first item from a to b, and the comma or the bracket at q. */
  ghost predicate ItemAt(s: seq<byte>, p: nat, a: nat, b: nat, q: nat, n: nat, items: seq<Json>, d: nat, strict: bool)
    requires items != []
    decreases items, 1
  {
    && Blanks(s, p, a, strict) && ValueAt(s, a, b, items[0], d, strict) && Blanks(s, b, q, strict)
    && if |items| == 1 then CharAt(s, q, 0x5D) && n == q + 1
       else CharAt(s, q, 0x2C) && ItemsAt(s, q + 1, n, items[1..], d, strict)
  }

  /** Members between commas, and the closing brace right in front of n. */
  ghost predicate MembersAt(s: seq<byte>, p: nat, n: nat, members: seq<Member>, d: nat, strict: bool)
    requires members != []
    decreases members, 2
  {
    exists b: nat, q: nat :: MemberAt(s, p, b, q, n, members, d, strict)
  }

  /** The first member up to b, and the comma or the brace at q. */
  ghost predicate MemberAt(s: seq<byte>, p: nat, b: nat, q: nat, n: nat, members: seq<Member>, d: nat, strict: bool)
    requires members != []
    decreases members, 1
  {
    && PairAt(s, p, b, members[0], d, strict) && Blanks(s, b, q, strict)
    && if |members| == 1 then CharAt(s, q, 0x7D) && n == q + 1
       else CharAt(s, q, 0x2C) && MembersAt(s, q + 1, n, members[1..], d, strict)
  }

  /** Blanks, a key, a colon, and a value up to b. */
  ghost predicate PairAt(s: seq<byte>, p: nat, b: nat, m: Member, d: nat, strict: bool)
    decreases m, 3
  {
    exists e: nat, c: nat :: KeyAt(s, p, e, c, m.key, strict) && ColonAt(s, c, b, m.value, d, strict)
  }

  /** A colon at c and the value behind it, up to b. */
  ghost predicate ColonAt(s: seq<byte>, c: nat, b: nat, v: Json, d: nat, strict: bool)
    decreases v, 3
  {
    CharAt(s, c, 0x3A) && AfterBlanks(s, c + 1, b, v, d, strict)
  }

  /** Blanks, a key up to e, and blanks up to c. */
  ghost predicate KeyAt(s: seq<byte>, p: nat, e: nat, c: nat, key: cstr, strict: bool) {
    Blanks(s, e, c, strict) && exists a: nat :: Blanks(s, p, a, strict) && StringAt(s, a, key, e, strict)
  }

  /** Blanks and a value up to b. */
  ghost predicate AfterBlanks(s: seq<byte>, p: nat, b: nat, v: Json, d: nat, strict: bool)
    decreases v, 2
  {
    exists g: nat :: Blanks(s, p, g, strict) && ValueAt(s, g, b, v, d, strict)
  }

  // ---------------------------------------------------------------- blanks and words

  lemma {:induction false} PastBlanksIs(s: seq<byte>, p: nat, a: nat)
    requires p <= |s|
    ensures PastBlanks(s, p) == a <==> Blanks(s, p, a, false) && (a < |s| ==> s[a] > 0x20)
    decreases |s| - p
  {
    if p < |s| && s[p] <= 32 {
      PastBlanksIs(s, p + 1, a);
    }
  }

  /** A visible character is found behind blanks, and only there. */
  lemma SkippedTo(s: seq<byte>, p: nat, a: nat)
    requires p <= |s| && a < |s| && s[a] > 0x20
    ensures SkipBlanks(s, p) == a <==> Blanks(s, p, a, false)
  {
    PastBlanksIs(s, p, a);
    PastBlanksIs(s, p, |s|);
  }

  lemma WordIs(s: seq<byte>, o: nat, n: nat, word: seq<byte>)
    ensures Word(s, o, n, word) <==> At(s, o, word) && n == o + |word|
  {
    AtSlice(s, o, word);
  }

  lemma StringIsRead(s: seq<byte>, o: nat, t: cstr, n: nat)
    requires StringAt(s, o, t, n, false)
    ensures CharAt(s, o, 0x22) && o < n <= |s| && ParseString(s, o) == Ok(t, n)
  {
    StringsAreLiterals(s, o, t, n - 1);
  }

  lemma StringStands(s: seq<byte>, o: nat, t: cstr, n: nat)
    requires o < |s| && ParseString(s, o) == Ok(t, n)
    ensures StringAt(s, o, t, n, false) && CharAt(s, o, 0x22)
  {
    StringsAreLiterals(s, o, t, n - 1);
  }

  // ---------------------------------------------------------------- what stands is read

  /** A value starts with a visible character that closes nothing. */
  lemma Visible(s: seq<byte>, o: nat, n: nat, v: Json, d: nat)
    requires ValueAt(s, o, n, v, d, false)
    ensures o < |s| && s[o] > 0x20 && s[o] != 0x5D && s[o] != 0x7D
  {
    match v
    case Null => WordIs(s, o, n, NULL_TEXT);
    case False => WordIs(s, o, n, FALSE_TEXT);
    case True => WordIs(s, o, n, TRUE_TEXT);
    case Number(_) =>
    case String(_) =>
    case Array(_) =>
    case Object(_) =>
  }

  lemma {:induction false} ValueIsRead(s: seq<byte>, o: nat, n: nat, v: Json, d: nat)
    requires o <= |s| && ValueAt(s, o, n, v, d, false)
    ensures ParseValue(s, o, d) == Ok(v, n)
    decreases v, 2
  {
    match v
    case Array(items) => ArrayIsRead(s, o, n, items, d);
    case Object(members) => ObjectIsRead(s, o, n, members, d);
    case _ => ScalarIsRead(s, o, n, v, d);
  }

  lemma ScalarIsRead(s: seq<byte>, o: nat, n: nat, v: Json, d: nat)
    requires o <= |s| && !v.Array? && !v.Object? && ValueAt(s, o, n, v, d, false)
    ensures ParseValue(s, o, d) == Ok(v, n)
  {
    match v
    case Null => WordIs(s, o, n, NULL_TEXT);
    case False => WordIs(s, o, n, FALSE_TEXT);
    case True => WordIs(s, o, n, TRUE_TEXT);
    case Number(x) =>
      NumbersAreRead(s, o, n, x);
      NumberIsValue(s, o, n, x, d);
    case String(t) =>
      StringIsRead(s, o, t, n);
      StringIsValue(s, o, n, t, d);
  }

  lemma NumberIsValue(s: seq<byte>, o: nat, n: nat, x: real, d: nat)
    requires (CharAt(s, o, 0x2D) || DigitAt(s, o)) && ParseNumber(s, o) == Ok(Json.Number(x), n)
    ensures ParseValue(s, o, d) == Ok(Json.Number(x), n)
  {}

  lemma StringIsValue(s: seq<byte>, o: nat, n: nat, t: cstr, d: nat)
    requires CharAt(s, o, 0x22) && ParseString(s, o) == Ok(t, n)
    ensures ParseValue(s, o, d) == Ok(String(t), n)
  {}

  lemma {:induction false} ArrayIsRead(s: seq<byte>, o: nat, n: nat, items: seq<Json>, d: nat)
    requires o <= |s| && ValueAt(s, o, n, Array(items), d, false)
    ensures CharAt(s, o, 0x5B) && ParseArray(s, o, d) == Ok(Array(items), n)
    decreases items, 4
  {
    var p := o + 1;
    if items == [] {
      SkippedTo(s, p, n - 1);
    } else {
      var a: nat, b: nat, q: nat :| ItemAt(s, p, a, b, q, n, items, d + 1, false);
      Visible(s, a, b, items[0], d + 1);
      SkippedTo(s, p, a);
      assert ItemAt(s, a, a, b, q, n, items, d + 1, false);
      ItemsAreRead(s, a, n, items, d + 1);
    }
  }

  lemma {:induction false} ItemsAreRead(s: seq<byte>, p: nat, n: nat, items: seq<Json>, d: nat)
    requires p <= |s| && items != [] && ItemsAt(s, p, n, items, d, false)
    ensures ParseItems(s, p, d) == Ok(items, n)
    decreases items, 3
  {
    var a, b, q, r := FirstItem(s, p, n, items, d);
    ValueIsRead(s, a, b, items[0], d);
    if |items| == 1 {
      LastItem(s, p, a, b, q, items[0], d);
      assert items == [items[0]];
    } else {
      ItemsAreRead(s, r, n, items[1..], d);
      MoreItems(s, p, a, b, q, n, items[0], items[1..], d);
      assert items == [items[0]] + items[1..];
    }
  }

  lemma FirstItem(s: seq<byte>, p: nat, n: nat, items: seq<Json>, d: nat) returns (a: nat, b: nat, q: nat, r: nat)
    requires p <= |s| && items != [] && ItemsAt(s, p, n, items, d, false)
    ensures a <= |s| && b <= q < |s| && r == q + 1 && ValueAt(s, a, b, items[0], d, false)
    ensures SkipBlanks(s, p) == a && SkipBlanks(s, b) == q
    ensures if |items| == 1 then CharAt(s, q, 0x5D) && n == r
            else CharAt(s, q, 0x2C) && ItemsAt(s, r, n, items[1..], d, false)
  {
    a, b, q :| ItemAt(s, p, a, b, q, n, items, d, false);
    r := q + 1;
    Visible(s, a, b, items[0], d);
    SkippedTo(s, p, a);
    SkippedTo(s, b, q);
  }

  lemma LastItem(s: seq<byte>, p: nat, a: nat, b: nat, q: nat, v: Json, d: nat)
    requires p <= |s| && SkipBlanks(s, p) == a && ParseValue(s, a, d) == Ok(v, b)
    requires SkipBlanks(s, b) == q && CharAt(s, q, 0x5D)
    ensures ParseItems(s, p, d) == Ok([v], q + 1)
  {}

  lemma MoreItems(s: seq<byte>, p: nat, a: nat, b: nat, q: nat, n: nat, v: Json, rest: seq<Json>, d: nat)
    requires p <= |s| && SkipBlanks(s, p) == a && ParseValue(s, a, d) == Ok(v, b)
    requires SkipBlanks(s, b) == q && CharAt(s, q, 0x2C) && ParseItems(s, q + 1, d) == Ok(rest, n)
    ensures ParseItems(s, p, d) == Ok([v] + rest, n)
  {}

  lemma {:induction false} ObjectIsRead(s: seq<byte>, o: nat, n: nat, members: seq<Member>, d: nat)
    requires o <= |s| && ValueAt(s, o, n, Object(members), d, false)
    ensures CharAt(s, o, 0x7B) && ParseObject(s, o, d) == Ok(Object(members), n)
    decreases members, 4
  {
    var p := o + 1;
    if members == [] {
      SkippedTo(s, p, n - 1);
    } else {
      var b: nat, q: nat :| MemberAt(s, p, b, q, n, members, d + 1, false);
      var a := PairMoved(s, p, b, members[0], d + 1);
      assert MemberAt(s, a, b, q, n, members, d + 1, false);
      MembersAreRead(s, a, n, members, d + 1);
    }
  }

  /** The blanks in front of a member may be skipped before. */
  lemma PairMoved(s: seq<byte>, p: nat, b: nat, m: Member, d: nat) returns (a: nat)
    requires p <= |s| && PairAt(s, p, b, m, d, false)
    ensures a == SkipBlanks(s, p) && CharAt(s, a, 0x22) && PairAt(s, a, b, m, d, false)
  {
    var e: nat, c: nat :| KeyAt(s, p, e, c, m.key, false) && ColonAt(s, c, b, m.value, d, false);
    a :| Blanks(s, p, a, false) && StringAt(s, a, m.key, e, false);
    SkippedTo(s, p, a);
    assert Blanks(s, a, a, false);
    assert KeyAt(s, a, e, c, m.key, false);
  }

  lemma {:induction false} MembersAreRead(s: seq<byte>, p: nat, n: nat, members: seq<Member>, d: nat)
    requires 0 < p <= |s| && members != [] && MembersAt(s, p, n, members, d, false)
    ensures ParseMembers(s, p, d) == Ok(members, n)
    decreases members, 3
  {
    var b, q, r := FirstMember(s, p, n, members, d);
    MemberIsRead(s, p, b, members[0], d);
    if |members| == 1 {
      LastMember(s, p, b, q, members[0], d);
      assert members == [members[0]];
    } else {
      MembersAreRead(s, r, n, members[1..], d);
      MoreMembers(s, p, b, q, n, members[0], members[1..], d);
      assert members == [members[0]] + members[1..];
    }
  }

  lemma FirstMember(s: seq<byte>, p: nat, n: nat, members: seq<Member>, d: nat) returns (b: nat, q: nat, r: nat)
    requires p <= |s| && members != [] && MembersAt(s, p, n, members, d, false)
    ensures b <= q < |s| && r == q + 1 && PairAt(s, p, b, members[0], d, false) && SkipBlanks(s, b) == q
    ensures if |members| == 1 then CharAt(s, q, 0x7D) && n == r
            else CharAt(s, q, 0x2C) && MembersAt(s, r, n, members[1..], d, false)
  {
    b, q :| MemberAt(s, p, b, q, n, members, d, false);
    r := q + 1;
    SkippedTo(s, b, q);
  }

  lemma LastMember(s: seq<byte>, p: nat, b: nat, q: nat, m: Member, d: nat)
    requires 0 < p <= |s| && ParseMember(s, p, d) == Ok(m, b) && SkipBlanks(s, b) == q && CharAt(s, q, 0x7D)
    ensures ParseMembers(s, p, d) == Ok([m], q + 1)
  {}

  lemma MoreMembers(s: seq<byte>, p: nat, b: nat, q: nat, n: nat, m: Member, rest: seq<Member>, d: nat)
    requires 0 < p <= |s| && ParseMember(s, p, d) == Ok(m, b) && SkipBlanks(s, b) == q && CharAt(s, q, 0x2C)
    requires ParseMembers(s, q + 1, d) == Ok(rest, n)
    ensures ParseMembers(s, p, d) == Ok([m] + rest, n)
  {}

  lemma {:induction false} MemberIsRead(s: seq<byte>, p: nat, b: nat, m: Member, d: nat)
    requires 0 < p <= |s| && PairAt(s, p, b, m, d, false)
    ensures ParseMember(s, p, d) == Ok(m, b)
    decreases m, 4
  {
    var e: nat, c: nat :| KeyAt(s, p, e, c, m.key, false) && ColonAt(s, c, b, m.value, d, false);
    KeyIsRead(s, p, e, c, m.key);
    ColonValueIsRead(s, c, b, m.value, d);
    assert m == Member(m.key, m.value);
  }

  lemma KeyIsRead(s: seq<byte>, p: nat, e: nat, c: nat, key: cstr)
    requires p <= |s| && KeyAt(s, p, e, c, key, false) && CharAt(s, c, 0x3A)
    ensures p < |s| && e <= |s| && ParseString(s, SkipBlanks(s, p)) == Ok(key, e) && SkipBlanks(s, e) == c
  {
    var a: nat :| Blanks(s, p, a, false) && StringAt(s, a, key, e, false);
    SkippedTo(s, p, a);
    StringIsRead(s, a, key, e);
    SkippedTo(s, e, c);
  }

  lemma {:induction false} ColonValueIsRead(s: seq<byte>, c: nat, b: nat, v: Json, d: nat)
    requires ColonAt(s, c, b, v, d, false)
    ensures ParseColonValue(s, c, d) == Ok(v, b)
    decreases v, 3
  {
    var g := ValueBehind(s, c + 1, b, v, d);
    ValueIsRead(s, g, b, v, d);
  }

  lemma ValueBehind(s: seq<byte>, p: nat, b: nat, v: Json, d: nat) returns (g: nat)
    requires p <= |s| && AfterBlanks(s, p, b, v, d, false)
    ensures g <= |s| && SkipBlanks(s, p) == g && ValueAt(s, g, b, v, d, false)
  {
    g :| Blanks(s, p, g, false) && ValueAt(s, g, b, v, d, false);
    Visible(s, g, b, v, d);
    SkippedTo(s, p, g);
  }

  // ---------------------------------------------------------------- what is read stands

  lemma BlanksTo(s: seq<byte>, p: nat, c: byte) returns (a: nat)
    requires p <= |s| && StandsAt(s, SkipBlanks(s, p), c) && c > 0x20
    ensures a == SkipBlanks(s, p) && Blanks(s, p, a, false) && CharAt(s, a, c)
  {
    a := SkipBlanks(s, p);
    SkippedTo(s, p, a);
  }

  /** Where a value is read there is a visible character. */
  lemma ReadIsVisible(s: seq<byte>, o: nat, d: nat)
    requires o <= |s| && ParseValue(s, o, d).Ok?
    ensures o < |s| && s[o] > 0x20
  {}

  lemma ReadNumber(s: seq<byte>, o: nat, n: nat, x: real, d: nat)
    requires o <= |s| && ParseValue(s, o, d) == Ok(Json.Number(x), n)
    ensures (CharAt(s, o, 0x2D) || DigitAt(s, o)) && ParseNumber(s, o) == Ok(Json.Number(x), n)
  {}

  lemma ReadString(s: seq<byte>, o: nat, n: nat, t: cstr, d: nat)
    requires o <= |s| && ParseValue(s, o, d) == Ok(String(t), n)
    ensures o < |s| && ParseString(s, o) == Ok(t, n)
  {}

  lemma {:induction false} ReadValueStands(s: seq<byte>, o: nat, n: nat, v: Json, d: nat)
    requires o <= |s| && ParseValue(s, o, d) == Ok(v, n)
    ensures ValueAt(s, o, n, v, d, false)
    decreases |s| - o, 1
  {
    match v
    case Array(items) => ReadArrayStands(s, o, n, items, d);
    case Object(members) => ReadObjectStands(s, o, n, members, d);
    case _ => ReadScalarStands(s, o, n, v, d);
  }

  lemma ReadScalarStands(s: seq<byte>, o: nat, n: nat, v: Json, d: nat)
    requires o <= |s| && !v.Array? && !v.Object? && ParseValue(s, o, d) == Ok(v, n)
    ensures ValueAt(s, o, n, v, d, false)
  {
    match v
    case Null => WordIs(s, o, n, NULL_TEXT);
    case False => WordIs(s, o, n, FALSE_TEXT);
    case True => WordIs(s, o, n, TRUE_TEXT);
    case Number(x) =>
      ReadNumber(s, o, n, x, d);
      NumbersAreRead(s, o, n, x);
    case String(t) =>
      ReadString(s, o, n, t, d);
      StringStands(s, o, t, n);
  }

  lemma {:induction false} ReadArrayStands(s: seq<byte>, o: nat, n: nat, items: seq<Json>, d: nat)
    requires o < |s| && s[o] == 0x5B && ParseArray(s, o, d) == Ok(Array(items), n)
    ensures ValueAt(s, o, n, Array(items), d, false)
    decreases |s| - o, 0
  {
    var p := o + 1;
    if StandsAt(s, SkipBlanks(s, p), 0x5D) {
      var a := BlanksTo(s, p, 0x5D);
    } else {
      var a := SkipBlanks(s, p);
      ReadItemsStand(s, a, n, items, d + 1);
      FrontBlanks(s, p, a, n, items, d + 1);
    }
  }

  lemma {:induction false} ReadItemsStand(s: seq<byte>, p: nat, n: nat, items: seq<Json>, d: nat)
    requires p <= |s| && ParseItems(s, p, d) == Ok(items, n)
    ensures items != [] && ItemsAt(s, p, n, items, d, false)
    decreases |s| - p, 2
  {
    var a := SkipBlanks(s, p);
    var v, b := ParseValue(s, a, d).value, ParseValue(s, a, d).next;
    ReadIsVisible(s, a, d);
    SkippedTo(s, p, a);
    ReadValueStands(s, a, b, v, d);
    if StandsAt(s, SkipBlanks(s, b), 0x2C) {
      var q := BlanksTo(s, b, 0x2C);
      ReadItemsStand(s, q + 1, n, items[1..], d);
      assert ItemAt(s, p, a, b, q, n, items, d, false);
    } else {
      var q := BlanksTo(s, b, 0x5D);
      assert ItemAt(s, p, a, b, q, n, items, d, false);
    }
  }

  /** More blanks in front of the items. */
  lemma FrontBlanks(s: seq<byte>, p: nat, a: nat, n: nat, items: seq<Json>, d: nat)
    requires p <= |s| && a == SkipBlanks(s, p) && items != [] && ItemsAt(s, a, n, items, d, false)
    ensures ItemsAt(s, p, n, items, d, false)
  {
    var x: nat, b: nat, q: nat :| ItemAt(s, a, x, b, q, n, items, d, false);
    Visible(s, x, b, items[0], d);
    StillBlanks(s, p, a, x);
    assert ItemAt(s, p, x, b, q, n, items, d, false);
  }

  lemma StillBlanks(s: seq<byte>, p: nat, a: nat, x: nat)
    requires p <= |s| && a == SkipBlanks(s, p) && Blanks(s, a, x, false)
    ensures Blanks(s, p, x, false)
  {
    PastBlanksIs(s, p, PastBlanks(s, p));
  }

  lemma {:induction false} ReadObjectStands(s: seq<byte>, o: nat, n: nat, members: seq<Member>, d: nat)
    requires o < |s| && s[o] == 0x7B && ParseObject(s, o, d) == Ok(Object(members), n)
    ensures ValueAt(s, o, n, Object(members), d, false)
    decreases |s| - o, 0
  {
    var p := o + 1;
    if StandsAt(s, SkipBlanks(s, p), 0x7D) {
      var a := BlanksTo(s, p, 0x7D);
    } else {
      var a := SkipBlanks(s, p);
      ReadMembersStand(s, a, n, members, d + 1);
      FrontMemberBlanks(s, p, a, n, members, d + 1);
    }
  }

  lemma {:induction false} ReadMembersStand(s: seq<byte>, p: nat, n: nat, members: seq<Member>, d: nat)
    requires 0 < p <= |s| && ParseMembers(s, p, d) == Ok(members, n)
    ensures members != [] && MembersAt(s, p, n, members, d, false)
    decreases |s| - p, 3
  {
    var m, b, q, r, rest := MembersParts(s, p, n, members, d);
    ReadMemberStands(s, p, b, m, d);
    if rest == [] {
      assert members == [m];
      LastStands(s, p, b, q, n, m, d);
    } else {
      ReadMembersStand(s, r, n, rest, d);
      MoreStand(s, p, b, q, r, n, m, rest, d);
    }
  }

  lemma MembersParts(s: seq<byte>, p: nat, n: nat, members: seq<Member>, d: nat)
    returns (m: Member, b: nat, q: nat, r: nat, rest: seq<Member>)
    requires 0 < p <= |s| && ParseMembers(s, p, d) == Ok(members, n)
    ensures members == [m] + rest && ParseMember(s, p, d) == Ok(m, b)
    ensures p < b <= q < |s| && Blanks(s, b, q, false) && r == q + 1
    ensures if rest == [] then CharAt(s, q, 0x7D) && n == r
            else CharAt(s, q, 0x2C) && ParseMembers(s, r, d) == Ok(rest, n)
  {
    m, b := ParseMember(s, p, d).value, ParseMember(s, p, d).next;
    q := SkipBlanks(s, b);
    SkippedTo(s, b, q);
    r := q + 1;
    if s[q] == 0x2C {
      rest := ParseMembers(s, r, d).value;
      NotEmpty(s, r, d);
    } else {
      rest := [];
    }
  }

  lemma NotEmpty(s: seq<byte>, p: nat, d: nat)
    requires 0 < p <= |s| && ParseMembers(s, p, d).Ok?
    ensures ParseMembers(s, p, d).value != []
  {}

  lemma LastStands(s: seq<byte>, p: nat, b: nat, q: nat, n: nat, m: Member, d: nat)
    requires PairAt(s, p, b, m, d, false) && Blanks(s, b, q, false) && CharAt(s, q, 0x7D) && n == q + 1
    ensures MembersAt(s, p, n, [m], d, false)
  {
    assert MemberAt(s, p, b, q, n, [m], d, false);
  }

  lemma MoreStand(s: seq<byte>, p: nat, b: nat, q: nat, r: nat, n: nat, m: Member, rest: seq<Member>, d: nat)
    requires PairAt(s, p, b, m, d, false) && Blanks(s, b, q, false) && CharAt(s, q, 0x2C)
    requires rest != [] && r == q + 1 && MembersAt(s, r, n, rest, d, false)
    ensures MembersAt(s, p, n, [m] + rest, d, false)
  {
    var members := [m] + rest;
    assert members[0] == m && members[1..] == rest;
    assert MemberAt(s, p, b, q, n, members, d, false);
  }

  lemma {:induction false} ReadMemberStands(s: seq<byte>, p: nat, b: nat, m: Member, d: nat)
    requires 0 < p <= |s| && ParseMember(s, p, d) == Ok(m, b)
    ensures PairAt(s, p, b, m, d, false)
    decreases |s| - p, 2
  {
    var a := SkipBlanks(s, p);
    var e := ParseString(s, a).next;
    StringStands(s, a, m.key, e);
    var c := BlanksTo(s, e, 0x3A);
    KeyStands(s, p, a, e, c, m.key);
    ReadColonStands(s, c, b, m.value, d);
  }

  lemma KeyStands(s: seq<byte>, p: nat, a: nat, e: nat, c: nat, key: cstr)
    requires p <= |s| && SkipBlanks(s, p) == a && CharAt(s, a, 0x22) && StringAt(s, a, key, e, false)
    requires Blanks(s, e, c, false)
    ensures KeyAt(s, p, e, c, key, false)
  {
    SkippedTo(s, p, a);
  }

  lemma {:induction false} ReadColonStands(s: seq<byte>, c: nat, b: nat, v: Json, d: nat)
    requires CharAt(s, c, 0x3A) && ParseColonValue(s, c, d) == Ok(v, b)
    ensures ColonAt(s, c, b, v, d, false)
    decreases |s| - c, 1
  {
    var p := c + 1;
    var g := SkipBlanks(s, p);
    ReadIsVisible(s, g, d);
    SkippedTo(s, p, g);
    ReadValueStands(s, g, b, v, d);
  }

  lemma FrontMemberBlanks(s: seq<byte>, p: nat, a: nat, n: nat, members: seq<Member>, d: nat)
    requires p <= |s| && a == SkipBlanks(s, p) && members != [] && MembersAt(s, a, n, members, d, false)
    ensures MembersAt(s, p, n, members, d, false)
  {
    var b: nat, q: nat :| MemberAt(s, a, b, q, n, members, d, false);
    PairFront(s, p, a, b, members[0], d);
    assert MemberAt(s, p, b, q, n, members, d, false);
  }

  lemma PairFront(s: seq<byte>, p: nat, a: nat, b: nat, m: Member, d: nat)
    requires p <= |s| && a == SkipBlanks(s, p) && PairAt(s, a, b, m, d, false)
    ensures PairAt(s, p, b, m, d, false)
  {
    var e: nat, c: nat :| KeyAt(s, a, e, c, m.key, false) && ColonAt(s, c, b, m.value, d, false);
    var x: nat :| Blanks(s, a, x, false) && StringAt(s, x, m.key, e, false);
    StillBlanks(s, p, a, x);
    assert KeyAt(s, p, e, c, m.key, false);
  }

  // ---------------------------------------------------------------- the theorem

  /** The parser reads a value exactly where one stands, and ends where it ends. */
  lemma ValuesAreRead(s: seq<byte>, o: nat, n: nat, v: Json, d: nat)
    requires o <= |s|
    ensures ParseValue(s, o, d) == Ok(v, n) <==> ValueAt(s, o, n, v, d, false)
  {
    if ParseValue(s, o, d) == Ok(v, n) {
      ReadValueStands(s, o, n, v, d);
    }
    if ValueAt(s, o, n, v, d, false) {
      ValueIsRead(s, o, n, v, d);
    }
  }

  // ---------------------------------------------------------------- texts of the standard

  lemma StrictString(s: seq<byte>, o: nat, t: cstr, n: nat)
    requires StringAt(s, o, t, n, true)
    ensures StringAt(s, o, t, n, false)
  {
    StrictLiteralIsRead(s, o, t, n - 1);
  }

  /** Whatever RFC 8259 admits the parser takes as the same value. */
  lemma {:induction false} StrictIsTaken(s: seq<byte>, o: nat, n: nat, v: Json, d: nat)
    requires ValueAt(s, o, n, v, d, true)
    ensures ValueAt(s, o, n, v, d, false)
    decreases v, 2
  {
    match v
    case String(t) => StrictString(s, o, t, n);
    case Array(items) =>
      if items != [] {
        StrictItems(s, o + 1, n, items, d + 1);
      }
    case Object(members) =>
      if members != [] {
        StrictMembers(s, o + 1, n, members, d + 1);
      }
    case _ =>
  }

  lemma {:induction false} StrictItems(s: seq<byte>, p: nat, n: nat, items: seq<Json>, d: nat)
    requires items != [] && ItemsAt(s, p, n, items, d, true)
    ensures ItemsAt(s, p, n, items, d, false)
    decreases items, 3
  {
    var a: nat, b: nat, q: nat :| ItemAt(s, p, a, b, q, n, items, d, true);
    StrictIsTaken(s, a, b, items[0], d);
    if |items| > 1 {
      StrictItems(s, q + 1, n, items[1..], d);
    }
    assert ItemAt(s, p, a, b, q, n, items, d, false);
  }

  lemma {:induction false} StrictMembers(s: seq<byte>, p: nat, n: nat, members: seq<Member>, d: nat)
    requires members != [] && MembersAt(s, p, n, members, d, true)
    ensures MembersAt(s, p, n, members, d, false)
    decreases members, 3
  {
    var b, q, r := StrictFirst(s, p, n, members, d);
    StrictPair(s, p, b, members[0], d);
    if |members| > 1 {
      StrictMembers(s, r, n, members[1..], d);
    }
    assert MemberAt(s, p, b, q, n, members, d, false);
  }

  lemma StrictFirst(s: seq<byte>, p: nat, n: nat, members: seq<Member>, d: nat) returns (b: nat, q: nat, r: nat)
    requires members != [] && MembersAt(s, p, n, members, d, true)
    ensures PairAt(s, p, b, members[0], d, true) && Blanks(s, b, q, false) && r == q + 1
    ensures if |members| == 1 then CharAt(s, q, 0x7D) && n == r
            else CharAt(s, q, 0x2C) && MembersAt(s, r, n, members[1..], d, true)
  {
    b, q :| MemberAt(s, p, b, q, n, members, d, true);
    r := q + 1;
  }

  lemma {:induction false} StrictPair(s: seq<byte>, p: nat, b: nat, m: Member, d: nat)
    requires PairAt(s, p, b, m, d, true)
    ensures PairAt(s, p, b, m, d, false)
    decreases m, 4
  {
    var e: nat, c: nat :| KeyAt(s, p, e, c, m.key, true) && ColonAt(s, c, b, m.value, d, true);
    StrictKey(s, p, e, c, m.key);
    StrictColon(s, c, b, m.value, d);
  }

  lemma StrictKey(s: seq<byte>, p: nat, e: nat, c: nat, key: cstr)
    requires KeyAt(s, p, e, c, key, true)
    ensures KeyAt(s, p, e, c, key, false)
  {
    var a: nat :| Blanks(s, p, a, true) && StringAt(s, a, key, e, true);
    StrictString(s, a, key, e);
    assert Blanks(s, p, a, false);
  }

  lemma {:induction false} StrictColon(s: seq<byte>, c: nat, b: nat, v: Json, d: nat)
    requires ColonAt(s, c, b, v, d, true)
    ensures ColonAt(s, c, b, v, d, false)
    decreases v, 3
  {
    var g := StrictBehind(s, c + 1, b, v, d);
    StrictIsTaken(s, g, b, v, d);
  }

  lemma StrictBehind(s: seq<byte>, p: nat, b: nat, v: Json, d: nat) returns (g: nat)
    requires AfterBlanks(s, p, b, v, d, true)
    ensures Blanks(s, p, g, false) && ValueAt(s, g, b, v, d, true)
  {
    g :| Blanks(s, p, g, true) && ValueAt(s, g, b, v, d, true);
  }

  // ---------------------------------------------------------------- whole texts

  /** Where a text starts: behind the byte order mark, which counts only with more behind it. */
  function TextStart(s: seq<byte>): nat {
    if |s| > 4 && s[0] == 0xEF && s[1] == 0xBB && s[2] == 0xBF then 3 else 0
  }

  /** A text: blanks and a value up to n. */
  ghost predicate TextAt(s: seq<byte>, n: nat, v: Json, strict: bool) {
    AfterBlanks(s, TextStart(s), n, v, 0, strict)
  }

  lemma BomIs(s: seq<byte>)
    ensures SkipBom(s) == TextStart(s)
  {
    assert BOM[1..][1..] == [0xBF];
    if 4 < |s| {
      AtSlice(s, 0, BOM);
    }
  }

  /** The parser takes an input exactly when it is a text, and returns its value. */
  lemma TextsAreRead(s: seq<byte>, n: nat, v: Json)
    ensures ParseText(s, false) == Ok(v, n) <==> TextAt(s, n, v, false)
  {
    BomIs(s);
    var p := TextStart(s);
    var o := SkipBlanks(s, p);
    ValuesAreRead(s, o, n, v, 0);
    if ParseText(s, false) == Ok(v, n) {
      ReadIsVisible(s, o, 0);
      SkippedTo(s, p, o);
    }
    if TextAt(s, n, v, false) {
      var g := ValueBehind(s, p, n, v, 0);
    }
  }

  /** With the terminator demanded: exactly when nothing but blanks is behind the value and the
      last of them is the terminator, which is where the parse ends. */
  lemma TerminatedTextsAreRead(s: seq<byte>, q: nat, v: Json)
    ensures ParseText(s, true) == Ok(v, q) <==>
            |s| > 0 && q == |s| - 1 && s[q] == 0 && exists n: nat :: TextAt(s, n, v, false) && Blanks(s, n, q, false)
  {
    if |s| > 0 && q == |s| - 1 && s[q] == 0 {
      forall n: nat | TextAt(s, n, v, false) && Blanks(s, n, q, false)
        ensures ParseText(s, true) == Ok(v, q)
      {
        TextsAreRead(s, n, v);
        PastBlanksIs(s, n, |s|);
      }
    }
    if ParseText(s, true) == Ok(v, q) {
      var n := ParseText(s, false).next;
      TextsAreRead(s, n, v);
      PastBlanksIs(s, n, PastBlanks(s, n));
    }
  }

  /** Every text of RFC 8259 within the nesting limit is read as its value. */
  lemma StandardTextsAreRead(s: seq<byte>, n: nat, v: Json)
    requires TextAt(s, n, v, true)
    ensures ParseText(s, false) == Ok(v, n)
  {
    var g := StrictBehind(s, TextStart(s), n, v, 0);
    StrictIsTaken(s, g, n, v, 0);
    TextsAreRead(s, n, v);
  }
}

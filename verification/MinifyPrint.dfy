/** When minifying formatted text gives the compact text. */
module MinifyPrint {
  import opened Bytes
  import opened Json
  import opened Numbers
  import opened Strings
  import opened Render
  import opened Minify
  import opened RoundTrip

  /** The literal of t ends in an escaped backslash, in front of the closing quote. */
  predicate EndsInBackslash(t: cstr) {
    t != [] && t[|t| - 1] == BACKSLASH
  }

  /** No key and no string value ends in a backslash. */
  predicate Clean(v: Json)
    decreases v
  {
    match v
    case String(t) => !EndsInBackslash(t)
    case Array(items) => CleanItems(items)
    case Object(members) => CleanMembers(members)
    case _ => true
  }

  predicate CleanItems(items: seq<Json>)
    decreases items
  {
    items == [] || (Clean(items[0]) && CleanItems(items[1..]))
  }

  predicate CleanMembers(members: seq<Member>)
    decreases members
  {
    members == []
    || (!EndsInBackslash(members[0].key) && Clean(members[0].value) && CleanMembers(members[1..]))
  }

  /** The same, but a string that is the very last value, at the end of the last array
      of the last array and so on, may end in a backslash. */
  predicate CleanBeforeEnd(v: Json)
    decreases v
  {
    match v
    case String(_) => true
    case Array(items) => CleanBeforeEndItems(items)
    case _ => Clean(v)
  }

  predicate CleanBeforeEndItems(items: seq<Json>)
    decreases items
  {
    items == []
    || (if |items| == 1 then CleanBeforeEnd(items[0]) else Clean(items[0]) && CleanBeforeEndItems(items[1..]))
  }

  lemma {:induction false} CleanIsCleanBeforeEnd(v: Json)
    requires Clean(v)
    ensures CleanBeforeEnd(v)
    decreases v, 0
  {
    if v.Array? {
      CleanItemsBeforeEnd(v.items);
    }
  }

  lemma {:induction false} CleanItemsBeforeEnd(items: seq<Json>)
    requires CleanItems(items)
    ensures CleanBeforeEndItems(items)
    decreases items, 1
  {
    if items != [] {
      CleanIsCleanBeforeEnd(items[0]);
      CleanItemsBeforeEnd(items[1..]);
    }
  }

  // ---------------------------------------------------------------- plain characters

  /** Text that the minifier copies outside a string. */
  predicate Plain(t: cstr) {
    forall i :: 0 <= i < |t| ==> !IsBlank(t[i]) && t[i] != SLASH && t[i] != QUOTE
  }

  lemma {:induction false} PlainIsKept(t: cstr, rest: cstr)
    requires Plain(t)
    ensures Minified(t + rest) == t + Minified(rest)
    decreases |t|
  {
    if t == [] {
      assert t + rest == rest && t + Minified(rest) == Minified(rest);
    } else {
      assert (t + rest)[1..] == t[1..] + rest;
      PlainIsKept(t[1..], rest);
      assert t == [t[0]] + t[1..];
      Assoc([t[0]], t[1..], Minified(rest));
    }
  }

  predicate BlankText(t: cstr) {
    forall i :: 0 <= i < |t| ==> IsBlank(t[i])
  }

  lemma {:induction false} BlankIsDropped(t: cstr, rest: cstr)
    requires BlankText(t)
    ensures Minified(t + rest) == Minified(rest)
    decreases |t|
  {
    if t == [] {
      assert t + rest == rest;
    } else {
      assert (t + rest)[1..] == t[1..] + rest;
      BlankIsDropped(t[1..], rest);
    }
  }

  lemma {:induction false} TabsAreBlankText(n: nat)
    ensures BlankText(Tabs(n))
  {
    if n > 0 {
      TabsAreBlankText(n - 1);
    }
  }

  /** One plain character, outside and inside a string. */
  lemma OneChar(c: cchar, rest: cstr)
    ensures !IsBlank(c) && c != SLASH && c != QUOTE ==> Minified([c] + rest) == [c] + Minified(rest)
    ensures IsBlank(c) ==> Minified([c] + rest) == Minified(rest)
    ensures c != QUOTE && c != BACKSLASH ==> InString([c] + rest) == [c] + InString(rest)
    ensures Minified([QUOTE] + rest) == [QUOTE] + InString(rest)
    ensures InString([QUOTE] + rest) == [QUOTE] + Minified(rest)
  {
    assert ([c] + rest)[1..] == rest && ([QUOTE] + rest)[1..] == rest;
  }

  // ---------------------------------------------------------------- literals

  /** The minifier's state behind a literal: still inside when it ends in a backslash. */
  function Behind(open: bool, rest: cstr): cstr {
    if open then InString(rest) else Minified(rest)
  }

  lemma {:induction false} LiteralBody(t: cstr, rest: cstr)
    ensures InString(Escape(t) + ([QUOTE] + rest)) == Escape(t) + ([QUOTE] + Behind(EndsInBackslash(t), rest))
    decreases |t|
  {
    if t == [] {
      OneChar(QUOTE, rest);
      assert [] + ([QUOTE] + rest) == [QUOTE] + rest;
      assert [] + ([QUOTE] + Minified(rest)) == [QUOTE] + Minified(rest);
    } else {
      var c, u := EscapeChar(t[0]), Escape(t[1..]);
      Assoc(c, u, [QUOTE] + rest);
      Assoc(c, u, [QUOTE] + Behind(EndsInBackslash(t), rest));
      if t[0] == BACKSLASH && |t| == 1 {
        LoneBackslash(rest);
      } else {
        NextIsNoQuote(t, rest);
        CharacterBody(t[0], u + ([QUOTE] + rest));
        LiteralBody(t[1..], rest);
      }
    }
  }

  /** A literal that is about to end in a backslash: the closing quote looks escaped. */
  lemma LoneBackslash(rest: cstr)
    ensures InString([BACKSLASH, BACKSLASH] + ([] + ([QUOTE] + rest)))
            == [BACKSLASH, BACKSLASH] + ([] + ([QUOTE] + InString(rest)))
  {
    var s := [BACKSLASH, BACKSLASH] + ([] + ([QUOTE] + rest));
    assert s[1..] == [BACKSLASH, QUOTE] + rest;
    assert ([BACKSLASH, QUOTE] + rest)[2..] == rest;
    assert [BACKSLASH] + ([BACKSLASH, QUOTE] + InString(rest))
        == [BACKSLASH, BACKSLASH] + ([] + ([QUOTE] + InString(rest)));
  }

  /** Behind an escaped backslash no quote follows, unless the literal ends there. */
  lemma NextIsNoQuote(t: cstr, rest: cstr)
    requires |t| > 1 || (|t| == 1 && t[0] != BACKSLASH)
    ensures t[0] == BACKSLASH ==> (Escape(t[1..]) + ([QUOTE] + rest))[0] != QUOTE
  {}

  lemma CharacterBody(c: cchar, rest: cstr)
    requires c == BACKSLASH ==> rest != [] && rest[0] != QUOTE
    ensures InString(EscapeChar(c) + rest) == EscapeChar(c) + InString(rest)
  {
    if !NeedsEscape(c) {
      OneChar(c, rest);
    } else if ShortEscape(c).Some? {
      TwoCharBody(ShortEscape(c).value, rest);
    } else {
      HexEscape(c);
      SixCharBody(EscapeChar(c), rest);
    }
  }

  lemma HexEscape(c: cchar)
    requires NeedsEscape(c) && ShortEscape(c).None?
    ensures |EscapeChar(c)| == 6 && EscapeChar(c)[0] == BACKSLASH
    ensures forall i :: 1 <= i < 6 ==> EscapeChar(c)[i] != QUOTE && EscapeChar(c)[i] != BACKSLASH
  {
    HexLetters(c);
  }

  lemma TwoCharBody(c: cchar, rest: cstr)
    requires c == BACKSLASH ==> rest != [] && rest[0] != QUOTE
    ensures InString([BACKSLASH, c] + rest) == [BACKSLASH, c] + InString(rest)
  {
    if c == QUOTE {
      assert ([BACKSLASH, QUOTE] + rest)[2..] == rest;
    } else {
      Unescaping([c] + rest);
      NotQuote(c, rest);
      BehindBackslash(c, rest);
      BehindBackslash(c, InString(rest));
    }
  }

  lemma NotQuote(c: cchar, rest: cstr)
    requires c != QUOTE && (c == BACKSLASH ==> rest != [] && rest[0] != QUOTE)
    ensures InString([c] + rest) == [c] + InString(rest)
  {
    if c == BACKSLASH {
      Unescaping(rest);
    } else {
      OneChar(c, rest);
    }
  }

  lemma BehindBackslash(c: cchar, rest: cstr)
    ensures [BACKSLASH, c] + rest == [BACKSLASH] + ([c] + rest)
  {}

  /** A backslash that is not in front of a quote is copied alone. */
  lemma Unescaping(rest: cstr)
    requires rest != [] && rest[0] != QUOTE
    ensures InString([BACKSLASH] + rest) == [BACKSLASH] + InString(rest)
  {
    assert ([BACKSLASH] + rest)[1..] == rest;
  }

  lemma SixCharBody(e: cstr, rest: cstr)
    requires |e| == 6 && e[0] == BACKSLASH
    requires forall i :: 1 <= i < 6 ==> e[i] != QUOTE && e[i] != BACKSLASH
    ensures InString(e + rest) == e + InString(rest)
  {
    var s := e + rest;
    assert s[1..] == e[1..] + rest;
    UnescapedBody(e[1..], rest);
    assert e == [BACKSLASH] + e[1..];
    Assoc([BACKSLASH], e[1..], InString(rest));
  }

  lemma {:induction false} UnescapedBody(t: cstr, rest: cstr)
    requires forall i :: 0 <= i < |t| ==> t[i] != QUOTE && t[i] != BACKSLASH
    ensures InString(t + rest) == t + InString(rest)
    decreases |t|
  {
    if t == [] {
      assert t + rest == rest && t + InString(rest) == InString(rest);
    } else {
      assert t + rest == [t[0]] + (t[1..] + rest);
      OneChar(t[0], t[1..] + rest);
      UnescapedBody(t[1..], rest);
      assert t == [t[0]] + t[1..];
      Assoc([t[0]], t[1..], InString(rest));
    }
  }

  lemma LiteralMinified(t: cstr, rest: cstr)
    ensures Minified(Quoted(t) + rest) == Quoted(t) + Behind(EndsInBackslash(t), rest)
  {
    LiteralParts(t, rest);
    LiteralParts(t, Behind(EndsInBackslash(t), rest));
    OneChar(QUOTE, Escape(t) + ([QUOTE] + rest));
    LiteralBody(t, rest);
  }

  lemma LiteralParts(t: cstr, rest: cstr)
    ensures Quoted(t) + rest == [QUOTE] + (Escape(t) + ([QUOTE] + rest))
  {
    Assoc([QUOTE] + Escape(t), [QUOTE], rest);
    Assoc([QUOTE], Escape(t), [QUOTE] + rest);
  }

  // ---------------------------------------------------------------- values

  /** The texts part at some position that both have. */
  predicate Differs(a: cstr, b: cstr) {
    exists i :: 0 <= i < |a| && i < |b| && a[i] != b[i]
  }

  lemma DiffersAt(a: cstr, b: cstr, i: nat)
    requires i < |a| && i < |b| && a[i] != b[i]
    ensures Differs(a, b)
  {}

  lemma DiffersBehind(x: cstr, a: cstr, b: cstr)
    requires Differs(a, b)
    ensures Differs(x + a, x + b)
  {
    var i :| 0 <= i < |a| && i < |b| && a[i] != b[i];
    assert (x + a)[|x| + i] == a[i] && (x + b)[|x| + i] == b[i];
  }

  lemma DiffersBefore(a: cstr, b: cstr, y: cstr)
    requires Differs(a, b)
    ensures Differs(a, b + y)
  {
    var i :| 0 <= i < |a| && i < |b| && a[i] != b[i];
    assert (b + y)[i] == b[i];
  }

  /** How m, minified formatted text, compares to the compact text c in front of rest. */
  predicate Fits(clean: bool, cleanBeforeEnd: bool, m: cstr, c: cstr, rest: cstr) {
    && (clean ==> m == c + Minified(rest))
    && (!clean && cleanBeforeEnd ==> m == c + InString(rest))
    && (!cleanBeforeEnd ==> Differs(m, c))
  }

  lemma FitsBehind(x: cstr, clean: bool, cleanBeforeEnd: bool, m: cstr, c: cstr, rest: cstr)
    requires Fits(clean, cleanBeforeEnd, m, c, rest)
    ensures Fits(clean, cleanBeforeEnd, x + m, x + c, rest)
  {
    Assoc(x, c, Minified(rest));
    Assoc(x, c, InString(rest));
    if !cleanBeforeEnd {
      DiffersBehind(x, m, c);
    }
  }

  /** A plain closing character behind the compact text. */
  lemma FitsClose(clean: bool, cleanBeforeEnd: bool, m: cstr, c: cstr, close: cchar, rest: cstr)
    requires Fits(clean, cleanBeforeEnd, m, c, [close] + rest)
    requires close > 32 && close != SLASH && close != QUOTE && close != BACKSLASH
    ensures Fits(clean, cleanBeforeEnd, m, c + [close], rest)
  {
    OneChar(close, rest);
    Assoc(c, [close], Minified(rest));
    Assoc(c, [close], InString(rest));
    if !cleanBeforeEnd {
      DiffersBefore(m, c, [close]);
    }
  }

  lemma ScalarIsPlain(v: Json, fmt: bool, k: nat)
    requires v.Null? || v.False? || v.True? || v.Number?
    ensures Plain(Text(v, fmt, k)) && Text(v, fmt, k) == Text(v, false, 0)
  {}

  lemma {:induction false} ValueMinified(v: Json, k: nat, j: nat, rest: cstr)
    ensures Fits(Clean(v), CleanBeforeEnd(v), Minified(Text(v, true, k) + rest), Text(v, false, j), rest)
    decreases v, 2
  {
    match v
    case String(t) => LiteralMinified(t, rest);
    case Array(_) => ArrayMinified(v, k, j, rest);
    case Object(_) => ObjectMinified(v, k, j, rest);
    case _ =>
      ScalarIsPlain(v, true, k);
      ScalarIsPlain(v, false, j);
      PlainIsKept(Text(v, true, k), rest);
  }

  lemma {:induction false} ArrayMinified(v: Json, k: nat, j: nat, rest: cstr)
    requires v.Array?
    ensures Fits(Clean(v), CleanBeforeEnd(v), Minified(Text(v, true, k) + rest), Text(v, false, j), rest)
    decreases v, 1
  {
    var f, c := ItemsText(v.items, true, k + 1), ItemsText(v.items, false, j + 1);
    var on := f + ([BRACKET_CLOSE] + rest);
    Assoc([BRACKET_OPEN], f + [BRACKET_CLOSE], rest);
    Assoc(f, [BRACKET_CLOSE], rest);
    OneChar(BRACKET_OPEN, on);
    if v.items == [] {
      assert on == [BRACKET_CLOSE] + rest && c + Minified(on) == Minified(on);
    } else {
      ItemsMinified(v.items, k + 1, j + 1, [BRACKET_CLOSE] + rest);
    }
    FitsClose(CleanItems(v.items), CleanBeforeEndItems(v.items), Minified(on), c, BRACKET_CLOSE, rest);
    FitsBehind([BRACKET_OPEN], CleanItems(v.items), CleanBeforeEndItems(v.items), Minified(on),
               c + [BRACKET_CLOSE], rest);
  }

  lemma {:induction false} ItemsMinified(items: seq<Json>, k: nat, j: nat, rest: cstr)
    requires items != []
    ensures Fits(CleanItems(items), CleanBeforeEndItems(items),
                 Minified(ItemsText(items, true, k) + rest), ItemsText(items, false, j), rest)
    decreases items, 1
  {
    CleanItemsUnfold(items);
    if |items| == 1 {
      LastItemParts(items, k, j, rest);
      ValueMinified(items[0], k, j, rest);
    } else {
      MoreItemsMinified(items, k, j, rest);
    }
  }

  lemma LastItemParts(items: seq<Json>, k: nat, j: nat, rest: cstr)
    requires |items| == 1
    ensures ItemsText(items, true, k) + rest == Text(items[0], true, k) + rest
    ensures ItemsText(items, false, j) == Text(items[0], false, j)
  {
    ItemsTextParts(items, true, k, rest);
    ItemsTextParts(items, false, j, []);
  }

  lemma {:induction false} MoreItemsMinified(items: seq<Json>, k: nat, j: nat, rest: cstr)
    requires |items| > 1
    ensures Fits(CleanItems(items), CleanBeforeEndItems(items),
                 Minified(ItemsText(items, true, k) + rest), ItemsText(items, false, j), rest)
    decreases items, 0
  {
    var v, others := items[0], items[1..];
    var on := ItemsText(others, true, k) + rest;
    MoreItemsParts(items, k, j, rest);
    CleanItemsUnfold(items);
    CommaMinified(on);
    ValueMinified(v, k, j, Comma(true, true) + on);
    ItemsMinified(others, k, j, rest);
    MoreItemsFit(v, others, Minified(Text(v, true, k) + (Comma(true, true) + on)), Text(v, false, j),
                 Minified(on), ItemsText(others, false, j), j, rest, Comma(true, true) + on);
  }

  lemma MoreItemsParts(items: seq<Json>, k: nat, j: nat, rest: cstr)
    requires |items| > 1
    ensures ItemsText(items, true, k) + rest
            == Text(items[0], true, k) + (Comma(true, true) + (ItemsText(items[1..], true, k) + rest))
    ensures ItemsText(items, false, j) == Text(items[0], false, j) + ([COMMA] + ItemsText(items[1..], false, j))
  {
    ItemsTextParts(items, true, k, rest);
    ItemsTextParts(items, false, j, []);
    assert Comma(false, true) == [COMMA];
  }

  lemma ItemsTextParts(items: seq<Json>, fmt: bool, k: nat, rest: cstr)
    requires items != []
    ensures ItemsText(items, fmt, k) + rest
            == Text(items[0], fmt, k) + (Comma(fmt, |items| > 1) + (ItemsText(items[1..], fmt, k) + rest))
    ensures |items| == 1 ==> ItemsText(items, fmt, k) == Text(items[0], fmt, k)
    ensures |items| > 1 ==>
              ItemsText(items, fmt, k) == Text(items[0], fmt, k) + (Comma(fmt, true) + ItemsText(items[1..], fmt, k))
  {
    ItemsParts(Text(items[0], fmt, k), Comma(fmt, |items| > 1), ItemsText(items[1..], fmt, k), rest);
    Assoc(Text(items[0], fmt, k), Comma(fmt, |items| > 1), ItemsText(items[1..], fmt, k));
  }

  lemma CleanItemsUnfold(items: seq<Json>)
    requires items != []
    ensures CleanItems(items) == (Clean(items[0]) && CleanItems(items[1..]))
    ensures |items| == 1 ==>
              CleanItems(items) == Clean(items[0]) && CleanBeforeEndItems(items) == CleanBeforeEnd(items[0])
    ensures |items| > 1 ==> CleanBeforeEndItems(items) == (Clean(items[0]) && CleanBeforeEndItems(items[1..]))
  {
    if |items| == 1 {
      assert items[1..] == [];
    }
  }

  /** The formatted separator, read outside and inside a string. */
  lemma CommaMinified(rest: cstr)
    ensures Minified(Comma(true, true) + rest) == [COMMA] + Minified(rest)
    ensures InString(Comma(true, true) + rest) == [COMMA] + ([SPACE] + InString(rest))
  {
    Assoc([COMMA], [SPACE], rest);
    OneChar(COMMA, [SPACE] + rest);
    OneChar(SPACE, rest);
  }

  lemma MoreItemsFit(v: Json, others: seq<Json>, m: cstr, c: cstr, m': cstr, c': cstr, j: nat, rest: cstr, on: cstr)
    requires others != [] && c' == ItemsText(others, false, j)
    requires Fits(Clean(v), CleanBeforeEnd(v), m, c, on)
    requires Fits(CleanItems(others), CleanBeforeEndItems(others), m', c', rest)
    requires Minified(on) == [COMMA] + m'
    requires exists y :: InString(on) == [COMMA] + ([SPACE] + y)
    ensures Fits(Clean(v) && CleanItems(others), Clean(v) && CleanBeforeEndItems(others),
                 m, c + ([COMMA] + c'), rest)
  {
    if Clean(v) {
      FitsBehind([COMMA], CleanItems(others), CleanBeforeEndItems(others), m', c', rest);
      FitsBehind(c, CleanItems(others), CleanBeforeEndItems(others), [COMMA] + m', [COMMA] + c', rest);
    } else if CleanBeforeEnd(v) {
      FirstCharacter(others[0], false, j);
      DiffersAt(m, c + ([COMMA] + c'), |c| + 1);
    } else {
      DiffersBefore(m, c, [COMMA] + c');
    }
  }

  // ---------------------------------------------------------------- objects

  lemma {:induction false} ObjectMinified(v: Json, k: nat, j: nat, rest: cstr)
    requires v.Object?
    ensures Fits(Clean(v), Clean(v), Minified(Text(v, true, k) + rest), Text(v, false, j), rest)
    decreases v, 1
  {
    var tabs := Indent(true, k);
    var on := MembersText(v.members, true, k + 1) + (tabs + ([BRACE_CLOSE] + rest));
    var c := MembersText(v.members, false, j + 1) + [BRACE_CLOSE];
    TabsAreBlankText(k);
    ObjectTextParts(v, k, j, rest);
    OneChar(BRACE_OPEN, [NEWLINE] + on);
    OneChar(NEWLINE, on);
    MembersMinified(v.members, k + 1, j + 1, tabs, rest);
    FitsBehind([BRACE_OPEN], Clean(v), Clean(v), Minified(on), c, rest);
  }

  lemma ObjectTextParts(v: Json, k: nat, j: nat, rest: cstr)
    requires v.Object?
    ensures Text(v, true, k) + rest
            == [BRACE_OPEN] + ([NEWLINE] + (MembersText(v.members, true, k + 1)
                                            + (Indent(true, k) + ([BRACE_CLOSE] + rest))))
    ensures Text(v, false, j) == [BRACE_OPEN] + (MembersText(v.members, false, j + 1) + [BRACE_CLOSE])
  {
    var f, tabs := MembersText(v.members, true, k + 1), Indent(true, k);
    Assoc(Open(true), f + (tabs + [BRACE_CLOSE]), rest);
    Assoc(f, tabs + [BRACE_CLOSE], rest);
    Assoc(tabs, [BRACE_CLOSE], rest);
    Assoc([BRACE_OPEN], [NEWLINE], f + (tabs + ([BRACE_CLOSE] + rest)));
    assert [] + [BRACE_CLOSE] == [BRACE_CLOSE] && [BRACE_OPEN] + [] == [BRACE_OPEN];
  }

  /** The end of an object: blanks go, the brace stays. */
  lemma BraceMinified(tabs: cstr, rest: cstr)
    requires BlankText(tabs)
    ensures Minified(tabs + ([BRACE_CLOSE] + rest)) == [BRACE_CLOSE] + Minified(rest)
  {
    BlankIsDropped(tabs, [BRACE_CLOSE] + rest);
    OneChar(BRACE_CLOSE, rest);
  }

  lemma {:induction false} MembersMinified(members: seq<Member>, k: nat, j: nat, tabs: cstr, rest: cstr)
    requires BlankText(tabs)
    ensures Fits(CleanMembers(members), CleanMembers(members),
                 Minified(MembersText(members, true, k) + (tabs + ([BRACE_CLOSE] + rest))),
                 MembersText(members, false, j) + [BRACE_CLOSE], rest)
    decreases members, 4
  {
    var close := tabs + ([BRACE_CLOSE] + rest);
    if members == [] {
      BraceMinified(tabs, rest);
      assert [] + close == close && [] + [BRACE_CLOSE] == [BRACE_CLOSE];
    } else {
      MembersParts(members, true, k, close);
      MembersParts(members, false, j, [BRACE_CLOSE]);
      TabsAreBlankText(k);
      BlankIsDropped(Indent(true, k), FromKey(members, true, k, close));
      assert [] + FromKey(members, false, j, [BRACE_CLOSE]) == FromKey(members, false, j, [BRACE_CLOSE]);
      KeyMinified(members, k, j, tabs, rest);
    }
  }

  lemma {:induction false} KeyMinified(members: seq<Member>, k: nat, j: nat, tabs: cstr, rest: cstr)
    requires members != [] && BlankText(tabs)
    ensures Fits(CleanMembers(members), CleanMembers(members),
                 Minified(FromKey(members, true, k, tabs + ([BRACE_CLOSE] + rest))),
                 FromKey(members, false, j, [BRACE_CLOSE]), rest)
    decreases members, 3
  {
    var key := members[0].key;
    var f := FromValue(members, true, k, tabs + ([BRACE_CLOSE] + rest));
    var c := FromValue(members, false, j, [BRACE_CLOSE]);
    LiteralMinified(key, Colon(true) + f);
    ColonMinified(f);
    assert Colon(false) == [COLON];
    if EndsInBackslash(key) {
      FirstCharacter(members[0].value, false, j);
      DiffersAt([COLON] + ([TAB] + InString(f)), [COLON] + c, 1);
      DiffersBehind(Quoted(key), [COLON] + ([TAB] + InString(f)), [COLON] + c);
    } else {
      MemberValueMinified(members, k, j, tabs, rest);
      FitsBehind([COLON], CleanMembers(members), CleanMembers(members), Minified(f), c, rest);
      FitsBehind(Quoted(key), CleanMembers(members), CleanMembers(members), [COLON] + Minified(f), [COLON] + c, rest);
    }
  }

  lemma ColonMinified(rest: cstr)
    ensures Minified(Colon(true) + rest) == [COLON] + Minified(rest)
    ensures InString(Colon(true) + rest) == [COLON] + ([TAB] + InString(rest))
  {
    Assoc([COLON], [TAB], rest);
    OneChar(COLON, [TAB] + rest);
    OneChar(TAB, rest);
  }

  /** A member whose key is harmless. */
  lemma {:induction false} MemberValueMinified(members: seq<Member>, k: nat, j: nat, tabs: cstr, rest: cstr)
    requires members != [] && BlankText(tabs) && !EndsInBackslash(members[0].key)
    ensures Fits(CleanMembers(members), CleanMembers(members),
                 Minified(FromValue(members, true, k, tabs + ([BRACE_CLOSE] + rest))),
                 FromValue(members, false, j, [BRACE_CLOSE]), rest)
    decreases members, 2
  {
    var v := members[0].value;
    var f := FromEnd(members, true, k, tabs + ([BRACE_CLOSE] + rest));
    var c := FromEnd(members, false, j, [BRACE_CLOSE]);
    var m := Minified(Text(v, true, k) + f);
    var compact := Text(v, false, j);
    ValueMinified(v, k, j, f);
    if Clean(v) {
      MemberEndMinified(members, k, j, tabs, rest);
      FitsBehind(compact, CleanMembers(members), CleanMembers(members), Minified(f), c, rest);
    } else if CleanBeforeEnd(v) {
      OpenMemberEnd(members, k, j, tabs, rest);
      DiffersBehind(compact, InString(f), c);
    } else {
      DiffersBefore(m, compact, c);
    }
  }

  /** Behind a string left open, the line break is kept that compact text does not have. */
  lemma OpenMemberEnd(members: seq<Member>, k: nat, j: nat, tabs: cstr, rest: cstr)
    requires members != []
    ensures Differs(InString(FromEnd(members, true, k, tabs + ([BRACE_CLOSE] + rest))),
                    FromEnd(members, false, j, [BRACE_CLOSE]))
  {
    if |members| == 1 {
      OpenLastEnd(members, k, j, tabs + ([BRACE_CLOSE] + rest));
    } else {
      OpenNextEnd(members, k, j, tabs + ([BRACE_CLOSE] + rest));
    }
  }

  lemma OpenLastEnd(members: seq<Member>, k: nat, j: nat, close: cstr)
    requires |members| == 1
    ensures Differs(InString(FromEnd(members, true, k, close)), FromEnd(members, false, j, [BRACE_CLOSE]))
  {
    assert members[1..] == [] && MemberEnd(true, false) == [NEWLINE];
    assert [] + close == close;
    OneChar(NEWLINE, close);
    assert FromEnd(members, true, k, close) == [NEWLINE] + close;
    assert FromEnd(members, false, j, [BRACE_CLOSE]) == [BRACE_CLOSE];
    DiffersAt([NEWLINE] + InString(close), [BRACE_CLOSE], 0);
  }

  lemma OpenNextEnd(members: seq<Member>, k: nat, j: nat, close: cstr)
    requires |members| > 1
    ensures Differs(InString(FromEnd(members, true, k, close)), FromEnd(members, false, j, [BRACE_CLOSE]))
  {
    MembersParts(members[1..], false, j, [BRACE_CLOSE]);
    OpenSeparator(MembersText(members[1..], true, k) + close, MembersText(members[1..], false, j) + [BRACE_CLOSE]);
  }

  lemma OpenSeparator(on: cstr, c: cstr)
    requires c != [] && c[0] != NEWLINE
    ensures Differs(InString(MemberEnd(true, true) + on), MemberEnd(false, true) + c)
  {
    Assoc([COMMA], [NEWLINE], on);
    OneChar(COMMA, [NEWLINE] + on);
    OneChar(NEWLINE, on);
    DiffersAt([COMMA] + ([NEWLINE] + InString(on)), [COMMA] + c, 1);
  }

  lemma {:induction false} MemberEndMinified(members: seq<Member>, k: nat, j: nat, tabs: cstr, rest: cstr)
    requires members != [] && BlankText(tabs)
    ensures Fits(CleanMembers(members[1..]), CleanMembers(members[1..]),
                 Minified(FromEnd(members, true, k, tabs + ([BRACE_CLOSE] + rest))),
                 FromEnd(members, false, j, [BRACE_CLOSE]), rest)
    decreases members, 1
  {
    var others := members[1..];
    var on := MembersText(others, true, k) + (tabs + ([BRACE_CLOSE] + rest));
    var c := MembersText(others, false, j) + [BRACE_CLOSE];
    MembersMinified(others, k, j, tabs, rest);
    OneChar(NEWLINE, on);
    if |members| == 1 {
      assert MemberEnd(true, false) == [NEWLINE] && MemberEnd(false, false) + c == c;
    } else {
      Assoc([COMMA], [NEWLINE], on);
      OneChar(COMMA, [NEWLINE] + on);
      assert MemberEnd(false, true) == [COMMA];
      FitsBehind([COMMA], CleanMembers(others), CleanMembers(others), Minified(on), c, rest);
    }
  }

  // ---------------------------------------------------------------- the theorem

  /** Minifying the formatted text gives the compact text exactly when no key and no
      string value ends in a backslash, not counting a string that stands at the very
      end of the text, behind which only arrays close. */
  lemma MinifyCommutesWithPrinting(v: Json)
    ensures Minified(Text(v, true, 0)) == Text(v, false, 0) <==> CleanBeforeEnd(v)
  {
    var f, c := Text(v, true, 0), Text(v, false, 0);
    ValueMinified(v, 0, 0, []);
    assert f + [] == f && c + [] == c;
    if Clean(v) {
      CleanIsCleanBeforeEnd(v);
    }
  }

  /** Compact text is minified already, under the same condition. */
  lemma CompactIsMinified(v: Json)
    requires Clean(v)
    ensures Minified(Text(v, false, 0)) == Text(v, false, 0)
  {
    MinifyCommutesWithPrinting(v);
    CleanIsCleanBeforeEnd(v);
    MinifiedTwice(Text(v, true, 0));
  }
}

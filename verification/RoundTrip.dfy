/** Parsing undoes printing, for compact and for formatted text. */
module RoundTrip {
  import opened Bytes
  import opened Json
  import opened Numbers
  import opened Strings
  import opened Render
  import opened ParseSpec

  /** Blanks that end before a printing character are skipped, and no more. */
  lemma SkipBlanksTo(s: seq<byte>, p: nat, q: nat)
    requires p <= q < |s| && s[q] > 32
    requires forall i :: p <= i < q ==> s[i] <= 32
    ensures SkipBlanks(s, p) == q
  {
    PastBlanksTo(s, p, q);
  }

  lemma {:induction false} PastBlanksTo(s: seq<byte>, p: nat, q: nat)
    requires p <= q < |s| && s[q] > 32
    requires forall i :: p <= i < q ==> s[i] <= 32
    ensures PastBlanks(s, p) == q
    decreases q - p
  {
    if p < q {
      PastBlanksTo(s, p + 1, q);
    }
  }

  lemma {:induction false} TabsAreBlank(n: nat)
    ensures forall i :: 0 <= i < n ==> Tabs(n)[i] == TAB
  {
    if n > 0 {
      TabsAreBlank(n - 1);
    }
  }

  predicate Blank(t: seq<byte>) {
    forall i :: 0 <= i < |t| ==> t[i] <= 32
  }

  /** Blank text in front of a printing character. */
  lemma SkipBlanksOver(s: seq<byte>, p: nat, blanks: seq<byte>, t: seq<byte>) returns (q: nat)
    requires At(s, p, blanks + t) && Blank(blanks) && t != [] && t[0] > 32
    ensures q == p + |blanks| < |s| && SkipBlanks(s, p) == q && At(s, q, t)
  {
    q := p + |blanks|;
    AtConcat(s, p, blanks, t);
    forall i | p <= i < q
      ensures s[i] <= 32
    {
      AtIndex(s, p, blanks, i - p);
    }
    SkipBlanksTo(s, p, q);
  }

  /** A printing character, then blank text in front of another one, which is at q. */
  lemma SkipBehind(s: seq<byte>, e: nat, c: byte, blanks: seq<byte>, t: seq<byte>) returns (q: nat)
    requires At(s, e, ([c] + blanks) + t) && c > 32 && Blank(blanks) && t != [] && t[0] > 32
    ensures e < |s| && s[e] == c && SkipBlanks(s, e) == e
    ensures q == e + 1 + |blanks| < |s| && SkipBlanks(s, e + 1) == q && At(s, q, t)
  {
    Assoc([c], blanks, t);
    assert ([c] + (blanks + t))[1..] == blanks + t;
    SkipBlanksTo(s, e, e);
    q := SkipBlanksOver(s, e + 1, blanks, t);
  }

  /** The same with a second run of blanks. */
  lemma SkipBehindTwo(s: seq<byte>, e: nat, c: byte, a: seq<byte>, b: seq<byte>, t: seq<byte>) returns (q: nat)
    requires At(s, e, ([c] + a) + (b + t)) && c > 32 && Blank(a) && Blank(b) && t != [] && t[0] > 32
    ensures e < |s| && s[e] == c && SkipBlanks(s, e) == e
    ensures q == e + 1 + |a| + |b| < |s| && SkipBlanks(s, e + 1) == q && At(s, q, t)
  {
    FourParts([c], a, b, t);
    BlankConcat(a, b);
    q := SkipBehind(s, e, c, a + b, t);
  }

  lemma FourParts(c: seq<byte>, a: seq<byte>, b: seq<byte>, t: seq<byte>)
    ensures (c + a) + (b + t) == (c + (a + b)) + t
  {
    Assoc(c + a, b, t);
    Assoc(c, a, b);
  }

  lemma BlankConcat(a: seq<byte>, b: seq<byte>)
    requires Blank(a) && Blank(b)
    ensures Blank(a + b)
  {}

  /** The first character of a value's text tells its kind. */
  lemma FirstCharacter(v: Json, fmt: bool, k: nat)
    ensures var c := Text(v, fmt, k)[0];
            && c > 32 && c != BRACKET_CLOSE && c != BRACE_CLOSE && c != COMMA && c != COLON
            && (v.Number? ==> c == MINUS || IsDigit(c))
  {
    match v
    case Array(items) =>
    case Object(members) =>
    case String(t) =>
    case _ =>
  }

  /** Text followed by more: a number must not run on. */
  predicate EndsAt(s: seq<byte>, e: nat) {
    e < |s| ==> !IsNumberChar(s[e])
  }

  lemma NumberRoundTrip(s: seq<byte>, o: nat, d: real, e: nat)
    requires IsInt32(d) && At(s, o, IntText(ValueInt(d)))
    requires e == o + |IntText(ValueInt(d))| && EndsAt(s, e)
    ensures ParseNumber(s, o) == Ok(Number(d), e)
  {
    var t := IntText(ValueInt(d));
    assert forall i :: 0 <= i < |t| ==> IsNumberChar(t[i]);
    SpanOfNumber(s, o, t);
    AtSlice(s, o, t);
    StrtodOfInt(ValueInt(d));
  }

  lemma StringRoundTrip(s: seq<byte>, o: nat, t: cstr, e: nat)
    requires At(s, o, Quoted(t)) && e == o + |Quoted(t)|
    ensures StandsAt(s, o, QUOTE) && ParseString(s, o) == Ok(t, e)
  {
    Assoc([QUOTE], Escape(t), [QUOTE]);
    var first := AtSplit(s, o, [QUOTE], Escape(t) + [QUOTE]);
    var last := AtSplit(s, first, Escape(t), [QUOTE]);
    ScanFindsQuote(s, first, t);
    DecodeEscape(s, first, t, last);
    CStringOfText(t, []);
    assert t + [] == t;
  }

  /** The main induction: a value's text anywhere in a buffer parses to the value. */
  lemma {:induction false} ValueRoundTrip(s: seq<byte>, o: nat, v: Json, fmt: bool, k: nat, d: nat, e: nat)
    requires IntegerNumbers(v) && d + Nesting(v) <= NESTING_LIMIT
    requires At(s, o, Text(v, fmt, k)) && e == o + |Text(v, fmt, k)| && EndsAt(s, e)
    ensures ParseValue(s, o, d) == Ok(v, e)
    decreases v, 2
  {
    AtBound(s, o, Text(v, fmt, k));
    match v
    case Null =>
    case False =>
    case True =>
    case Number(x) =>
      FirstCharacter(v, fmt, k);
      NotLiteral(s, o);
      NumberRoundTrip(s, o, x, e);
    case String(x) =>
      NotLiteral(s, o);
      StringRoundTrip(s, o, x, e);
    case Array(_) =>
      NotLiteral(s, o);
      ArrayRoundTrip(s, o, v, fmt, k, d, e);
    case Object(_) =>
      NotLiteral(s, o);
      ObjectRoundTrip(s, o, v, fmt, k, d, e);
  }

  lemma NotLiteral(s: seq<byte>, o: nat)
    requires o < |s| && s[o] != 0x6E && s[o] != 0x66 && s[o] != 0x74
    ensures !At(s, o, NULL_TEXT) && !At(s, o, FALSE_TEXT) && !At(s, o, TRUE_TEXT)
  {}

  lemma {:induction false} ArrayRoundTrip(s: seq<byte>, o: nat, v: Json, fmt: bool, k: nat, d: nat, e: nat)
    requires v.Array? && IntegerNumbers(v) && d + Nesting(v) <= NESTING_LIMIT
    requires At(s, o, Text(v, fmt, k)) && o < |s| && e == o + |Text(v, fmt, k)|
    ensures ParseArray(s, o, d) == Ok(v, e)
    decreases v, 1
  {
    if v.items == [] {
      EmptyArray(s, o, v, fmt, k, d, e);
    } else {
      FirstItemAt(s, o, v, fmt, k, e);
      ItemsRoundTrip(s, o + 1, o + 1, v.items, fmt, k + 1, d + 1, e);
      OpenArray(s, o, d, v, e);
    }
  }

  lemma EmptyArray(s: seq<byte>, o: nat, v: Json, fmt: bool, k: nat, d: nat, e: nat)
    requires v.Array? && v.items == [] && d < NESTING_LIMIT
    requires At(s, o, Text(v, fmt, k)) && o < |s| && e == o + |Text(v, fmt, k)|
    ensures ParseArray(s, o, d) == Ok(v, e)
  {
    var q := SkipBehind(s, o, BRACKET_OPEN, [], [BRACKET_CLOSE]);
  }

  lemma FirstItemAt(s: seq<byte>, o: nat, v: Json, fmt: bool, k: nat, e: nat)
    requires v.Array? && v.items != [] && At(s, o, Text(v, fmt, k)) && e == o + |Text(v, fmt, k)|
    ensures StandsAt(s, o, BRACKET_OPEN) && o + 1 < |s|
    ensures SkipBlanks(s, o + 1) == o + 1 && s[o + 1] != BRACKET_CLOSE
    ensures At(s, o + 1, ItemsText(v.items, fmt, k + 1) + [BRACKET_CLOSE])
    ensures e == o + 2 + |ItemsText(v.items, fmt, k + 1)|
  {
    var body := ItemsText(v.items, fmt, k + 1) + [BRACKET_CLOSE];
    FirstCharacter(v.items[0], fmt, k + 1);
    assert body[0] == Text(v.items[0], fmt, k + 1)[0];
    assert [BRACKET_OPEN] + [] == [BRACKET_OPEN];
    var q := SkipBehind(s, o, BRACKET_OPEN, [], body);
  }

  lemma OpenArray(s: seq<byte>, o: nat, d: nat, v: Json, e: nat)
    requires v.Array? && StandsAt(s, o, BRACKET_OPEN) && o + 1 < |s| && d < NESTING_LIMIT
    requires SkipBlanks(s, o + 1) == o + 1 && s[o + 1] != BRACKET_CLOSE
    requires ParseItems(s, o + 1, d + 1) == Ok(v.items, e)
    ensures ParseArray(s, o, d) == Ok(v, e)
  {}

  /** The items of an array, from a blank prefix at p on. */
  lemma {:induction false} ItemsRoundTrip(
      s: seq<byte>, p: nat, q: nat, items: seq<Json>, fmt: bool, k: nat, d: nat, end: nat)
    requires items != [] && d + ItemsNesting(items) <= NESTING_LIMIT
    requires IntegerItems(items)
    requires p <= q && p <= |s| && At(s, q, ItemsText(items, fmt, k) + [BRACKET_CLOSE]) && SkipBlanks(s, p) == q
    requires end == q + |ItemsText(items, fmt, k)| + 1
    ensures ParseItems(s, p, d) == Ok(items, end)
    decreases items
  {
    var e := FirstItem(s, p, q, items, fmt, k, d, end);
    if |items| == 1 {
      LastItem(s, p, e, items, d);
    } else {
      var next := SecondItem(s, e, items, fmt, k, end);
      ItemsRoundTrip(s, e + 1, next, items[1..], fmt, k, d, end);
      NextItem(s, p, e, items, d, end);
    }
  }

  lemma SecondItem(s: seq<byte>, e: nat, items: seq<Json>, fmt: bool, k: nat, end: nat) returns (next: nat)
    requires |items| > 1 && At(s, e, Comma(fmt, true) + (ItemsText(items[1..], fmt, k) + [BRACKET_CLOSE]))
    requires end == e + |Comma(fmt, true)| + |ItemsText(items[1..], fmt, k)| + 1
    ensures e + 1 <= next < |s| && SkipBlanks(s, e + 1) == next
    ensures At(s, next, ItemsText(items[1..], fmt, k) + [BRACKET_CLOSE])
    ensures end == next + |ItemsText(items[1..], fmt, k)| + 1
  {
    FirstCharacter(items[1], fmt, k);
    next := SkipBehind(s, e, COMMA, Gap(fmt), ItemsText(items[1..], fmt, k) + [BRACKET_CLOSE]);
  }

  lemma {:induction false} FirstItem(
      s: seq<byte>, p: nat, q: nat, items: seq<Json>, fmt: bool, k: nat, d: nat, end: nat) returns (e: nat)
    requires items != [] && d + ItemsNesting(items) <= NESTING_LIMIT
    requires IntegerItems(items)
    requires p <= q && p <= |s| && At(s, q, ItemsText(items, fmt, k) + [BRACKET_CLOSE]) && SkipBlanks(s, p) == q
    requires end == q + |ItemsText(items, fmt, k)| + 1
    ensures e < |s| && SkipBlanks(s, e) == e && ParseValue(s, q, d) == Ok(items[0], e)
    ensures if |items| == 1 then s[e] == BRACKET_CLOSE && end == e + 1 else
              && s[e] == COMMA
              && At(s, e, Comma(fmt, true) + (ItemsText(items[1..], fmt, k) + [BRACKET_CLOSE]))
              && end == e + |Comma(fmt, true)| + |ItemsText(items[1..], fmt, k)| + 1
    decreases items, 0
  {
    var t, sep, rest := Text(items[0], fmt, k), Comma(fmt, |items| > 1), ItemsText(items[1..], fmt, k);
    ItemsParts(t, sep, rest, [BRACKET_CLOSE]);
    e := AtSplit(s, q, t, sep + (rest + [BRACKET_CLOSE]));
    ValueRoundTrip(s, q, items[0], fmt, k, d, e);
    SkipBlanksTo(s, e, e);
  }

  lemma LastItem(s: seq<byte>, p: nat, e: nat, items: seq<Json>, d: nat)
    requires p <= |s| && |items| == 1 && ParseValue(s, SkipBlanks(s, p), d) == Ok(items[0], e)
    requires StandsAt(s, e, BRACKET_CLOSE) && SkipBlanks(s, e) == e
    ensures ParseItems(s, p, d) == Ok(items, e + 1)
  {
    assert items == [items[0]];
  }

  lemma NextItem(s: seq<byte>, p: nat, e: nat, items: seq<Json>, d: nat, end: nat)
    requires p <= |s| && |items| > 1 && ParseValue(s, SkipBlanks(s, p), d) == Ok(items[0], e)
    requires StandsAt(s, e, COMMA) && SkipBlanks(s, e) == e && ParseItems(s, e + 1, d) == Ok(items[1..], end)
    ensures ParseItems(s, p, d) == Ok(items, end)
  {
    assert items == [items[0]] + items[1..];
  }

  lemma ItemsParts(t: seq<byte>, sep: seq<byte>, rest: seq<byte>, close: seq<byte>)
    ensures ((t + sep) + rest) + close == t + (sep + (rest + close))
  {
    Assoc(t + sep, rest, close);
    Assoc(t, sep, rest + close);
  }

  // ---------------------------------------------------------------- objects

  /** The text of the members from the first key on, and what closes the object. */
  function FromKey(members: seq<Member>, fmt: bool, k: nat, close: cstr): cstr
    requires members != []
  {
    Quoted(members[0].key) + (Colon(fmt) + FromValue(members, fmt, k, close))
  }

  function FromValue(members: seq<Member>, fmt: bool, k: nat, close: cstr): cstr
    requires members != []
  {
    Text(members[0].value, fmt, k) + FromEnd(members, fmt, k, close)
  }

  function FromEnd(members: seq<Member>, fmt: bool, k: nat, close: cstr): cstr
    requires members != []
  {
    MemberEnd(fmt, |members| > 1) + (MembersText(members[1..], fmt, k) + close)
  }

  lemma MembersParts(members: seq<Member>, fmt: bool, k: nat, close: cstr)
    requires members != []
    ensures MembersText(members, fmt, k) + close == Indent(fmt, k) + FromKey(members, fmt, k, close)
  {
    var i, key, colon := Indent(fmt, k), Quoted(members[0].key), Colon(fmt);
    var t := Text(members[0].value, fmt, k);
    var end, rest := MemberEnd(fmt, |members| > 1), MembersText(members[1..], fmt, k);
    var valueOn := FromValue(members, fmt, k, close);
    assert ((t + end) + rest) + close == valueOn by { ItemsParts(t, end, rest, close); }
    Assoc(i + (key + colon), (t + end) + rest, close);
    Assoc(i, key + colon, valueOn);
    Assoc(key, colon, valueOn);
  }

  /** Blank text between the parts of a formatted object. */
  lemma LayoutIsBlank(fmt: bool, k: nat)
    ensures Blank(Indent(fmt, k)) && Blank(Newline(fmt)) && Blank(Tab(fmt)) && Blank(Gap(fmt))
  {
    TabsAreBlank(k);
  }

  lemma {:induction false} ObjectRoundTrip(s: seq<byte>, o: nat, v: Json, fmt: bool, k: nat, d: nat, e: nat)
    requires v.Object? && IntegerNumbers(v) && d + Nesting(v) <= NESTING_LIMIT
    requires At(s, o, Text(v, fmt, k)) && o < |s| && e == o + |Text(v, fmt, k)|
    ensures ParseObject(s, o, d) == Ok(v, e)
    decreases v, 1
  {
    if v.members == [] {
      EmptyObject(s, o, v, fmt, k, d, e);
    } else {
      var q := FirstMemberAt(s, o, v, fmt, k, e);
      LayoutIsBlank(fmt, k);
      FullObject(s, o, v, fmt, k + 1, d, Indent(fmt, k), q, e);
    }
  }

  lemma {:induction false} FullObject(
      s: seq<byte>, o: nat, v: Json, fmt: bool, k: nat, d: nat, tabs: cstr, q: nat, e: nat)
    requires v.Object? && v.members != [] && IntegerNumbers(v) && d + Nesting(v) <= NESTING_LIMIT
    requires o + 1 <= q < |s| && SkipBlanks(s, o + 1) == q && s[q] == QUOTE && Blank(tabs)
    requires At(s, q, FromKey(v.members, fmt, k, tabs + [BRACE_CLOSE]))
    requires e == q + |FromKey(v.members, fmt, k, tabs + [BRACE_CLOSE])|
    ensures ParseObject(s, o, d) == Ok(v, e)
    decreases v, 0
  {
    SkipBlanksTo(s, q, q);
    MembersRoundTrip(s, q, q, v.members, fmt, k, d + 1, tabs, e);
    OpenObject(s, o, d, q);
  }

  lemma FirstMemberAt(s: seq<byte>, o: nat, v: Json, fmt: bool, k: nat, e: nat) returns (q: nat)
    requires v.Object? && v.members != [] && At(s, o, Text(v, fmt, k)) && e == o + |Text(v, fmt, k)|
    ensures o + 1 <= q < |s| && SkipBlanks(s, o + 1) == q && s[q] == QUOTE
    ensures At(s, q, FromKey(v.members, fmt, k + 1, Indent(fmt, k) + [BRACE_CLOSE]))
    ensures e == q + |FromKey(v.members, fmt, k + 1, Indent(fmt, k) + [BRACE_CLOSE])|
  {
    LayoutIsBlank(fmt, k + 1);
    ObjectParts(v, fmt, k);
    q := SkipBehindTwo(s, o, BRACE_OPEN, Newline(fmt), Indent(fmt, k + 1),
                       FromKey(v.members, fmt, k + 1, Indent(fmt, k) + [BRACE_CLOSE]));
  }

  lemma ObjectParts(v: Json, fmt: bool, k: nat)
    requires v.Object? && v.members != []
    ensures Text(v, fmt, k) == ([BRACE_OPEN] + Newline(fmt))
              + (Indent(fmt, k + 1) + FromKey(v.members, fmt, k + 1, Indent(fmt, k) + [BRACE_CLOSE]))
    ensures |Text(v, fmt, k)| == 1 + |Newline(fmt)| + |Indent(fmt, k + 1)|
              + |FromKey(v.members, fmt, k + 1, Indent(fmt, k) + [BRACE_CLOSE])|
  {
    MembersParts(v.members, fmt, k + 1, Indent(fmt, k) + [BRACE_CLOSE]);
  }

  lemma OpenObject(s: seq<byte>, o: nat, d: nat, q: nat)
    requires o < |s| && d < NESTING_LIMIT && SkipBlanks(s, o + 1) == q && StandsAt(s, q, QUOTE)
    ensures ParseObject(s, o, d) == match ParseMembers(s, q, d + 1)
                                    case Ok(members, n) => Ok(Object(members), n)
                                    case Err(at) => Err(at)
  {}

  lemma EmptyObject(s: seq<byte>, o: nat, v: Json, fmt: bool, k: nat, d: nat, e: nat)
    requires v.Object? && v.members == [] && d < NESTING_LIMIT
    requires At(s, o, Text(v, fmt, k)) && o < |s| && e == o + |Text(v, fmt, k)|
    ensures ParseObject(s, o, d) == Ok(v, e)
  {
    LayoutIsBlank(fmt, k);
    var close := Indent(fmt, k) + [BRACE_CLOSE];
    assert MembersText(v.members, fmt, k + 1) + close == close;
    var q := SkipBehindTwo(s, o, BRACE_OPEN, Newline(fmt), Indent(fmt, k), [BRACE_CLOSE]);
  }

  /** The members of an object, from a blank prefix at p on; the brace stands behind tabs. */
  lemma {:induction false} MembersRoundTrip(
      s: seq<byte>, p: nat, q: nat, members: seq<Member>, fmt: bool, k: nat, d: nat, tabs: cstr, end: nat)
    requires members != [] && d + MembersNesting(members) <= NESTING_LIMIT
    requires IntegerMembers(members) && Blank(tabs)
    requires 0 < p <= q && p <= |s| && SkipBlanks(s, p) == q
    requires At(s, q, FromKey(members, fmt, k, tabs + [BRACE_CLOSE]))
    requires end == q + |FromKey(members, fmt, k, tabs + [BRACE_CLOSE])|
    ensures ParseMembers(s, p, d) == Ok(members, end)
    decreases members, 2
  {
    var close := tabs + [BRACE_CLOSE];
    CloseIsNoNumber(tabs);
    var e := FirstMember(s, p, q, members, fmt, k, d, close);
    if |members| == 1 {
      LastRoundTrip(s, p, e, members, fmt, k, d, tabs, end);
    } else {
      RestRoundTrip(s, e, members, fmt, k, d, tabs, end);
      NextMember(s, p, e, members, d, end);
    }
  }

  /** The closing brace behind the only member left, which ends at e. */
  lemma LastRoundTrip(
      s: seq<byte>, p: nat, e: nat, members: seq<Member>, fmt: bool, k: nat, d: nat, tabs: cstr, end: nat)
    requires 0 < p <= |s| && |members| == 1 && ParseMember(s, p, d) == Ok(members[0], e) && Blank(tabs)
    requires At(s, e, FromEnd(members, fmt, k, tabs + [BRACE_CLOSE]))
    requires end == e + |FromEnd(members, fmt, k, tabs + [BRACE_CLOSE])|
    ensures ParseMembers(s, p, d) == Ok(members, end)
  {
    var last := LastEnd(s, e, members, fmt, k, tabs);
    LastMember(s, p, e, members, d, last);
  }

  /** The members behind the first, which ends at e. */
  lemma {:induction false} RestRoundTrip(
      s: seq<byte>, e: nat, members: seq<Member>, fmt: bool, k: nat, d: nat, tabs: cstr, end: nat)
    requires |members| > 1 && d + MembersNesting(members) <= NESTING_LIMIT
    requires IntegerMembers(members) && Blank(tabs)
    requires At(s, e, FromEnd(members, fmt, k, tabs + [BRACE_CLOSE]))
    requires end == e + |FromEnd(members, fmt, k, tabs + [BRACE_CLOSE])|
    ensures StandsAt(s, e, COMMA) && SkipBlanks(s, e) == e && ParseMembers(s, e + 1, d) == Ok(members[1..], end)
    decreases members, 1
  {
    var next := NextKey(s, e, members, fmt, k, tabs + [BRACE_CLOSE]);
    MembersRoundTrip(s, e + 1, next, members[1..], fmt, k, d, tabs, end);
  }

  lemma CloseIsNoNumber(tabs: cstr)
    requires Blank(tabs)
    ensures !IsNumberChar((tabs + [BRACE_CLOSE])[0])
  {}

  lemma NextKey(s: seq<byte>, e: nat, members: seq<Member>, fmt: bool, k: nat, close: cstr) returns (next: nat)
    requires |members| > 1 && At(s, e, FromEnd(members, fmt, k, close))
    ensures StandsAt(s, e, COMMA) && SkipBlanks(s, e) == e
    ensures e + 1 <= next <= |s| && SkipBlanks(s, e + 1) == next
    ensures At(s, next, FromKey(members[1..], fmt, k, close))
    ensures next + |FromKey(members[1..], fmt, k, close)| == e + |FromEnd(members, fmt, k, close)|
  {
    LayoutIsBlank(fmt, k);
    MembersParts(members[1..], fmt, k, close);
    next := SkipBehindTwo(s, e, COMMA, Newline(fmt), Indent(fmt, k), FromKey(members[1..], fmt, k, close));
  }

  lemma LastEnd(s: seq<byte>, e: nat, members: seq<Member>, fmt: bool, k: nat, tabs: cstr) returns (q: nat)
    requires |members| == 1 && Blank(tabs) && At(s, e, FromEnd(members, fmt, k, tabs + [BRACE_CLOSE]))
    ensures SkipBlanks(s, e) == q && StandsAt(s, q, BRACE_CLOSE)
    ensures q + 1 == e + |FromEnd(members, fmt, k, tabs + [BRACE_CLOSE])|
  {
    var nl := Newline(fmt);
    LayoutIsBlank(fmt, k);
    assert MemberEnd(fmt, false) == nl && members[1..] == [];
    assert FromEnd(members, fmt, k, tabs + [BRACE_CLOSE]) == nl + (tabs + [BRACE_CLOSE]);
    Assoc(nl, tabs, [BRACE_CLOSE]);
    BlankConcat(nl, tabs);
    q := SkipBlanksOver(s, e, nl + tabs, [BRACE_CLOSE]);
  }

  lemma LastMember(s: seq<byte>, p: nat, e: nat, members: seq<Member>, d: nat, q: nat)
    requires 0 < p <= |s| && |members| == 1 && ParseMember(s, p, d) == Ok(members[0], e)
    requires SkipBlanks(s, e) == q && StandsAt(s, q, BRACE_CLOSE)
    ensures ParseMembers(s, p, d) == Ok(members, q + 1)
  {
    assert members == [members[0]];
  }

  lemma NextMember(s: seq<byte>, p: nat, e: nat, members: seq<Member>, d: nat, end: nat)
    requires 0 < p <= |s| && |members| > 1 && ParseMember(s, p, d) == Ok(members[0], e)
    requires SkipBlanks(s, e) == e && StandsAt(s, e, COMMA) && ParseMembers(s, e + 1, d) == Ok(members[1..], end)
    ensures ParseMembers(s, p, d) == Ok(members, end)
  {
    MoreMembers(s, p, e, members[0], d);
    Rejoin(members, end);
  }

  lemma MoreMembers(s: seq<byte>, p: nat, e: nat, m: Member, d: nat)
    requires 0 < p <= |s| && ParseMember(s, p, d) == Ok(m, e)
    requires SkipBlanks(s, e) == e && StandsAt(s, e, COMMA)
    ensures ParseMembers(s, p, d) == PrependItem(m, ParseMembers(s, e + 1, d))
  {}

  lemma Rejoin<T>(ts: seq<T>, end: nat)
    requires ts != []
    ensures PrependItem(ts[0], Ok(ts[1..], end)) == Ok(ts, end)
  {
    assert ts == [ts[0]] + ts[1..];
  }

  lemma {:induction false} FirstMember(
      s: seq<byte>, p: nat, q: nat, members: seq<Member>, fmt: bool, k: nat, d: nat, close: cstr) returns (e: nat)
    requires members != [] && d + MembersNesting(members) <= NESTING_LIMIT
    requires IntegerMembers(members)
    requires 0 < p <= q && p <= |s| && SkipBlanks(s, p) == q
    requires close != [] && !IsNumberChar(close[0])
    requires At(s, q, FromKey(members, fmt, k, close))
    ensures ParseMember(s, p, d) == Ok(members[0], e)
    ensures e + |FromEnd(members, fmt, k, close)| == q + |FromKey(members, fmt, k, close)|
    ensures At(s, e, FromEnd(members, fmt, k, close))
    decreases members, 1
  {
    var m := members[0];
    var c, b := FirstKey(s, q, members, fmt, k, close);
    e := AtSplit(s, b, Text(m.value, fmt, k), FromEnd(members, fmt, k, close));
    EndOfValue(s, e, members, fmt, k, close);
    ValueRoundTrip(s, b, m.value, fmt, k, d, e);
    OneMember(s, p, q, c, b, e, m, d);
  }

  /** The key of the first member, and the colon: where its value starts. */
  lemma FirstKey(s: seq<byte>, q: nat, members: seq<Member>, fmt: bool, k: nat, close: cstr)
    returns (c: nat, b: nat)
    requires members != [] && At(s, q, FromKey(members, fmt, k, close))
    ensures q < |s| && ParseString(s, q) == Ok(members[0].key, c)
    ensures StandsAt(s, c, COLON) && SkipBlanks(s, c) == c && SkipBlanks(s, c + 1) == b
    ensures At(s, b, FromValue(members, fmt, k, close))
    ensures b + |FromValue(members, fmt, k, close)| == q + |FromKey(members, fmt, k, close)|
  {
    var on := FromValue(members, fmt, k, close);
    FirstCharacter(members[0].value, fmt, k);
    c := KeyText(s, q, members[0].key, Colon(fmt) + on);
    b := BehindColon(s, c, fmt, on);
  }

  lemma KeyText(s: seq<byte>, q: nat, key: cstr, on: cstr) returns (c: nat)
    requires At(s, q, Quoted(key) + on)
    ensures q < |s| && ParseString(s, q) == Ok(key, c)
    ensures At(s, c, on) && c + |on| == q + |Quoted(key) + on|
  {
    c := AtSplit(s, q, Quoted(key), on);
    StringRoundTrip(s, q, key, c);
  }

  lemma BehindColon(s: seq<byte>, c: nat, fmt: bool, on: cstr) returns (b: nat)
    requires At(s, c, Colon(fmt) + on) && on != [] && on[0] > 32
    ensures StandsAt(s, c, COLON) && SkipBlanks(s, c) == c && SkipBlanks(s, c + 1) == b
    ensures At(s, b, on) && b == c + |Colon(fmt)|
  {
    LayoutIsBlank(fmt, 0);
    b := SkipBehind(s, c, COLON, Tab(fmt), on);
  }

  lemma EndOfValue(s: seq<byte>, e: nat, members: seq<Member>, fmt: bool, k: nat, close: cstr)
    requires members != [] && close != [] && !IsNumberChar(close[0])
    requires At(s, e, FromEnd(members, fmt, k, close))
    ensures EndsAt(s, e)
  {
    var t := FromEnd(members, fmt, k, close);
    assert t != [] && !IsNumberChar(t[0]);
  }

  lemma OneMember(s: seq<byte>, p: nat, q: nat, c: nat, b: nat, e: nat, m: Member, d: nat)
    requires 0 < p < |s| && SkipBlanks(s, p) == q && ParseString(s, q) == Ok(m.key, c)
    requires SkipBlanks(s, c) == c && StandsAt(s, c, COLON)
    requires SkipBlanks(s, c + 1) == b && ParseValue(s, b, d) == Ok(m.value, e)
    ensures ParseMember(s, p, d) == Ok(m, e)
  {}

  // ---------------------------------------------------------------- whole texts

  /** Parsing a printed text gives back the tree: order of members, duplicate keys,
      control characters and bytes above 0x7F included. The parse ends where the text
      does, and what follows the text is not looked at. */
  lemma TextRoundTrip(v: Json, fmt: bool, rest: seq<byte>)
    requires IntegerNumbers(v) && Nesting(v) <= NESTING_LIMIT
    requires rest != [] ==> !IsNumberChar(rest[0])
    ensures ParseText(Text(v, fmt, 0) + rest, false) == Ok(v, |Text(v, fmt, 0)|)
  {
    var t := Text(v, fmt, 0);
    var s := t + rest;
    AtSlice(s, 0, t);
    FirstCharacter(v, fmt, 0);
    FirstIsAscii(v, fmt, 0);
    assert s[0] == t[0] && !At(s, 0, BOM);
    SkipBlanksTo(s, 0, 0);
    ValueRoundTrip(s, 0, v, fmt, 0, 0, |t|);
  }

  lemma FirstIsAscii(v: Json, fmt: bool, k: nat)
    ensures Text(v, fmt, k)[0] < 128
  {
    match v
    case Array(items) =>
    case Object(members) =>
    case String(t) =>
    case Number(d) => assert IntText(ValueInt(d))[0] == MINUS || IsDigit(IntText(ValueInt(d))[0]);
    case _ =>
  }

  /** cJSON_Parse of what cJSON_Print returned, with or without the demand that nothing
      but the terminator follows. */
  lemma PrintedRoundTrip(v: Json, fmt: bool, requireTerminated: bool)
    requires IntegerNumbers(v) && Nesting(v) <= NESTING_LIMIT
    ensures ParseText(Terminated(Text(v, fmt, 0)), requireTerminated) == Ok(v, |Text(v, fmt, 0)|)
  {
    var t := Text(v, fmt, 0);
    TextRoundTrip(v, fmt, [0]);
    var s := Terminated(t);
    assert PastBlanks(s, |t|) == PastBlanks(s, |t| + 1) == |s|;
  }

  /** So no two trees print alike. */
  lemma TextIsInjective(v: Json, w: Json, fmt: bool, fmt': bool)
    requires IntegerNumbers(v) && Nesting(v) <= NESTING_LIMIT
    requires IntegerNumbers(w) && Nesting(w) <= NESTING_LIMIT
    requires Text(v, fmt, 0) == Text(w, fmt', 0)
    ensures v == w
  {
    TextRoundTrip(v, fmt, []);
    TextRoundTrip(w, fmt', []);
  }

  // ---------------------------------------------------------------- any accepted text

  /** The parser never builds a tree that is too deep to print. */
  lemma {:induction false} ParsedNesting(s: seq<byte>, o: nat, d: nat)
    requires o <= |s| && d <= NESTING_LIMIT && ParseValue(s, o, d).Ok?
    ensures d + Nesting(ParseValue(s, o, d).value) <= NESTING_LIMIT
    decreases |s| - o, 1
  {
    if ParseValue(s, o, d).value.Array? {
      var p := SkipBlanks(s, o + 1);
      if !StandsAt(s, p, BRACKET_CLOSE) {
        ParsedItemsNesting(s, p, d + 1);
      }
    } else if ParseValue(s, o, d).value.Object? {
      var p := SkipBlanks(s, o + 1);
      if !StandsAt(s, p, BRACE_CLOSE) {
        ParsedMembersNesting(s, p, d + 1);
      }
    }
  }

  lemma {:induction false} ParsedItemsNesting(s: seq<byte>, p: nat, d: nat)
    requires p <= |s| && d <= NESTING_LIMIT && ParseItems(s, p, d).Ok?
    ensures d + ItemsNesting(ParseItems(s, p, d).value) <= NESTING_LIMIT
    decreases |s| - p, 2
  {
    var r := ParseValue(s, SkipBlanks(s, p), d);
    ParsedNesting(s, SkipBlanks(s, p), d);
    var q := SkipBlanks(s, r.next);
    if StandsAt(s, q, COMMA) {
      ParsedItemsNesting(s, q + 1, d);
      var rest := ParseItems(s, q + 1, d).value;
      assert ([r.value] + rest)[1..] == rest;
    }
  }

  lemma {:induction false} ParsedMembersNesting(s: seq<byte>, p: nat, d: nat)
    requires 0 < p <= |s| && d <= NESTING_LIMIT && ParseMembers(s, p, d).Ok?
    ensures d + MembersNesting(ParseMembers(s, p, d).value) <= NESTING_LIMIT
    decreases |s| - p, 3
  {
    var m, rest, q := ParsedMembersParts(s, p, d);
    ParsedMemberNesting(s, p, d);
    NestingOfFirst(m, rest);
    if q > 0 {
      ParsedMembersNesting(s, q, d);
    }
  }

  /** The first member, and the others, which start at q; there are none when q is 0. */
  lemma ParsedMembersParts(s: seq<byte>, p: nat, d: nat) returns (m: Member, rest: seq<Member>, q: nat)
    requires 0 < p <= |s| && ParseMembers(s, p, d).Ok?
    ensures ParseMember(s, p, d).Ok? && m == ParseMember(s, p, d).value
    ensures ParseMembers(s, p, d).value == [m] + rest
    ensures if q == 0 then rest == []
            else p < q <= |s| && ParseMembers(s, q, d).Ok? && rest == ParseMembers(s, q, d).value
  {
    var r := ParseMember(s, p, d);
    m, rest, q := r.value, [], 0;
    var n := SkipBlanks(s, r.next);
    if StandsAt(s, n, COMMA) {
      q := n + 1;
      rest := ParseMembers(s, q, d).value;
    }
  }

  lemma NestingOfFirst(m: Member, rest: seq<Member>)
    ensures MembersNesting([m] + rest) == Max(Nesting(m.value), MembersNesting(rest))
  {
    assert ([m] + rest)[1..] == rest;
  }

  lemma {:induction false} ParsedMemberNesting(s: seq<byte>, p: nat, d: nat)
    requires 0 < p <= |s| && d <= NESTING_LIMIT && ParseMember(s, p, d).Ok?
    ensures d + Nesting(ParseMember(s, p, d).value.value) <= NESTING_LIMIT
    decreases |s| - p, 2
  {
    var q := SkipBlanks(s, ParseString(s, SkipBlanks(s, p)).next);
    ParsedColonNesting(s, q, d);
  }

  lemma {:induction false} ParsedColonNesting(s: seq<byte>, q: nat, d: nat)
    requires q <= |s| && d <= NESTING_LIMIT && ParseColonValue(s, q, d).Ok?
    ensures d + Nesting(ParseColonValue(s, q, d).value) <= NESTING_LIMIT
    decreases |s| - q, 0
  {
    ParsedNesting(s, SkipBlanks(s, q + 1), d);
  }

  /** Whatever text the parser accepts, printing the tree and parsing again, compact or
      formatted, changes nothing more. */
  lemma AcceptedTextNormalises(s: seq<byte>, requireTerminated: bool, fmt: bool)
    requires ParseText(s, requireTerminated).Ok? && IntegerNumbers(ParseText(s, requireTerminated).value)
    ensures var v := ParseText(s, requireTerminated).value;
            ParseText(Terminated(Text(v, fmt, 0)), true) == Ok(v, |Text(v, fmt, 0)|)
  {
    ParsedNesting(s, SkipBlanks(s, SkipBom(s)), 0);
    PrintedRoundTrip(ParseText(s, requireTerminated).value, fmt, true);
  }
}

/** What printed text looks like, written out in character codes. */
module PrintLayout {
  import opened Bytes
  import opened Json
  import opened Numbers
  import opened NumberGrammar
  import opened Render
  import opened Strings

  // ---------------------------------------------------------------- the layout

  /** The parts with a separator between them. */
  function Join(parts: seq<cstr>, sep: cstr): cstr {
    if parts == [] then []
    else if |parts| == 1 then parts[0]
    else parts[0] + (sep + Join(parts[1..], sep))
  }

  /** A character in a literal: the two-character escapes, \u00XX in small letters for the other
      control characters, everything else as it is. */
  function Char(c: cchar): cstr {
    if c == 0x22 then [0x5C, 0x22]
    else if c == 0x5C then [0x5C, 0x5C]
    else if c == 0x08 then [0x5C, 0x62]
    else if c == 0x0C then [0x5C, 0x66]
    else if c == 0x0A then [0x5C, 0x6E]
    else if c == 0x0D then [0x5C, 0x72]
    else if c == 0x09 then [0x5C, 0x74]
    else if c < 0x20 then [0x5C, 0x75, 0x30, 0x30, 0x30 + c / 16, if c % 16 < 10 then 0x30 + c % 16 else 0x57 + c % 16]
    else [c]
  }

  function Lit(t: cstr): cstr {
    [0x22] + (Join(seq(|t|, i requires 0 <= i < |t| => Char(t[i])), []) + [0x22])
  }

  function Num(d: real): cstr {
    IntText(ValueInt(d))
  }

  /** Compact text. */
  function Dense(v: Json): cstr
    decreases v
  {
    match v
    case Null => [0x6E, 0x75, 0x6C, 0x6C]
    case False => [0x66, 0x61, 0x6C, 0x73, 0x65]
    case True => [0x74, 0x72, 0x75, 0x65]
    case Number(d) => Num(d)
    case String(t) => Lit(t)
    case Array(items) =>
      [0x5B] + (Join(seq(|items|, i requires 0 <= i < |items| => Dense(items[i])), [0x2C]) + [0x5D])
    case Object(members) =>
      [0x7B]
      + (Join(seq(|members|, i requires 0 <= i < |members| =>
                  Lit(members[i].key) + ([0x3A] + Dense(members[i].value))), [0x2C])
         + [0x7D])
  }

  /** Formatted text inside k containers: items on one line behind a blank, every member on a
      line of its own behind as many tabs as containers are open, a tab behind its colon, and the
      closing brace on a line of its own. */
  function Laid(v: Json, k: nat): cstr
    decreases v
  {
    match v
    case Null => [0x6E, 0x75, 0x6C, 0x6C]
    case False => [0x66, 0x61, 0x6C, 0x73, 0x65]
    case True => [0x74, 0x72, 0x75, 0x65]
    case Number(d) => Num(d)
    case String(t) => Lit(t)
    case Array(items) =>
      [0x5B] + (Join(seq(|items|, i requires 0 <= i < |items| => Laid(items[i], k + 1)), [0x2C, 0x20]) + [0x5D])
    case Object(members) =>
      [0x7B, 0x0A]
      + (Join(seq(|members|, i requires 0 <= i < |members| =>
                  Line(k + 1, members[i].key, Laid(members[i].value, k + 1))), [0x2C, 0x0A])
         + ((if members == [] then [] else [0x0A]) + (seq(k, _ => 0x09) + [0x7D])))
  }

  /** Tabs, a key, a colon, a tab and a value. */
  function Line(k: nat, key: cstr, value: cstr): cstr {
    seq(k, _ => 0x09) + (Lit(key) + ([0x3A, 0x09] + value))
  }

  // ---------------------------------------------------------------- literals and numbers

  lemma CharIs(c: cchar)
    ensures EscapeChar(c) == Char(c)
  {
    if c < 32 {
      LowHex(c / 16);
      LowHex(c % 16);
    }
  }

  lemma LowHex(d: nat)
    requires d < 16
    ensures HEX_DIGITS[d] == if d < 10 then 0x30 + d else 0x57 + d
  {}

  lemma {:induction false} EscapeIs(t: cstr)
    ensures Escape(t) == Join(seq(|t|, i requires 0 <= i < |t| => Char(t[i])), [])
    decreases |t|
  {
    var parts := seq(|t|, i requires 0 <= i < |t| => Char(t[i]));
    if t != [] {
      var rest := t[1..];
      EscapeIs(rest);
      CharIs(t[0]);
      assert parts[1..] == seq(|rest|, i requires 0 <= i < |rest| => Char(rest[i]));
      JoinStep(parts, []);
      assert [] + Join(parts[1..], []) == Join(parts[1..], []);
    }
  }

  lemma JoinStep(parts: seq<cstr>, sep: cstr)
    requires parts != []
    ensures Join(parts, sep) == parts[0] + if |parts| == 1 then [] else sep + Join(parts[1..], sep)
  {}

  lemma QuotedIs(t: cstr)
    ensures Quoted(t) == Lit(t)
  {
    EscapeIs(t);
    Assoc([0x22], Escape(t), [0x22]);
  }

  lemma {:induction false} TabsAre(k: nat)
    ensures Tabs(k) == seq(k, _ => 0x09)
  {
    if k > 0 {
      TabsAre(k - 1);
    }
  }

  // ---------------------------------------------------------------- compact text

  lemma {:induction false} CompactIs(v: Json, k: nat)
    ensures Text(v, false, k) == Dense(v)
    decreases v, 2
  {
    match v
    case String(t) => QuotedIs(t);
    case Array(items) =>
      CompactItems(items, k + 1);
    case Object(members) =>
      CompactMembers(members, k + 1);
    case _ =>
  }

  lemma {:induction false} CompactItems(items: seq<Json>, k: nat)
    ensures ItemsText(items, false, k) == Join(seq(|items|, i requires 0 <= i < |items| => Dense(items[i])), [0x2C])
    decreases items, 3
  {
    var parts := seq(|items|, i requires 0 <= i < |items| => Dense(items[i]));
    if items != [] {
      var rest := items[1..];
      CompactIs(items[0], k);
      CompactItems(rest, k);
      assert parts[1..] == seq(|rest|, i requires 0 <= i < |rest| => Dense(rest[i]));
      JoinStep(parts, [0x2C]);
      assert [0x2C] + Gap(false) == [0x2C];
      Assoc(parts[0], [0x2C], Join(parts[1..], [0x2C]));
    }
  }

  lemma {:induction false} CompactMembers(members: seq<Member>, k: nat)
    ensures MembersText(members, false, k)
         == Join(seq(|members|, i requires 0 <= i < |members| =>
                     Lit(members[i].key) + ([0x3A] + Dense(members[i].value))), [0x2C])
    decreases members, 3
  {
    var parts := seq(|members|, i requires 0 <= i < |members| =>
                     Lit(members[i].key) + ([0x3A] + Dense(members[i].value)));
    if members != [] {
      var rest := members[1..];
      CompactIs(members[0].value, k);
      QuotedIs(members[0].key);
      CompactMembers(rest, k);
      assert parts[1..] == seq(|rest|, i requires 0 <= i < |rest| =>
                               Lit(rest[i].key) + ([0x3A] + Dense(rest[i].value)));
      JoinStep(parts, [0x2C]);
      CompactMember(Lit(members[0].key), Dense(members[0].value), |members| > 1, Join(parts[1..], [0x2C]));
    }
  }

  lemma CompactMember(key: cstr, value: cstr, more: bool, rest: cstr)
    requires more || rest == []
    ensures (Indent(false, 0) + (key + Colon(false))) + ((value + MemberEnd(false, more)) + rest)
         == (key + ([0x3A] + value)) + if more then [0x2C] + rest else []
  {
    var sep: cstr := if more then [0x2C] else [];
    assert MemberEnd(false, more) == sep && Colon(false) == [0x3A];
    assert Indent(false, 0) + (key + [0x3A]) == key + [0x3A];
    Assoc(value, sep, rest);
    Assoc(key + [0x3A], value, sep + rest);
    Assoc(key, [0x3A], value);
    assert !more ==> sep + rest == [];
  }

  // ---------------------------------------------------------------- formatted text

  lemma {:induction false} FormattedIs(v: Json, k: nat)
    ensures Text(v, true, k) == Laid(v, k)
    decreases v, 2
  {
    match v
    case String(t) => QuotedIs(t);
    case Array(items) =>
      FormattedItems(items, k + 1);
    case Object(members) =>
      FormattedMembers(members, k + 1);
      TabsAre(k);
      Ending(Join(Lines(members, k + 1), [0x2C, 0x0A]), members == [], Indent(true, k));
    case _ =>
  }

  lemma {:induction false} FormattedItems(items: seq<Json>, k: nat)
    ensures ItemsText(items, true, k)
         == Join(seq(|items|, i requires 0 <= i < |items| => Laid(items[i], k)), [0x2C, 0x20])
    decreases items, 3
  {
    var parts := seq(|items|, i requires 0 <= i < |items| => Laid(items[i], k));
    if items != [] {
      var rest := items[1..];
      FormattedIs(items[0], k);
      FormattedItems(rest, k);
      assert parts[1..] == seq(|rest|, i requires 0 <= i < |rest| => Laid(rest[i], k));
      JoinStep(parts, [0x2C, 0x20]);
      assert Comma(true, true) == [0x2C, 0x20];
      Assoc(parts[0], [0x2C, 0x20], Join(parts[1..], [0x2C, 0x20]));
    }
  }

  /** The lines of the members. */
  function Lines(members: seq<Member>, k: nat): seq<cstr>
    decreases members, 0
  {
    seq(|members|, i requires 0 <= i < |members| => Line(k, members[i].key, Laid(members[i].value, k)))
  }

  /** The line end behind the last member. */
  lemma Ending(lines: cstr, empty: bool, tabs: cstr)
    ensures ([0x7B] + [0x0A]) + ((lines + if empty then [] else [0x0A]) + (tabs + [0x7D]))
         == [0x7B, 0x0A] + (lines + ((if empty then [] else [0x0A]) + (tabs + [0x7D])))
  {
    assert [0x7B] + [0x0A] == [0x7B, 0x0A];
    Assoc(lines, if empty then [] else [0x0A], tabs + [0x7D]);
  }

  lemma {:induction false} FormattedMembers(members: seq<Member>, k: nat)
    ensures MembersText(members, true, k)
         == Join(Lines(members, k), [0x2C, 0x0A]) + if members == [] then [] else [0x0A]
    decreases members, 3
  {
    if members == [] {
      assert Join(Lines(members, k), [0x2C, 0x0A]) == [];
    } else {
      var rest, parts := members[1..], Lines(members, k);
      FormattedIs(members[0].value, k);
      QuotedIs(members[0].key);
      TabsAre(k);
      FormattedMembers(rest, k);
      assert parts[1..] == Lines(rest, k);
      JoinStep(parts, [0x2C, 0x0A]);
      FormattedMember(Indent(true, k), Lit(members[0].key), Laid(members[0].value, k), |members| > 1,
                      Join(parts[1..], [0x2C, 0x0A]));
    }
  }

  lemma FormattedMember(tabs: cstr, key: cstr, value: cstr, more: bool, rest: cstr)
    requires more || rest == []
    ensures (tabs + (key + Colon(true))) + ((value + MemberEnd(true, more)) + (rest + if more then [0x0A] else []))
         == (tabs + (key + ([0x3A, 0x09] + value)) + if more then [0x2C, 0x0A] + rest else []) + [0x0A]
  {
    var line := tabs + (key + ([0x3A, 0x09] + value));
    assert Colon(true) == [0x3A, 0x09] && MemberEnd(true, more) == if more then [0x2C, 0x0A] else [0x0A];
    Assoc(key, [0x3A, 0x09], value);
    Assoc(tabs, key + [0x3A, 0x09], value);
    assert (tabs + (key + [0x3A, 0x09])) + value == line;
    if more {
      LineThenRest(tabs + (key + [0x3A, 0x09]), value, [0x2C, 0x0A], rest, [0x0A]);
    } else {
      LineThenRest(tabs + (key + [0x3A, 0x09]), value, [0x0A], [], []);
    }
  }

  lemma LineThenRest(head: cstr, value: cstr, sep: cstr, rest: cstr, end: cstr)
    ensures head + ((value + sep) + (rest + end)) == ((head + value) + (sep + rest)) + end
  {
    Assoc(value, sep, rest + end);
    Assoc(sep, rest, end);
    Assoc(head, value, sep + (rest + end));
    Assoc(head + value, sep + rest, end);
  }

  /** The text of a value as it is printed. */
  lemma PrintedText(v: Json, fmt: bool)
    ensures Text(v, fmt, 0) == if fmt then Laid(v, 0) else Dense(v)
  {
    if fmt {
      FormattedIs(v, 0);
    } else {
      CompactIs(v, 0);
    }
  }
}

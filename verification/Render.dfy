/** The text of a value, compact or formatted. */
module Render {
  import opened Bytes
  import opened Json
  import opened Numbers
  import opened Strings

  function Tabs(n: nat): (t: cstr)
    ensures |t| == n
  {
    if n == 0 then [] else Tabs(n - 1) + [TAB]
  }

  /** The blanks that only formatted text has. */
  function Gap(fmt: bool): cstr { if fmt then [SPACE] else [] }

  function Tab(fmt: bool): cstr { if fmt then [TAB] else [] }

  function Newline(fmt: bool): cstr { if fmt then [NEWLINE] else [] }

  function Indent(fmt: bool, depth: nat): cstr { if fmt then Tabs(depth) else [] }

  /** The punctuation of arrays and objects. */
  function Comma(fmt: bool, more: bool): cstr { if more then [COMMA] + Gap(fmt) else [] }

  function Open(fmt: bool): cstr { [BRACE_OPEN] + Newline(fmt) }

  function Colon(fmt: bool): cstr { [COLON] + Tab(fmt) }

  function MemberEnd(fmt: bool, more: bool): cstr { (if more then [COMMA] else []) + Newline(fmt) }

  /** The text of v inside depth open containers. Numbers are printed through the
      integer format, so the text is meant for values with IntegerNumbers. */
  function Text(v: Json, fmt: bool, depth: nat): (t: cstr)
    ensures t != []
    decreases v
  {
    match v
    case Null => NULL_TEXT
    case False => FALSE_TEXT
    case True => TRUE_TEXT
    case Number(d) => IntText(ValueInt(d))
    case String(s) => Quoted(s)
    case Array(items) => [BRACKET_OPEN] + (ItemsText(items, fmt, depth + 1) + [BRACKET_CLOSE])
    case Object(members) =>
      Open(fmt) + (MembersText(members, fmt, depth + 1) + (Indent(fmt, depth) + [BRACE_CLOSE]))
  }

  /** The text of an array behind its opening bracket. */
  function ArrayRest(v: Json, fmt: bool, depth: nat): cstr
    requires v.Array?
  {
    ItemsText(v.items, fmt, depth + 1) + [BRACKET_CLOSE]
  }

  /** The text of an object behind its opening brace. */
  function ObjectRest(v: Json, fmt: bool, depth: nat): cstr
    requires v.Object?
  {
    MembersText(v.members, fmt, depth + 1) + (Indent(fmt, depth) + [BRACE_CLOSE])
  }

  function ItemsText(items: seq<Json>, fmt: bool, depth: nat): cstr
    decreases items
  {
    if items == [] then []
    else
      (Text(items[0], fmt, depth) + Comma(fmt, |items| > 1)) + ItemsText(items[1..], fmt, depth)
  }

  function MembersText(members: seq<Member>, fmt: bool, depth: nat): cstr
    decreases members
  {
    if members == [] then []
    else
      KeyText(members[0].key, fmt, depth)
      + ((Text(members[0].value, fmt, depth) + MemberEnd(fmt, |members| > 1))
         + MembersText(members[1..], fmt, depth))
  }

  /** What stands in front of a member's value. */
  function KeyText(key: cstr, fmt: bool, depth: nat): cstr {
    Indent(fmt, depth) + (Quoted(key) + Colon(fmt))
  }

  /** One item with the separator behind it. */
  function ItemText(v: Json, fmt: bool, depth: nat, more: bool): cstr {
    Text(v, fmt, depth) + Comma(fmt, more)
  }

  lemma ItemsStep(items: seq<Json>, i: nat, fmt: bool, depth: nat)
    requires i < |items|
    ensures ItemsText(items[i..], fmt, depth)
            == ItemText(items[i], fmt, depth, i + 1 < |items|) + ItemsText(items[i + 1..], fmt, depth)
  {
    assert items[i..][1..] == items[i + 1..];
  }

  /** A member's value with the end of its line. */
  function ValueText(v: Json, fmt: bool, depth: nat, more: bool): cstr {
    Text(v, fmt, depth) + MemberEnd(fmt, more)
  }

  /** One member with its line around it. */
  function MemberText(m: Member, fmt: bool, depth: nat, more: bool): cstr {
    KeyText(m.key, fmt, depth) + ValueText(m.value, fmt, depth, more)
  }

  lemma MembersStep(members: seq<Member>, i: nat, fmt: bool, depth: nat)
    requires i < |members|
    ensures MembersText(members[i..], fmt, depth)
            == MemberText(members[i], fmt, depth, i + 1 < |members|) + MembersText(members[i + 1..], fmt, depth)
  {
    assert members[i..][1..] == members[i + 1..];
    Assoc(KeyText(members[i].key, fmt, depth), ValueText(members[i].value, fmt, depth, i + 1 < |members|),
          MembersText(members[i + 1..], fmt, depth));
  }
}

/** The parser as a function of the buffer, the offset and the nesting depth. */
module ParseSpec {
  import opened Bytes
  import opened Json
  import opened Numbers
  import opened Strings

  /** Ok: the value and the offset behind it. Err: the offset the parser stops at. */
  datatype Parsed<+T> = Ok(value: T, next: nat) | Err(at: nat)

  /** Where the run of blanks at o ends. */
  function PastBlanks(s: seq<byte>, o: nat): (e: nat)
    requires o <= |s|
    ensures o <= e <= |s|
    decreases |s| - o
  {
    if o < |s| && s[o] <= 32 then PastBlanks(s, o + 1) else o
  }

  /** buffer_skip_whitespace; it steps back onto the last byte when only blanks are left. */
  function SkipBlanks(s: seq<byte>, o: nat): (e: nat)
    requires o <= |s|
    ensures o <= e <= |s| && (o < |s| ==> e < |s|)
  {
    if o < |s| && PastBlanks(s, o) == |s| then |s| - 1 else PastBlanks(s, o)
  }

  function ParseNumber(s: seq<byte>, o: nat): (r: Parsed<Json>)
    requires o <= |s|
    ensures r.Ok? ==> o < r.next <= |s|
    ensures r.Err? ==> r.at <= |s|
  {
    match Strtod(s[o..SpanEnd(s, o)])
    case None => Err(o)
    case Some(c) => Ok(Number(c.value), o + c.consumed)
  }

  /** The text of a literal is what its C string holds: it ends at an escaped NUL. */
  function ParseString(s: seq<byte>, o: nat): (r: Parsed<cstr>)
    requires o < |s|
    ensures r.Ok? ==> o + 1 < r.next <= |s|
    ensures r.Err? ==> r.at <= |s|
  {
    if s[o] != QUOTE then Err(o + 1)
    else
      match ScanEnd(s, o + 1)
      case None => Err(o + 1)
      case Some(e) =>
        match DecodeString(s, o + 1, e)
        case Bad(at) => Err(at)
        case Done(output) => Ok(CString(output), e + 1)
  }

  predicate StandsAt(s: seq<byte>, o: nat, c: byte) {
    o < |s| && s[o] == c
  }

  function ParseValue(s: seq<byte>, o: nat, d: nat): (r: Parsed<Json>)
    requires o <= |s|
    ensures r.Ok? ==> o < r.next <= |s|
    ensures r.Err? ==> r.at <= |s|
    decreases |s| - o, 1
  {
    if At(s, o, NULL_TEXT) then Ok(Null, o + 4)
    else if At(s, o, FALSE_TEXT) then Ok(False, o + 5)
    else if At(s, o, TRUE_TEXT) then Ok(True, o + 4)
    else if StandsAt(s, o, QUOTE) then
      match ParseString(s, o)
      case Ok(t, n) => Ok(String(t), n)
      case Err(at) => Err(at)
    else if o < |s| && (s[o] == MINUS || IsDigit(s[o])) then ParseNumber(s, o)
    else if StandsAt(s, o, BRACKET_OPEN) then ParseArray(s, o, d)
    else if StandsAt(s, o, BRACE_OPEN) then ParseObject(s, o, d)
    else Err(o)
  }

  function ParseArray(s: seq<byte>, o: nat, d: nat): (r: Parsed<Json>)
    requires o < |s|
    ensures r.Ok? ==> o < r.next <= |s|
    ensures r.Err? ==> r.at <= |s|
    decreases |s| - o, 0
  {
    if d >= NESTING_LIMIT then Err(o)
    else
      var p := SkipBlanks(s, o + 1);
      if StandsAt(s, p, BRACKET_CLOSE) then Ok(Array([]), p + 1)
      else if p >= |s| then Err(p - 1)
      else
        match ParseItems(s, p, d + 1)
        case Ok(items, n) => Ok(Array(items), n)
        case Err(at) => Err(at)
  }

  /** The items from p on and the closing bracket. */
  function ParseItems(s: seq<byte>, p: nat, d: nat): (r: Parsed<seq<Json>>)
    requires p <= |s|
    ensures r.Ok? ==> p < r.next <= |s|
    ensures r.Err? ==> r.at <= |s|
    decreases |s| - p, 2
  {
    match ParseValue(s, SkipBlanks(s, p), d)
    case Err(at) => Err(at)
    case Ok(v, n) =>
      var q := SkipBlanks(s, n);
      if StandsAt(s, q, COMMA) then PrependItem(v, ParseItems(s, q + 1, d))
      else if StandsAt(s, q, BRACKET_CLOSE) then Ok([v], q + 1)
      else Err(q)
  }

  function PrependItem<T>(v: T, r: Parsed<seq<T>>): Parsed<seq<T>> {
    match r case Ok(vs, n) => Ok([v] + vs, n) case Err(at) => Err(at)
  }

  function ParseObject(s: seq<byte>, o: nat, d: nat): (r: Parsed<Json>)
    requires o < |s|
    ensures r.Ok? ==> o < r.next <= |s|
    ensures r.Err? ==> r.at <= |s|
    decreases |s| - o, 0
  {
    if d >= NESTING_LIMIT then Err(o)
    else
      var p := SkipBlanks(s, o + 1);
      if StandsAt(s, p, BRACE_CLOSE) then Ok(Object([]), p + 1)
      else if p >= |s| then Err(p - 1)
      else
        match ParseMembers(s, p, d + 1)
        case Ok(members, n) => Ok(Object(members), n)
        case Err(at) => Err(at)
  }

  /** The members from p on and the closing brace. */
  function ParseMembers(s: seq<byte>, p: nat, d: nat): (r: Parsed<seq<Member>>)
    requires 0 < p <= |s|
    ensures r.Ok? ==> p < r.next <= |s|
    ensures r.Err? ==> r.at <= |s|
    decreases |s| - p, 3
  {
    match ParseMember(s, p, d)
    case Err(at) => Err(at)
    case Ok(m, n) =>
      var q := SkipBlanks(s, n);
      if StandsAt(s, q, COMMA) then PrependItem(m, ParseMembers(s, q + 1, d))
      else if StandsAt(s, q, BRACE_CLOSE) then Ok([m], q + 1)
      else Err(q)
  }

  /** A key, a colon and a value. */
  function ParseMember(s: seq<byte>, p: nat, d: nat): (r: Parsed<Member>)
    requires 0 < p <= |s|
    ensures r.Ok? ==> p < r.next <= |s|
    ensures r.Err? ==> r.at <= |s|
    decreases |s| - p, 2
  {
    if p == |s| then Err(p - 1)
    else
      match ParseString(s, SkipBlanks(s, p))
      case Err(at) => Err(at)
      case Ok(key, n) =>
        match ParseColonValue(s, SkipBlanks(s, n), d)
        case Err(at) => Err(at)
        case Ok(v, m) => Ok(Member(key, v), m)
  }

  /** The colon at q and the value behind it. */
  function ParseColonValue(s: seq<byte>, q: nat, d: nat): (r: Parsed<Json>)
    requires q <= |s|
    ensures r.Ok? ==> q < r.next <= |s|
    ensures r.Err? ==> r.at <= |s|
    decreases |s| - q, 1
  {
    if !StandsAt(s, q, COLON) then Err(q) else ParseValue(s, SkipBlanks(s, q + 1), d)
  }

  /** The byte order mark. */
  const BOM: seq<byte> := [0xEF, 0xBB, 0xBF]

  function SkipBom(s: seq<byte>): (o: nat)
    ensures o <= |s|
  {
    if 4 < |s| && At(s, 0, BOM) then 3 else 0
  }

  /** cJSON_ParseWithLengthOpts: the value and the reported end of the parse, or the
      reported error position. */
  function ParseText(s: seq<byte>, requireTerminated: bool): (r: Parsed<Json>)
    ensures r.Ok? ==> r.next <= |s|
    ensures r.Err? ==> r.at < |s| || r.at == 0
  {
    if s == [] then Err(0)
    else
      match ParseValue(s, SkipBlanks(s, SkipBom(s)), 0)
      case Err(at) => Err(ErrorPosition(s, at))
      case Ok(v, n) =>
        if !requireTerminated then Ok(v, n)
        else
          var q := SkipBlanks(s, n);
          if StandsAt(s, q, 0) then Ok(v, q) else Err(ErrorPosition(s, q))
  }

  function ErrorPosition(s: seq<byte>, at: nat): nat {
    if at < |s| then at else if |s| > 0 then |s| - 1 else 0
  }
}

/** The parsing half of the JSON engine: a cursor over the input, and the functions that
    advance it. */
module Parser {
  import opened Bytes
  import opened Json
  import opened Numbers
  import opened Utf8
  import opened Strings
  import opened ParseSpec

  class ParseBuffer {
    const content: seq<byte>
    var offset: nat
    var depth: nat

    constructor (content: seq<byte>)
      ensures this.content == content && offset == 0 && depth == 0
    {
      this.content, offset, depth := content, 0, 0;
    }

    /** buffer_skip_whitespace. */
    method SkipWhitespace()
      requires offset <= |content|
      modifies this`offset
      ensures offset == SkipBlanks(content, old(offset))
    {
      if offset >= |content| {
        return;
      }
      while offset < |content| && content[offset] <= 32
        invariant old(offset) <= offset <= |content|
        invariant PastBlanks(content, offset) == PastBlanks(content, old(offset))
      {
        offset := offset + 1;
      }
      if offset == |content| {
        offset := offset - 1;
      }
    }

    /** parse_number: collects the number characters, then leaves it to strtod how many
        of them count. */
    method ParseNumber() returns (ok: bool, item: Json)
      requires offset <= |content|
      modifies this`offset
      ensures ParseSpec.ParseNumber(content, old(offset)) == if ok then Ok(item, offset) else Err(offset)
    {
      var n := 0;
      while offset + n < |content| && IsNumberChar(content[offset + n])
        invariant offset + n <= |content|
        invariant SpanEnd(content, offset + n) == SpanEnd(content, offset)
      {
        n := n + 1;
      }
      var conversion := Strtod(content[offset..offset + n]);
      if conversion.None? {
        return false, Null;
      }
      offset := offset + conversion.value.consumed;
      return true, Number(conversion.value.value);
    }

    /** The first scan of parse_string: the closing quote and the backslashes passed. */
    method FindEnd() returns (end: Option<nat>, skipped: nat)
      requires offset < |content|
      ensures end == ScanEnd(content, offset + 1)
      ensures end.Some? ==> skipped == Skipped(content, offset + 1, end.value)
    {
      skipped := 0;
      var e := offset + 1;
      while e < |content| && content[e] != QUOTE
        invariant offset + 1 <= e <= |content|
        invariant ScanEnd(content, e) == ScanEnd(content, offset + 1)
        invariant ScanEnd(content, e).Some? ==>
                    skipped + Skipped(content, e, ScanEnd(content, e).value)
                    == Skipped(content, offset + 1, ScanEnd(content, e).value)
      {
        if content[e] == BACKSLASH {
          if e + 1 >= |content| {
            return None, 0;
          }
          skipped := skipped + 1;
          e := e + 1;
        }
        e := e + 1;
      }
      end := if e < |content| then Some(e) else None;
    }

    /** parse_string: sizes the output in one scan and fills it in another. All writes
        are inside the block that the first scan asked for. */
    method ParseString() returns (ok: bool, text: cstr)
      requires offset < |content|
      modifies this`offset
      ensures ParseSpec.ParseString(content, old(offset)) == if ok then Ok(text, offset) else Err(offset)
    {
      if content[offset] != QUOTE {
        offset := offset + 1;
        return false, [];
      }
      var end, skipped := FindEnd();
      if end.None? {
        offset := offset + 1;
        return false, [];
      }
      var e := end.value;
      SizingIsSound(content, offset);
      var output := new byte[e - offset - skipped + 1];
      RoomAtStart(content, offset + 1);
      var good, p, n := DecodeInto(offset + 1, e, output);
      if !good {
        offset := p;
        return false, [];
      }
      output[n] := 0;
      text := CString(output[..]);
      CStringUpTo(output[..], n);
      offset := e + 1;
      ok := true;
    }

    /** The second scan of parse_string. */
    method DecodeInto(start: nat, e: nat, output: array<byte>) returns (ok: bool, p: nat, n: nat)
      requires start <= e < |content| && !MidAt(content, start, e, false)
      requires Room(content, start, e, false) < output.Length
      modifies output
      ensures ok ==> n < output.Length && DecodeString(content, start, e) == Done(output[..n])
      ensures !ok ==> DecodeString(content, start, e) == Bad(p)
    {
      ghost var mid, whole := false, DecodeString(content, start, e);
      p, n := start, 0;
      assert output[..0] == [];
      while p < e
        invariant start <= p <= e + 1
        invariant n + Room(content, p, e, mid) <= Room(content, start, e, false)
        invariant !MidAt(content, p, e, mid)
        invariant whole == Prepend(output[..n], DecodeString(content, p, e))
        decreases e + 1 - p
      {
        var consumed, k, after := Round(start, p, e, output, n, mid);
        if consumed == 0 {
          return false, p, n;
        }
        mid := after;
        p, n := p + consumed, n + k;
      }
      ok := true;
    }

    /** One round keeps what has been decoded so far in front of what is left. */
    method Round(ghost start: nat, p: nat, e: nat, output: array<byte>, n: nat, ghost mid: bool)
      returns (consumed: nat, k: nat, ghost after: bool)
      requires start <= p < e < |content| && !MidAt(content, p, e, mid)
      requires n + Room(content, p, e, mid) < output.Length
      requires DecodeString(content, start, e) == Prepend(output[..n], DecodeString(content, p, e))
      modifies output
      ensures consumed == 0 ==> DecodeString(content, start, e) == Bad(p)
      ensures consumed != 0 ==>
                && p + consumed <= e + 1 && n + k <= output.Length
                && DecodeString(content, start, e) == Prepend(output[..n + k], DecodeString(content, p + consumed, e))
                && k + Room(content, p + consumed, e, after) <= Room(content, p, e, mid)
                && !MidAt(content, p + consumed, e, after)
    {
      ghost var written := output[..n];
      consumed, k, after := Step(p, e, output, n, mid);
      if consumed != 0 {
        assert output[..n + k] == written + output[n..n + k];
        PrependStep(written, output[n..n + k], DecodeString(content, p + consumed, e));
      }
    }

    lemma PrependStep(a: seq<byte>, b: seq<byte>, d: Decoded)
      ensures Prepend(a, Prepend(b, d)) == Prepend(a + b, d)
    {
      if d.Done? {
        Assoc(a, b, d.output);
      }
    }

    /** The round for a hexadecimal escape. */
    method StepLiteral(p: nat, e: nat, output: array<byte>, n: nat, ghost mid: bool)
      returns (consumed: nat, k: nat, ghost after: bool)
      requires p < e < |content| && !MidAt(content, p, e, mid)
      requires content[p] == BACKSLASH && content[p + 1] == 0x75
      requires n + Room(content, p, e, mid) < output.Length
      modifies output
      ensures consumed == 0 ==> DecodeString(content, p, e) == Bad(p)
      ensures consumed != 0 ==>
                && p + consumed <= e && n + k <= output.Length
                && DecodeString(content, p, e) == Prepend(output[n..n + k], DecodeString(content, p + consumed, e))
                && k + Room(content, p + consumed, e, after) <= Room(content, p, e, mid)
                && !MidAt(content, p + consumed, e, after)
      ensures output[..n] == old(output[..n])
    {
      ghost var l := ReadLiteral(content, p, e);
      LiteralFits(content, p, e);
      after := mid;
      if l.consumed != 0 {
        after := RoomAfter(content, p, l.consumed, |l.output|, e, mid);
      }
      consumed, k := StoreLiteral(p, e, output, n);
    }

    method StoreLiteral(p: nat, e: nat, output: array<byte>, n: nat) returns (consumed: nat, k: nat)
      requires e <= |content| && n + |ReadLiteral(content, p, e).output| <= output.Length
      modifies output
      ensures consumed == ReadLiteral(content, p, e).consumed && k == |ReadLiteral(content, p, e).output|
      ensures output[n..n + k] == ReadLiteral(content, p, e).output && output[..n] == old(output[..n])
    {
      var next;
      consumed, next := Utf16LiteralToUtf8(content, p, e, output, n);
      k := next - n;
    }

    /** One round of the second scan: characters consumed, 0 on failure, and bytes written. */
    method Step(p: nat, e: nat, output: array<byte>, n: nat, ghost mid: bool)
      returns (consumed: nat, k: nat, ghost after: bool)
      requires p < e < |content| && !MidAt(content, p, e, mid)
      requires n + Room(content, p, e, mid) < output.Length
      modifies output
      ensures consumed == 0 ==> DecodeString(content, p, e) == Bad(p)
      ensures consumed != 0 ==>
                && p + consumed <= e + 1 && n + k <= output.Length
                && DecodeString(content, p, e) == Prepend(output[n..n + k], DecodeString(content, p + consumed, e))
                && k + Room(content, p + consumed, e, after) <= Room(content, p, e, mid)
                && !MidAt(content, p + consumed, e, after)
      ensures output[..n] == old(output[..n])
    {
      if content[p] != BACKSLASH {
        after := RoomAfter(content, p, 1, 1, e, mid);
        output[n] := content[p];
        return 1, 1, after;
      }
      if content[p + 1] == 0x75 {
        consumed, k, after := StepLiteral(p, e, output, n, mid);
        return;
      }
      var c := Unescape(content[p + 1]);
      if c.None? {
        return 0, 0, mid;
      }
      after := RoomAfter(content, p, 2, 1, e, mid);
      output[n] := c.value;
      assert output[n..n + 1] == [c.value];
      return 2, 1, after;
    }

    /** The parse at the offset came out as expected by the specification. */
    ghost predicate Outcome<T>(ok: bool, item: T, r: Parsed<T>)
      reads this
    {
      offset <= |content| && r == if ok then Ok(item, offset) else Err(offset)
    }

    /** parse_value: total on every input, never outside the content, and what it accepts,
        where it ends and where it fails is the specification's. Success restores depth. */
    method ParseValue() returns (ok: bool, item: Json)
      requires offset <= |content|
      modifies this
      ensures Outcome(ok, item, ParseSpec.ParseValue(content, old(offset), old(depth)))
      ensures ok ==> depth == old(depth)
      decreases |content| - offset, 4
    {
      item := Null;
      if At(content, offset, NULL_TEXT) {
        AtBound(content, offset, NULL_TEXT);
        offset := offset + 4;
        return true, Null;
      }
      if At(content, offset, FALSE_TEXT) {
        AtBound(content, offset, FALSE_TEXT);
        offset := offset + 5;
        return true, False;
      }
      if At(content, offset, TRUE_TEXT) {
        AtBound(content, offset, TRUE_TEXT);
        offset := offset + 4;
        return true, True;
      }
      if offset >= |content| {
        return false, Null;
      }
      var c := content[offset];
      if c == QUOTE {
        var text;
        ok, text := ParseString();
        return ok, String(text);
      }
      if c == MINUS || IsDigit(c) {
        ok, item := ParseNumber();
      } else if c == BRACKET_OPEN {
        ok, item := ParseArray();
      } else if c == BRACE_OPEN {
        ok, item := ParseObject();
      } else {
        ok := false;
      }
    }

    method ParseArray() returns (ok: bool, item: Json)
      requires offset < |content| && content[offset] == BRACKET_OPEN
      modifies this
      ensures Outcome(ok, item, ParseSpec.ParseArray(content, old(offset), old(depth)))
      ensures ok ==> depth == old(depth)
      decreases |content| - offset, 2
    {
      item := Null;
      if depth >= NESTING_LIMIT {
        return false, Null;
      }
      depth := depth + 1;
      offset := offset + 1;
      SkipWhitespace();
      var items := [];
      if offset < |content| && content[offset] == BRACKET_CLOSE {
        offset := offset + 1;
      } else if offset >= |content| {
        offset := offset - 1;
        return false, Null;
      } else {
        offset := offset - 1;
        ok, items := ParseItems();
        if !ok {
          return;
        }
      }
      depth := depth - 1;
      ok, item := true, Array(items);
    }

    /** The loop of parse_array: the offset is on the character in front of the first
        item, then on the separators, and in the end behind the closing bracket. */
    method ParseItems() returns (ok: bool, items: seq<Json>)
      requires offset < |content|
      modifies this
      ensures Outcome(ok, items, ParseSpec.ParseItems(content, old(offset) + 1, old(depth)))
      ensures ok ==> depth == old(depth)
      decreases |content| - offset, 1
    {
      ghost var goal := ParseSpec.ParseItems(content, offset + 1, depth);
      var item;
      items := [];
      ok, item := NextItem();
      if !ok {
        return;
      }
      items := [item];
      while offset < |content| && content[offset] == COMMA
        invariant old(offset) < offset <= |content| && depth == old(depth)
        invariant goal == Extend(items, AfterItem(content, offset, depth))
      {
        ghost var before := items;
        ok, item := NextItem();
        if !ok {
          return;
        }
        items := items + [item];
        ExtendStep(before, item, AfterItem(content, offset, depth));
      }
      ExtendEmpty(items);
      if offset >= |content| || content[offset] != BRACKET_CLOSE {
        return false, items;
      }
      offset := offset + 1;
      ok := true;
    }

    /** One round of the loop of parse_array. */
    method NextItem() returns (ok: bool, item: Json)
      requires offset < |content|
      modifies this
      ensures old(offset) < offset <= |content| || !ok
      ensures ParseSpec.ParseItems(content, old(offset) + 1, old(depth))
              == if ok then PrependItem(item, AfterItem(content, offset, depth)) else Err(offset)
      ensures offset <= |content|
      ensures ok ==> depth == old(depth)
      decreases |content| - offset, 0
    {
      ItemsByRounds(content, offset + 1, depth);
      offset := offset + 1;
      SkipWhitespace();
      ok, item := ParseValue();
      if ok {
        ghost var n := offset;
        SkipWhitespace();
        assert offset == SkipBlanks(content, n);
      }
    }

    method ParseObject() returns (ok: bool, item: Json)
      requires offset < |content| && content[offset] == BRACE_OPEN
      modifies this
      ensures Outcome(ok, item, ParseSpec.ParseObject(content, old(offset), old(depth)))
      ensures ok ==> depth == old(depth)
      decreases |content| - offset, 3
    {
      item := Null;
      if depth >= NESTING_LIMIT {
        return false, Null;
      }
      depth := depth + 1;
      offset := offset + 1;
      SkipWhitespace();
      var members := [];
      if offset < |content| && content[offset] == BRACE_CLOSE {
        offset := offset + 1;
      } else if offset >= |content| {
        offset := offset - 1;
        return false, Null;
      } else {
        offset := offset - 1;
        ok, members := ParseMembers();
        if !ok {
          return;
        }
      }
      depth := depth - 1;
      ok, item := true, Object(members);
    }

    /** The loop of parse_object: the offset is on the character in front of the first
        member, then on the separators, and in the end behind the closing bracket. */
    method ParseMembers() returns (ok: bool, members: seq<Member>)
      requires offset < |content|
      modifies this
      ensures Outcome(ok, members, ParseSpec.ParseMembers(content, old(offset) + 1, old(depth)))
      ensures ok ==> depth == old(depth)
      decreases |content| - offset, 2
    {
      ghost var goal := ParseSpec.ParseMembers(content, offset + 1, depth);
      var member;
      members := [];
      ok, member := NextMember();
      if !ok {
        return;
      }
      members := [member];
      while offset < |content| && content[offset] == COMMA
        invariant old(offset) < offset <= |content| && depth == old(depth)
        invariant goal == Extend(members, AfterMember(content, offset, depth))
      {
        ghost var before := members;
        ok, member := NextMember();
        if !ok {
          return;
        }
        members := members + [member];
        ExtendStep(before, member, AfterMember(content, offset, depth));
      }
      ExtendEmpty(members);
      if offset >= |content| || content[offset] != BRACE_CLOSE {
        return false, members;
      }
      offset := offset + 1;
      ok := true;
    }

    /** One round of the loop of parse_object. */
    method NextMember() returns (ok: bool, member: Member)
      requires offset < |content|
      modifies this
      ensures old(offset) < offset <= |content| || !ok
      ensures ParseSpec.ParseMembers(content, old(offset) + 1, old(depth))
              == if ok then PrependItem(member, AfterMember(content, offset, depth)) else Err(offset)
      ensures offset <= |content|
      ensures ok ==> depth == old(depth)
      decreases |content| - offset, 1
    {
      MembersByRounds(content, offset + 1, depth);
      ok, member := ParseOneMember();
      if ok {
        ghost var n := offset;
        SkipWhitespace();
        assert offset == SkipBlanks(content, n);
      }
    }

    /** The key, the colon and the value of the next member. */
    method ParseOneMember() returns (ok: bool, member: Member)
      requires offset < |content|
      modifies this
      ensures Outcome(ok, member, ParseSpec.ParseMember(content, old(offset) + 1, old(depth)))
      ensures ok ==> depth == old(depth)
      decreases |content| - offset, 0
    {
      member := Member([], Null);
      if offset + 1 >= |content| {
        return false, member;
      }
      offset := offset + 1;
      SkipWhitespace();
      var key, value;
      ok, key := ParseString();
      if !ok {
        return;
      }
      SkipWhitespace();
      ok, value := ParseMemberValue();
      member := Member(key, value);
    }

    /** The colon and the value. */
    method ParseMemberValue() returns (ok: bool, value: Json)
      requires offset <= |content|
      modifies this
      ensures Outcome(ok, value, ParseSpec.ParseColonValue(content, old(offset), old(depth)))
      ensures ok ==> depth == old(depth)
      decreases |content| - offset, 5
    {
      if offset >= |content| || content[offset] != COLON {
        return false, Null;
      }
      offset := offset + 1;
      SkipWhitespace();
      ok, value := ParseValue();
    }
  }

  /** What a parser of items does behind an item, at q: a comma and more, or the end. */
  function AfterItem(s: seq<byte>, q: nat, d: nat): Parsed<seq<Json>>
    requires q <= |s|
  {
    if StandsAt(s, q, COMMA) then ParseSpec.ParseItems(s, q + 1, d)
    else if StandsAt(s, q, BRACKET_CLOSE) then Ok([], q + 1)
    else Err(q)
  }

  function AfterMember(s: seq<byte>, q: nat, d: nat): Parsed<seq<Member>>
    requires q <= |s|
  {
    if StandsAt(s, q, COMMA) then ParseSpec.ParseMembers(s, q + 1, d)
    else if StandsAt(s, q, BRACE_CLOSE) then Ok([], q + 1)
    else Err(q)
  }

  /** Items already read in front of what is still to come. */
  function Extend<T>(ts: seq<T>, r: Parsed<seq<T>>): Parsed<seq<T>> {
    match r case Ok(us, n) => Ok(ts + us, n) case Err(at) => Err(at)
  }

  lemma ExtendStep<T>(ts: seq<T>, t: T, r: Parsed<seq<T>>)
    ensures Extend(ts, PrependItem(t, r)) == Extend(ts + [t], r)
  {
    if r.Ok? {
      assert ts + ([t] + r.value) == (ts + [t]) + r.value;
    }
  }

  lemma ExtendEmpty<T>(ts: seq<T>)
    ensures forall n: nat :: Extend(ts, Ok([], n)) == Ok(ts, n)
  {
    assert ts + [] == ts;
  }

  lemma ItemsByRounds(s: seq<byte>, p: nat, d: nat)
    requires p <= |s|
    ensures ParseSpec.ParseItems(s, p, d) == match ParseSpec.ParseValue(s, SkipBlanks(s, p), d)
                                             case Ok(v, n) => PrependItem(v, AfterItem(s, SkipBlanks(s, n), d))
                                             case Err(at) => Err(at)
  {
    match ParseSpec.ParseValue(s, SkipBlanks(s, p), d)
    case Ok(v, n) => assert [v] + [] == [v];
    case Err(_) =>
  }

  lemma MembersByRounds(s: seq<byte>, p: nat, d: nat)
    requires 0 < p <= |s|
    ensures ParseSpec.ParseMembers(s, p, d) == match ParseSpec.ParseMember(s, p, d)
                                               case Ok(m, n) => PrependItem(m, AfterMember(s, SkipBlanks(s, n), d))
                                               case Err(at) => Err(at)
  {
    match ParseSpec.ParseMember(s, p, d)
    case Ok(m, n) => assert [m] + [] == [m];
    case Err(_) =>
  }

  lemma {:induction false} CStringUpTo(t: seq<byte>, n: nat)
    requires n < |t| && t[n] == 0
    ensures CString(t) == CString(t[..n])
  {
    if n > 0 && t[0] != 0 {
      CStringUpTo(t[1..], n - 1);
      assert t[1..][..n - 1] == t[..n][1..];
    }
  }
}

/** The printing half of the JSON engine: a byte buffer that grows on demand, and the
    functions that print a value into it. */
module Printer {
  import opened Bytes
  import opened Json
  import opened Numbers
  import opened Strings
  import opened Render

  class PrintBuffer {
    var buffer: array?<byte>
    var length: nat
    var offset: nat
    var depth: nat
    const noalloc: bool
    const format: bool
    const useRealloc: bool
    /** The allocator's answer to each request, and how many there have been. */
    const grants: nat -> bool
    var asked: nat

    ghost predicate AllGranted()
      reads this
    {
      forall k :: 0 <= k < asked ==> grants(k)
    }

    /** buffer is null once an allocation failed. Copying by hand reads one byte past
        the offset, so it needs a buffer that is not empty. */
    ghost predicate Valid()
      reads this
    {
      && (buffer != null <==> AllGranted())
      && (buffer != null ==> buffer.Length == length)
      && length <= INT_MAX
      && (offset < length || (length == 0 && (buffer != null ==> offset == 0)))
      && (length > 0 || useRealloc || noalloc || buffer == null)
      && depth <= NESTING_LIMIT
    }

    /** The most bytes the buffer can come to hold. */
    ghost function Limit(): nat
      reads this
    {
      if noalloc then length else INT_MAX
    }

    /** Storage is only ever replaced by new storage, and the caller's never. */
    twostate predicate Kept()
      reads this
    {
      && (noalloc ==> buffer == old(buffer))
      && (buffer == null || buffer == old(buffer) || fresh(buffer))
    }

    constructor (storage: array<byte>, noalloc: bool, format: bool, useRealloc: bool, grants: nat -> bool, asked: nat)
      requires storage.Length <= INT_MAX
      requires storage.Length > 0 || useRealloc || noalloc
      requires forall k :: 0 <= k < asked ==> grants(k)
      ensures Valid() && buffer == storage && offset == 0 && depth == 0
      ensures this.noalloc == noalloc && this.format == format && this.useRealloc == useRealloc
      ensures this.grants == grants
      ensures Limit() == if noalloc then storage.Length else INT_MAX
    {
      buffer, length, offset, depth := storage, storage.Length, 0, 0;
      this.noalloc, this.format, this.useRealloc := noalloc, format, useRealloc;
      this.grants, this.asked := grants, asked;
    }

    /** The bytes up to n. */
    ghost function Front(n: nat): seq<byte>
      requires buffer != null && n <= buffer.Length
      reads this, buffer
    {
      buffer[..n]
    }

    /** ensure: room for needed bytes and a terminator. Fails exactly when the limit is
        passed or the allocator refuses; keeps what was printed so far. */
    method Ensure(needed: nat) returns (ok: bool)
      requires Valid()
      modifies this
      ensures Valid() && offset == old(offset) && depth == old(depth) && Limit() == old(Limit())
      ensures ok <==> buffer != null && offset + needed + 1 <= Limit()
      ensures ok ==> offset + needed + 1 <= length
      ensures ok ==> old(buffer) != null && Front(offset) == old(Front(offset))
      ensures Kept()
    {
      if buffer == null {
        return false;
      }
      if length > 0 && offset >= length {
        return false;
      }
      if needed > INT_MAX {
        return false;
      }
      var total := needed + offset + 1;
      if total <= length {
        return true;
      }
      if noalloc {
        return false;
      }
      var newsize;
      if total > INT_MAX / 2 {
        if total <= INT_MAX {
          newsize := INT_MAX;
        } else {
          return false;
        }
      } else {
        newsize := total * 2;
      }
      var granted := grants(asked);
      asked := asked + 1;
      if !granted {
        buffer, length := null, 0;
        return false;
      }
      var copied := if useRealloc then length else offset + 1;
      var fresher := new byte[newsize];
      forall i | 0 <= i < copied {
        fresher[i] := buffer[i];
      }
      assert fresher[..offset] == buffer[..offset];
      buffer, length := fresher, newsize;
      ok := true;
    }

    /** A run of stores, memcpy or strcpy at position p. */
    method Store(p: nat, t: seq<byte>)
      requires buffer != null && p + |t| <= buffer.Length
      modifies buffer
      ensures Front(p + |t|) == old(Front(p)) + t
    {
      forall i | 0 <= i < |t| {
        buffer[p + i] := t[i];
      }
      assert buffer[..p] == old(buffer[..p]);
      assert buffer[p..p + |t|] == t;
      assert buffer[..p + |t|] == buffer[..p] + buffer[p..p + |t|];
    }

    /** The buffer holds t and its terminator behind prefix; the offset, which no
        printer leaves at a fixed place, is somewhere inside t or at its end. */
    ghost predicate Holds(prefix: seq<byte>, t: cstr)
      reads this, buffer
    {
      && Valid() && buffer != null
      && |prefix| <= offset <= |prefix| + |t| < length
      && Front(|prefix| + |t| + 1) == prefix + Terminated(t)
    }

    /** update_offset: move to the terminator with strlen. */
    method UpdateOffset(ghost prefix: seq<byte>, ghost t: cstr)
      requires Holds(prefix, t)
      modifies this`offset
      ensures Holds(prefix, t) && offset == |prefix| + |t|
      ensures Front(offset) == prefix + t
    {
      var n := offset;
      while buffer[n] != 0
        invariant offset <= n <= |prefix| + |t|
        invariant Front(|prefix| + |t| + 1)[n] == Terminated(t)[n - |prefix|]
        decreases |prefix| + |t| - n
      {
        n := n + 1;
      }
      offset := n;
      assert Front(offset) == Front(|prefix| + |t| + 1)[..offset] == prefix + t;
    }

    // -------------------------------------------------------------- strings

    /** The first loop of print_string_ptr: the characters that escaping adds. */
    method CountEscapes(input: cstr) returns (extra: nat)
      ensures |input| + extra == |Escape(input)|
      ensures extra == 0 ==> Escape(input) == input
    {
      extra := 0;
      var i := 0;
      while i < |input|
        invariant 0 <= i <= |input|
        invariant i + extra + |Escape(input[i..])| == |Escape(input)|
      {
        var c := input[i];
        assert input[i..][1..] == input[i + 1..];
        if c == QUOTE || c == BACKSLASH || c == 0x08 || c == 0x0C || c == NEWLINE || c == RETURN || c == TAB {
          extra := extra + 1;
        } else if c < 32 {
          extra := extra + 5;
        }
        i := i + 1;
      }
      EscapeLength(input);
    }

    /** The switch of print_string_ptr: what follows the backslash. */
    method EscapeCode(c: cchar) returns (code: cstr)
      requires NeedsEscape(c)
      ensures [BACKSLASH] + code == EscapeChar(c)
    {
      if c == BACKSLASH || c == QUOTE {
        code := [c];
      } else if c == 0x08 {
        code := [0x62];
      } else if c == 0x0C {
        code := [0x66];
      } else if c == NEWLINE {
        code := [0x6E];
      } else if c == RETURN {
        code := [0x72];
      } else if c == TAB {
        code := [0x74];
      } else {
        code := [0x75, 0x30, 0x30, HEX_DIGITS[c / 16], HEX_DIGITS[c % 16]];
      }
    }

    /** One round of the copying loop of print_string_ptr. */
    method StoreChar(p: nat, c: cchar) returns (q: nat)
      requires buffer != null && p + |EscapeChar(c)| <= buffer.Length
      modifies buffer
      ensures q == p + |EscapeChar(c)| && Front(q) == old(Front(p)) + EscapeChar(c)
    {
      if c > 31 && c != QUOTE && c != BACKSLASH {
        Store(p, [c]);
        q := p + 1;
      } else {
        var code := EscapeCode(c);
        Store(p, [BACKSLASH]);
        Store(p + 1, code);
        q := p + 1 + |code|;
        Assoc(old(Front(p)), [BACKSLASH], code);
      }
    }

    lemma EscapeTail(front: seq<byte>, input: cstr, i: nat)
      requires i < |input|
      ensures front + Escape(input[i..]) == (front + EscapeChar(input[i])) + Escape(input[i + 1..])
      ensures |Escape(input[i..])| == |EscapeChar(input[i])| + |Escape(input[i + 1..])|
    {
      assert input[i..][1..] == input[i + 1..];
    }

    /** The copying loop of print_string_ptr, from position p on. */
    method StoreEscaped(p: nat, input: cstr)
      requires buffer != null && p + |Escape(input)| <= buffer.Length
      modifies buffer
      ensures Front(p + |Escape(input)|) == old(Front(p)) + Escape(input)
    {
      var i, q := 0, p;
      ghost var goal := Front(p) + Escape(input);
      assert input[0..] == input;
      while i < |input|
        invariant 0 <= i <= |input|
        invariant p <= q && q + |Escape(input[i..])| == |goal|
        invariant Front(q) + Escape(input[i..]) == goal
      {
        EscapeTail(Front(q), input, i);
        q := StoreChar(q, input[i]);
        i := i + 1;
      }
    }

    // -------------------------------------------------------------- scalars

    /** Stores t with its terminator at the offset, which stays. */
    method StoreText(t: cstr)
      requires Valid() && buffer != null && offset + |t| < length
      modifies buffer
      ensures Holds(old(Front(offset)), t)
    {
      Store(offset, Terminated(t));
    }

    /** The null, false and true cases of print_value. */
    method PrintLiteral(t: cstr) returns (ok: bool)
      requires Valid() && buffer != null && t != []
      modifies this, buffer
      ensures Valid() && Limit() == old(Limit())
      ensures Kept()
      ensures ok <==> buffer != null && old(offset) + |t| + 2 <= Limit()
      ensures ok ==> depth == old(depth) && Holds(old(Front(offset)), t)
    {
      ok := Ensure(|t| + 1);
      if ok {
        StoreText(t);
      }
    }

    /** print_number on the integer path; it moves the offset itself. */
    method PrintNumber(d: real) returns (ok: bool)
      requires Valid() && buffer != null && IsInt32(d)
      modifies this, buffer
      ensures Valid() && Limit() == old(Limit())
      ensures Kept()
      ensures ok <==> buffer != null && old(offset) + |IntText(ValueInt(d))| + 2 <= Limit()
      ensures ok ==> depth == old(depth) && Holds(old(Front(offset)), IntText(ValueInt(d)))
    {
      var t := IntText(ValueInt(d));
      IntTextLength(ValueInt(d));
      if |t| > 25 {
        return false;
      }
      ok := Ensure(|t| + 1);
      if ok {
        StoreText(t);
        offset := offset + |t|;
      }
    }

    /** print_string_ptr; the offset stays in front of the opening quote. */
    method PrintStringPtr(input: cstr) returns (ok: bool)
      requires Valid() && buffer != null
      modifies this, buffer
      ensures Valid() && Limit() == old(Limit())
      ensures Kept()
      ensures ok <==> buffer != null && old(offset) + |Quoted(input)| + 2 <= Limit()
      ensures ok ==> depth == old(depth) && Holds(old(Front(offset)), Quoted(input))
    {
      var extra := CountEscapes(input);
      ok := Ensure(|input| + extra + 3);
      if ok {
        StoreQuoted(input, extra);
      }
    }

    method StoreQuoted(input: cstr, extra: nat)
      requires Valid() && buffer != null && offset + |Quoted(input)| < length
      requires |input| + extra == |Escape(input)| && (extra == 0 ==> Escape(input) == input)
      modifies buffer
      ensures Holds(old(Front(offset)), Quoted(input))
    {
      ghost var prefix := Front(offset);
      StoreOpened(input, extra);
      Store(offset + 1 + |input| + extra, Terminated([QUOTE]));
      QuotedParts(prefix, input);
    }

    /** Without the closing quote. */
    method StoreOpened(input: cstr, extra: nat)
      requires Valid() && buffer != null && offset + |Quoted(input)| < length
      requires |input| + extra == |Escape(input)| && (extra == 0 ==> Escape(input) == input)
      modifies buffer
      ensures Valid() && Front(offset + 1 + |input| + extra) == (old(Front(offset)) + [QUOTE]) + Escape(input)
    {
      Store(offset, [QUOTE]);
      if extra == 0 {
        Store(offset + 1, input);
      } else {
        StoreEscaped(offset + 1, input);
      }
    }

    lemma QuotedParts(prefix: seq<byte>, input: cstr)
      ensures ((prefix + [QUOTE]) + Escape(input)) + Terminated([QUOTE]) == prefix + Terminated(Quoted(input))
    {
      Assoc(prefix, [QUOTE], Escape(input));
      TerminatedJoin(prefix, [QUOTE] + Escape(input), [QUOTE]);
    }

    // -------------------------------------------------------------- containers

    /** The loops that store depth tabs. */
    method StoreTabs(p: nat, n: nat)
      requires buffer != null && p + n <= buffer.Length
      modifies buffer
      ensures Front(p + n) == old(Front(p)) + Tabs(n)
    {
      var i := 0;
      while i < n
        invariant 0 <= i <= n
        invariant Front(p + i) == old(Front(p)) + Tabs(i)
      {
        Store(p + i, [TAB]);
        i := i + 1;
      }
    }

    /** Stores t at the offset and moves the offset behind it. */
    method Advance(t: cstr)
      requires Valid() && buffer != null && offset + |t| < length
      modifies this`offset, buffer
      ensures Valid() && offset == old(offset) + |t|
      ensures Front(offset) == old(Front(offset)) + t
    {
      Store(offset, t);
      offset := offset + |t|;
    }

    /** Ensures room for t and stores it: `extra` is the slack the caller asks for. */
    method Emit(t: cstr, extra: nat) returns (ok: bool)
      requires Valid() && buffer != null
      modifies this, buffer
      ensures Valid() && Limit() == old(Limit()) && depth == old(depth)
      ensures Kept()
      ensures ok <==> buffer != null && old(offset) + |t| + extra + 1 <= Limit()
      ensures ok ==> offset == old(offset) + |t| && Front(offset) == old(Front(offset)) + t
    {
      ok := Ensure(|t| + extra);
      if ok {
        Advance(t);
      }
    }

    /** print_value. It succeeds exactly when no allocation fails, the text and two more
        bytes fit and the nesting stays in bounds; then the buffer holds the text. */
    method PrintValue(v: Json) returns (ok: bool)
      requires Valid() && buffer != null && IntegerNumbers(v)
      modifies this, buffer
      ensures Valid() && Limit() == old(Limit())
      ensures Kept()
      ensures ok <==> buffer != null && old(offset) + |Text(v, format, old(depth))| + 2 <= Limit()
                      && old(depth) + Nesting(v) <= NESTING_LIMIT
      ensures ok ==> depth == old(depth) && Holds(old(Front(offset)), Text(v, format, old(depth)))
      decreases v, 6
    {
      match v
      case Null => ok := PrintLiteral(NULL_TEXT);
      case False => ok := PrintLiteral(FALSE_TEXT);
      case True => ok := PrintLiteral(TRUE_TEXT);
      case Number(d) => ok := PrintNumber(d);
      case String(t) => ok := PrintStringPtr(t);
      case Array(_) => ok := PrintArray(v);
      case Object(_) => ok := PrintObject(v);
    }

    /** One round of the loop of print_array. */
    method PrintItem(v: Json, more: bool) returns (ok: bool)
      requires Valid() && buffer != null && IntegerNumbers(v)
      modifies this, buffer
      ensures Valid() && Limit() == old(Limit())
      ensures Kept()
      ensures ok <==> buffer != null && old(offset) + |ItemText(v, format, old(depth), more)| + 2 <= Limit()
                      && old(depth) + Nesting(v) <= NESTING_LIMIT
      ensures ok ==> depth == old(depth)
                     && offset == old(offset) + |ItemText(v, format, depth, more)|
                     && Front(offset) == old(Front(offset)) + ItemText(v, format, depth, more)
      decreases v, 7
    {
      ghost var prefix := Front(offset);
      ghost var t := Text(v, format, depth);
      ok := PrintValue(v);
      if !ok {
        return;
      }
      UpdateOffset(prefix, t);
      if more {
        ok := Emit(Comma(format, more), 1);
        if ok {
          assert Front(offset) == prefix + t + Comma(format, more);
        }
      }
    }

    method PrintArray(v: Json) returns (ok: bool)
      requires Valid() && buffer != null && v.Array? && IntegerNumbers(v)
      modifies this, buffer
      ensures Valid() && Limit() == old(Limit())
      ensures Kept()
      ensures ok <==> buffer != null && old(offset) + |Text(v, format, old(depth))| + 2 <= Limit()
                      && old(depth) + Nesting(v) <= NESTING_LIMIT
      ensures ok ==> depth == old(depth) && Holds(old(Front(offset)), Text(v, format, old(depth)))
      decreases v, 5
    {
      if depth >= NESTING_LIMIT {
        return false;
      }
      ghost var prefix := Front(offset);
      ArrayParts(v, depth);
      ok := Emit([BRACKET_OPEN], 0);
      if ok {
        depth := depth + 1;
        ok := PrintArrayRest(v);
        if ok {
          HoldsJoin(prefix, [BRACKET_OPEN], ArrayRest(v, format, depth));
        }
      }
    }

    lemma ArrayParts(v: Json, d: nat)
      requires v.Array?
      ensures Text(v, format, d) == [BRACKET_OPEN] + ArrayRest(v, format, d)
      ensures |Text(v, format, d)| == 1 + |ArrayRest(v, format, d)|
      ensures Nesting(v) == 1 + ItemsNesting(v.items) && |ArrayRest(v, format, d)| > 0
    {}

    /** print_array behind the opening bracket. */
    method PrintArrayRest(v: Json) returns (ok: bool)
      requires Valid() && buffer != null && v.Array? && IntegerNumbers(v) && depth > 0
      modifies this, buffer
      ensures Valid() && Limit() == old(Limit())
      ensures Kept()
      ensures ok <==> buffer != null && old(offset) + |ArrayRest(v, format, old(depth) - 1)| + 2 <= Limit()
                      && old(depth) + ItemsNesting(v.items) <= NESTING_LIMIT
      ensures ok ==> depth == old(depth) - 1 && Holds(old(Front(offset)), ArrayRest(v, format, depth))
      decreases v, 4
    {
      ghost var prefix := Front(offset);
      ghost var body := ItemsText(v.items, format, depth);
      ok := PrintItems(v);
      if ok {
        ok := CloseArray();
        if ok {
          HoldsJoin(prefix, body, [BRACKET_CLOSE]);
        }
      }
    }

    /** The end of print_array. */
    method CloseArray() returns (ok: bool)
      requires Valid() && buffer != null && depth > 0
      modifies this, buffer
      ensures Valid() && Limit() == old(Limit())
      ensures Kept()
      ensures ok <==> buffer != null && old(offset) + 3 <= Limit()
      ensures ok ==> depth == old(depth) - 1 && Holds(old(Front(offset)), [BRACKET_CLOSE])
    {
      ok := Ensure(2);
      if ok {
        StoreText([BRACKET_CLOSE]);
        depth := depth - 1;
      }
    }

    /** Text held behind a longer prefix is held behind a shorter one. */
    lemma HoldsJoin(prefix: seq<byte>, a: cstr, t: cstr)
      requires Holds(prefix + a, t)
      ensures Holds(prefix, a + t)
    {
      TerminatedJoin(prefix, a, t);
    }

    lemma TerminatedJoin(p: seq<byte>, a: seq<byte>, t: seq<byte>)
      ensures (p + a) + Terminated(t) == p + Terminated(a + t)
    {
      Assoc(p, a, Terminated(t));
      Assoc(a, t, [0]);
    }

    /** The loop body of print_array. */
    method PrintItemAt(v: Json, i: nat, ghost goal: seq<byte>) returns (ok: bool)
      requires Valid() && buffer != null && v.Array? && IntegerNumbers(v) && i < |v.items|
      requires Front(offset) + ItemsText(v.items[i..], format, depth) == goal
      modifies this, buffer
      ensures Valid() && Limit() == old(Limit())
      ensures Kept()
      ensures !ok ==> buffer == null || |goal| + 2 > Limit() || old(depth) + ItemsNesting(v.items[i..]) > NESTING_LIMIT
      ensures ok ==> buffer != null && depth == old(depth)
                     && Front(offset) + ItemsText(v.items[i + 1..], format, depth) == goal
                     && (depth + ItemsNesting(v.items[i..]) <= NESTING_LIMIT
                         <==> depth + ItemsNesting(v.items[i + 1..]) <= NESTING_LIMIT)
      decreases v, 1
    {
      IntegerItemAt(v.items, i);
      ItemsRound(Front(offset), v.items, i, depth, goal);
      NestingOfTail(v.items, i);
      ok := PrintItem(v.items[i], i + 1 < |v.items|);
    }

    /** The loop of print_array. */
    method PrintItemsTo(v: Json, ghost goal: seq<byte>) returns (ok: bool)
      requires Valid() && buffer != null && v.Array? && IntegerNumbers(v)
      requires Front(offset) + ItemsText(v.items, format, depth) == goal
      modifies this, buffer
      ensures Valid() && Limit() == old(Limit())
      ensures Kept()
      ensures !ok ==> buffer == null || |goal| + 2 > Limit() || old(depth) + ItemsNesting(v.items) > NESTING_LIMIT
      ensures ok ==> buffer != null && depth == old(depth) && depth + ItemsNesting(v.items) <= NESTING_LIMIT
                     && Front(offset) == goal
      decreases v, 2
    {
      var items := v.items;
      ItemsDone([], items, depth);
      var i := 0;
      while i < |items|
        invariant 0 <= i <= |items|
        invariant Valid() && buffer != null && Limit() == old(Limit()) && depth == old(depth)
        invariant Kept()
        invariant Front(offset) + ItemsText(items[i..], format, depth) == goal
        invariant depth + ItemsNesting(items) <= NESTING_LIMIT <==> depth + ItemsNesting(items[i..]) <= NESTING_LIMIT
      {
        ok := PrintItemAt(v, i, goal);
        if !ok {
          return;
        }
        i := i + 1;
      }
      ItemsDone(Front(offset), items, depth);
      ok := true;
    }

    /** All items of an array. */
    method PrintItems(v: Json) returns (ok: bool)
      requires Valid() && buffer != null && v.Array? && IntegerNumbers(v)
      modifies this, buffer
      ensures Valid() && Limit() == old(Limit())
      ensures Kept()
      ensures !ok ==> buffer == null || old(offset) + |ItemsText(v.items, format, old(depth))| + 2 > Limit()
                      || old(depth) + ItemsNesting(v.items) > NESTING_LIMIT
      ensures ok ==> buffer != null && depth == old(depth) && depth + ItemsNesting(v.items) <= NESTING_LIMIT
                     && Front(offset) == old(Front(offset)) + ItemsText(v.items, format, depth)
      decreases v, 3
    {
      ok := PrintItemsTo(v, Front(offset) + ItemsText(v.items, format, depth));
    }

    lemma ItemsDone(front: seq<byte>, items: seq<Json>, d: nat)
      ensures items[0..] == items
      ensures front + ItemsText(items[|items|..], format, d) == front
    {
      assert items[|items|..] == [];
    }

    lemma ItemsRound(front: seq<byte>, items: seq<Json>, i: nat, d: nat, goal: seq<byte>)
      requires i < |items| && front + ItemsText(items[i..], format, d) == goal
      ensures var t := ItemText(items[i], format, d, i + 1 < |items|);
              |front| + |t| <= |goal| && (front + t) + ItemsText(items[i + 1..], format, d) == goal
    {
      ItemsStep(items, i, format, d);
      Assoc(front, ItemText(items[i], format, d, i + 1 < |items|), ItemsText(items[i + 1..], format, d));
    }

    lemma MembersDone(front: seq<byte>, members: seq<Member>, d: nat)
      ensures members[0..] == members
      ensures front + MembersText(members[|members|..], format, d) == front
    {
      assert members[|members|..] == [];
    }

    lemma MembersRound(front: seq<byte>, members: seq<Member>, i: nat, d: nat, goal: seq<byte>)
      requires i < |members| && front + MembersText(members[i..], format, d) == goal
      ensures var t := MemberText(members[i], format, d, i + 1 < |members|);
              |front| + |t| <= |goal| && (front + t) + MembersText(members[i + 1..], format, d) == goal
    {
      MembersStep(members, i, format, d);
      Assoc(front, MemberText(members[i], format, d, i + 1 < |members|), MembersText(members[i + 1..], format, d));
    }

    /** The tabs in front of a key. */
    method PrintIndent() returns (ok: bool)
      requires Valid() && buffer != null
      modifies this, buffer
      ensures Valid() && Limit() == old(Limit()) && depth == old(depth)
      ensures Kept()
      ensures !ok ==> buffer == null || old(offset) + |Indent(format, depth)| + 1 > Limit()
      ensures ok ==> buffer != null && offset == old(offset) + |Indent(format, depth)|
                     && Front(offset) == old(Front(offset)) + Indent(format, depth)
    {
      if format {
        ok := Ensure(depth);
        if ok {
          StoreTabs(offset, depth);
          offset := offset + depth;
        }
      } else {
        ok := true;
      }
    }

    /** The key and the colon of a member. */
    method PrintKey(key: cstr) returns (ok: bool)
      requires Valid() && buffer != null
      modifies this, buffer
      ensures Valid() && Limit() == old(Limit())
      ensures Kept()
      ensures !ok ==> buffer == null || old(offset) + |KeyText(key, format, old(depth))| + 2 > Limit()
      ensures ok ==> buffer != null && depth == old(depth)
                     && offset == old(offset) + |KeyText(key, format, depth)|
                     && Front(offset) == old(Front(offset)) + KeyText(key, format, depth)
    {
      KeyParts(Front(offset), key, depth);
      ok := PrintIndent();
      if ok {
        ghost var prefix := Front(offset);
        ok := PrintStringPtr(key);
        if ok {
          UpdateOffset(prefix, Quoted(key));
          ok := Emit(Colon(format), 0);
        }
      }
    }

    lemma KeyParts(start: seq<byte>, key: cstr, d: nat)
      ensures ((start + Indent(format, d)) + Quoted(key)) + Colon(format) == start + KeyText(key, format, d)
      ensures |KeyText(key, format, d)| == |Indent(format, d)| + |Quoted(key)| + |Colon(format)|
    {
      Assoc(start + Indent(format, d), Quoted(key), Colon(format));
      Assoc(start, Indent(format, d), Quoted(key) + Colon(format));
    }

    /** The value of a member and the end of its line. */
    method PrintMemberValue(v: Json, more: bool) returns (ok: bool)
      requires Valid() && buffer != null && IntegerNumbers(v)
      modifies this, buffer
      ensures Valid() && Limit() == old(Limit())
      ensures Kept()
      ensures ok <==> buffer != null && old(offset) + |ValueText(v, format, old(depth), more)| + 2 <= Limit()
                      && old(depth) + Nesting(v) <= NESTING_LIMIT
      ensures ok ==> depth == old(depth)
                     && offset == old(offset) + |ValueText(v, format, depth, more)|
                     && Front(offset) == old(Front(offset)) + ValueText(v, format, depth, more)
      decreases v, 7
    {
      ghost var prefix := Front(offset);
      ghost var t := Text(v, format, depth);
      ok := PrintValue(v);
      if ok {
        UpdateOffset(prefix, t);
        ok := Emit(MemberEnd(format, more), 1);
        Assoc(prefix, t, MemberEnd(format, more));
      }
    }

    /** One round of the loop of print_object. */
    method PrintMember(m: Member, more: bool) returns (ok: bool)
      requires Valid() && buffer != null && IntegerNumbers(m.value)
      modifies this, buffer
      ensures Valid() && Limit() == old(Limit())
      ensures Kept()
      ensures !ok ==> buffer == null || old(offset) + |MemberText(m, format, old(depth), more)| + 2 > Limit()
                      || old(depth) + Nesting(m.value) > NESTING_LIMIT
      ensures ok ==> buffer != null && depth == old(depth) && depth + Nesting(m.value) <= NESTING_LIMIT
                     && offset == old(offset) + |MemberText(m, format, depth, more)|
                     && Front(offset) == old(Front(offset)) + MemberText(m, format, depth, more)
      decreases m.value, 8
    {
      ghost var prefix := Front(offset);
      Assoc(prefix, KeyText(m.key, format, depth), ValueText(m.value, format, depth, more));
      ok := PrintKey(m.key);
      if ok {
        ok := PrintMemberValue(m.value, more);
      }
    }

    method PrintObject(v: Json) returns (ok: bool)
      requires Valid() && buffer != null && v.Object? && IntegerNumbers(v)
      modifies this, buffer
      ensures Valid() && Limit() == old(Limit())
      ensures Kept()
      ensures ok <==> buffer != null && old(offset) + |Text(v, format, old(depth))| + 2 <= Limit()
                      && old(depth) + Nesting(v) <= NESTING_LIMIT
      ensures ok ==> depth == old(depth) && Holds(old(Front(offset)), Text(v, format, old(depth)))
      decreases v, 5
    {
      if depth >= NESTING_LIMIT {
        return false;
      }
      ghost var prefix := Front(offset);
      ObjectParts(v, depth);
      ok := Emit(Open(format), 1);
      if ok {
        depth := depth + 1;
        ok := PrintRest(v);
        if ok {
          HoldsJoin(prefix, Open(format), ObjectRest(v, format, depth));
        }
      }
    }

    lemma ObjectParts(v: Json, d: nat)
      requires v.Object?
      ensures Text(v, format, d) == Open(format) + ObjectRest(v, format, d)
      ensures |Text(v, format, d)| == |Open(format)| + |ObjectRest(v, format, d)|
      ensures Nesting(v) == 1 + MembersNesting(v.members) && |ObjectRest(v, format, d)| > 0
    {}

    /** print_object behind the opening brace. */
    method PrintRest(v: Json) returns (ok: bool)
      requires Valid() && buffer != null && v.Object? && IntegerNumbers(v) && depth > 0
      modifies this, buffer
      ensures Valid() && Limit() == old(Limit())
      ensures Kept()
      ensures ok <==> buffer != null && old(offset) + |ObjectRest(v, format, old(depth) - 1)| + 2 <= Limit()
                      && old(depth) + MembersNesting(v.members) <= NESTING_LIMIT
      ensures ok ==> depth == old(depth) - 1
                     && Holds(old(Front(offset)), ObjectRest(v, format, depth))
      decreases v, 4
    {
      ghost var prefix := Front(offset);
      ghost var body := MembersText(v.members, format, depth);
      ok := PrintMembers(v);
      if ok {
        ok := CloseObject();
        if ok {
          HoldsJoin(prefix, body, Indent(format, depth) + [BRACE_CLOSE]);
        }
      }
    }

    /** The end of print_object: the closing brace on its own line. */
    method CloseObject() returns (ok: bool)
      requires Valid() && buffer != null && depth > 0
      modifies this, buffer
      ensures Valid() && Limit() == old(Limit())
      ensures Kept()
      ensures ok <==> buffer != null && old(offset) + |Indent(format, old(depth) - 1)| + 3 <= Limit()
      ensures ok ==> depth == old(depth) - 1
                     && Holds(old(Front(offset)), Indent(format, depth) + [BRACE_CLOSE])
    {
      ok := Ensure(if format then depth + 1 else 2);
      if ok {
        StoreClose();
        depth := depth - 1;
      }
    }

    method StoreClose()
      requires Valid() && buffer != null && depth > 0
      requires offset + |Indent(format, depth - 1)| + 1 < length
      modifies buffer
      ensures Holds(old(Front(offset)), Indent(format, depth - 1) + [BRACE_CLOSE])
    {
      ghost var prefix := Front(offset);
      var p := offset;
      if format {
        StoreTabs(p, depth - 1);
        p := p + (depth - 1);
      }
      assert Front(p) == prefix + Indent(format, depth - 1);
      Store(p, Terminated([BRACE_CLOSE]));
      TerminatedJoin(prefix, Indent(format, depth - 1), [BRACE_CLOSE]);
    }

    /** The loop body of print_object. */
    method PrintMemberAt(v: Json, i: nat, ghost goal: seq<byte>) returns (ok: bool)
      requires Valid() && buffer != null && v.Object? && IntegerNumbers(v) && i < |v.members|
      requires Front(offset) + MembersText(v.members[i..], format, depth) == goal
      modifies this, buffer
      ensures Valid() && Limit() == old(Limit())
      ensures Kept()
      ensures !ok ==> buffer == null || |goal| + 2 > Limit()
                      || old(depth) + MembersNesting(v.members[i..]) > NESTING_LIMIT
      ensures ok ==> buffer != null && depth == old(depth)
                     && Front(offset) + MembersText(v.members[i + 1..], format, depth) == goal
                     && (depth + MembersNesting(v.members[i..]) <= NESTING_LIMIT
                         <==> depth + MembersNesting(v.members[i + 1..]) <= NESTING_LIMIT)
      decreases v, 1
    {
      IntegerMemberAt(v.members, i);
      MembersRound(Front(offset), v.members, i, depth, goal);
      NestingOfMembersTail(v.members, i);
      ok := PrintMember(v.members[i], i + 1 < |v.members|);
    }

    /** The loop of print_object. */
    method PrintMembersTo(v: Json, ghost goal: seq<byte>) returns (ok: bool)
      requires Valid() && buffer != null && v.Object? && IntegerNumbers(v)
      requires Front(offset) + MembersText(v.members, format, depth) == goal
      modifies this, buffer
      ensures Valid() && Limit() == old(Limit())
      ensures Kept()
      ensures !ok ==> buffer == null || |goal| + 2 > Limit() || old(depth) + MembersNesting(v.members) > NESTING_LIMIT
      ensures ok ==> buffer != null && depth == old(depth) && depth + MembersNesting(v.members) <= NESTING_LIMIT
                     && Front(offset) == goal
      decreases v, 2
    {
      var members := v.members;
      MembersDone([], members, depth);
      var i := 0;
      while i < |members|
        invariant 0 <= i <= |members|
        invariant Valid() && buffer != null && Limit() == old(Limit()) && depth == old(depth)
        invariant Kept()
        invariant Front(offset) + MembersText(members[i..], format, depth) == goal
        invariant depth + MembersNesting(members) <= NESTING_LIMIT
             <==> depth + MembersNesting(members[i..]) <= NESTING_LIMIT
      {
        ok := PrintMemberAt(v, i, goal);
        if !ok {
          return;
        }
        i := i + 1;
      }
      MembersDone(Front(offset), members, depth);
      ok := true;
    }

    /** All members of an object. */
    method PrintMembers(v: Json) returns (ok: bool)
      requires Valid() && buffer != null && v.Object? && IntegerNumbers(v)
      modifies this, buffer
      ensures Valid() && Limit() == old(Limit())
      ensures Kept()
      ensures !ok ==> buffer == null || old(offset) + |MembersText(v.members, format, old(depth))| + 2 > Limit()
                      || old(depth) + MembersNesting(v.members) > NESTING_LIMIT
      ensures ok ==> buffer != null && depth == old(depth) && depth + MembersNesting(v.members) <= NESTING_LIMIT
                     && Front(offset) == old(Front(offset)) + MembersText(v.members, format, depth)
      decreases v, 3
    {
      ok := PrintMembersTo(v, Front(offset) + MembersText(v.members, format, depth));
    }
  }
}

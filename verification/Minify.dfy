/** Minification: blanks and comments go, string literals stay. */
module Minify {
  import opened Bytes

  predicate IsBlank(c: byte) {
    c == SPACE || c == TAB || c == RETURN || c == NEWLINE
  }

  /** What is left behind a line comment. */
  function PastLine(t: cstr): (r: cstr)
    ensures |r| <= |t|
  {
    if t == [] then [] else if t[0] == NEWLINE then t[1..] else PastLine(t[1..])
  }

  /** What is left behind a block comment. */
  function PastBlock(t: cstr): (r: cstr)
    ensures |r| <= |t|
  {
    if t == [] then []
    else if t[0] == STAR && |t| > 1 && t[1] == SLASH then t[2..]
    else PastBlock(t[1..])
  }

  /** The minified form of a text that starts outside a string literal. */
  function Minified(t: cstr): (r: cstr)
    ensures |r| <= |t|
    decreases |t|
  {
    if t == [] then []
    else if IsBlank(t[0]) then Minified(t[1..])
    else if t[0] == SLASH then
      if |t| > 1 && t[1] == SLASH then Minified(PastLine(t[2..]))
      else if |t| > 1 && t[1] == STAR then Minified(PastBlock(t[2..]))
      else Minified(t[1..])
    else if t[0] == QUOTE then [QUOTE] + InString(t[1..])
    else [t[0]] + Minified(t[1..])
  }

  /** The minified form of a text that starts inside a string literal. A backslash
      protects a quote, but not another backslash. */
  function InString(t: cstr): (r: cstr)
    ensures |r| <= |t|
    decreases |t|
  {
    if t == [] then []
    else if t[0] == QUOTE then [QUOTE] + Minified(t[1..])
    else if t[0] == BACKSLASH && |t| > 1 && t[1] == QUOTE then [BACKSLASH, QUOTE] + InString(t[2..])
    else [t[0]] + InString(t[1..])
  }

  // ---------------------------------------------------------------- idempotence

  /** Minifying twice is minifying once, for every text. */
  lemma {:induction false} MinifiedTwice(t: cstr)
    ensures Minified(Minified(t)) == Minified(t)
    decreases |t|
  {
    if t == [] {
    } else if IsBlank(t[0]) {
      MinifiedTwice(t[1..]);
    } else if t[0] == SLASH {
      if |t| > 1 && t[1] == SLASH {
        MinifiedTwice(PastLine(t[2..]));
      } else if |t| > 1 && t[1] == STAR {
        MinifiedTwice(PastBlock(t[2..]));
      } else {
        MinifiedTwice(t[1..]);
      }
    } else if t[0] == QUOTE {
      InStringTwice(t[1..]);
      assert ([QUOTE] + InString(t[1..]))[1..] == InString(t[1..]);
    } else {
      MinifiedTwice(t[1..]);
      assert ([t[0]] + Minified(t[1..]))[1..] == Minified(t[1..]);
    }
  }

  lemma {:induction false} InStringTwice(t: cstr)
    ensures InString(InString(t)) == InString(t)
    decreases |t|
  {
    if t == [] {
    } else if t[0] == QUOTE {
      MinifiedTwice(t[1..]);
      assert ([QUOTE] + Minified(t[1..]))[1..] == Minified(t[1..]);
    } else if t[0] == BACKSLASH && |t| > 1 && t[1] == QUOTE {
      InStringTwice(t[2..]);
      assert ([BACKSLASH, QUOTE] + InString(t[2..]))[2..] == InString(t[2..]);
    } else {
      InStringTwice(t[1..]);
      var u := InString(t[1..]);
      assert |t| > 1 ==> u != [] && u[0] == t[1];
      assert ([t[0]] + u)[1..] == u;
    }
  }

  // ---------------------------------------------------------------- in place

  /** skip_oneline_comment. */
  method SkipLineComment(json: array<byte>, from: nat, ghost t: cstr) returns (next: nat)
    requires |t| < json.Length && from + 2 <= |t|
    requires forall k :: from <= k <= |t| ==> json[k] == Terminated(t)[k]
    ensures from + 2 <= next <= |t| && t[next..] == PastLine(t[from + 2..])
  {
    next := from + 2;
    while json[next] != 0
      invariant from + 2 <= next <= |t|
      invariant PastLine(t[next..]) == PastLine(t[from + 2..])
      decreases |t| - next
    {
      assert t[next..][1..] == t[next + 1..];
      if json[next] == NEWLINE {
        next := next + 1;
        return;
      }
      next := next + 1;
    }
  }

  /** skip_multiline_comment. */
  method SkipBlockComment(json: array<byte>, from: nat, ghost t: cstr) returns (next: nat)
    requires |t| < json.Length && from + 2 <= |t|
    requires forall k :: from <= k <= |t| ==> json[k] == Terminated(t)[k]
    ensures from + 2 <= next <= |t| && t[next..] == PastBlock(t[from + 2..])
  {
    next := from + 2;
    while json[next] != 0
      invariant from + 2 <= next <= |t|
      invariant PastBlock(t[next..]) == PastBlock(t[from + 2..])
      decreases |t| - next
    {
      assert t[next..][1..] == t[next + 1..];
      if json[next] == STAR && json[next + 1] == SLASH {
        assert t[next..][2..] == t[next + 2..];
        next := next + 2;
        return;
      }
      next := next + 1;
    }
  }

  /** The input from `from` on is still there, and the output so far and `tail` make
      the goal. */
  ghost predicate Progress(json: array<byte>, from: nat, into: nat, t: cstr, tail: seq<byte>, goal: seq<byte>)
    reads json
  {
    && into <= from <= |t| < json.Length
    && (forall k :: from <= k <= |t| ==> json[k] == Terminated(t)[k])
    && json[..into] + tail == goal
  }

  /** Copies one character; the input behind it is not touched. */
  method CopyByte(json: array<byte>, from: nat, into: nat, ghost t: cstr, ghost tail: seq<byte>, ghost goal: seq<byte>)
    requires from < |t| && Progress(json, from, into, t, [t[from]] + tail, goal)
    modifies json
    ensures Progress(json, from + 1, into + 1, t, tail, goal)
    ensures forall k :: from < k < json.Length ==> json[k] == old(json[k])
  {
    ghost var done := json[..into];
    json[into] := json[from];
    assert json[..into + 1] == done + [t[from]];
    Assoc(done, [t[from]], tail);
  }

  /** Copies a backslash and the quote it protects. */
  method CopyPair(json: array<byte>, from: nat, into: nat, ghost t: cstr, ghost goal: seq<byte>)
    requires from + 1 < |t| && t[from] == BACKSLASH && t[from + 1] == QUOTE
    requires Progress(json, from, into, t, InString(t[from..]), goal)
    modifies json
    ensures Progress(json, from + 2, into + 2, t, InString(t[from + 2..]), goal)
    ensures forall k :: from + 2 <= k < json.Length ==> json[k] == old(json[k])
  {
    ghost var rest := InString(t[from + 2..]);
    assert t[from..][2..] == t[from + 2..];
    assert [BACKSLASH, QUOTE] + rest == [BACKSLASH] + ([QUOTE] + rest);
    CopyByte(json, from, into, t, [QUOTE] + rest, goal);
    CopyByte(json, from + 1, into + 1, t, rest, goal);
  }

  /** minify_string: copies a literal. */
  method MinifyString(json: array<byte>, start: nat, into0: nat, ghost t: cstr, ghost goal: seq<byte>)
    returns (from: nat, into: nat)
    requires start < |t| && t[start] == QUOTE
    requires Progress(json, start, into0, t, Minified(t[start..]), goal)
    modifies json
    ensures start < from <= |t| && Progress(json, from, into, t, Minified(t[from..]), goal)
    ensures forall k :: from <= k < json.Length ==> json[k] == old(json[k])
  {
    assert t[start..][1..] == t[start + 1..];
    CopyByte(json, start, into0, t, InString(t[start + 1..]), goal);
    from, into := start + 1, into0 + 1;
    var closed := false;
    while !closed && json[from] != 0
      invariant start < from <= |t| && into <= from
      invariant Progress(json, from, into, t, if closed then Minified(t[from..]) else InString(t[from..]), goal)
      invariant forall k :: from <= k < json.Length ==> json[k] == old(json[k])
      decreases |t| - from
    {
      from, into, closed := StringRound(json, from, into, t, goal);
    }
    assert !closed ==> t[from..] == [];
  }

  /** One round of the loop of minify_string. */
  method StringRound(json: array<byte>, from0: nat, into0: nat, ghost t: cstr, ghost goal: seq<byte>)
    returns (from: nat, into: nat, closed: bool)
    requires from0 < |t| && Progress(json, from0, into0, t, InString(t[from0..]), goal)
    modifies json
    ensures from0 < from <= |t|
    ensures Progress(json, from, into, t, if closed then Minified(t[from..]) else InString(t[from..]), goal)
    ensures forall k :: from <= k < json.Length ==> json[k] == old(json[k])
  {
    assert t[from0..][1..] == t[from0 + 1..];
    from, into, closed := from0 + 1, into0 + 1, json[from0] == QUOTE;
    if closed {
      CopyByte(json, from0, into0, t, Minified(t[from..]), goal);
    } else if json[from0] == BACKSLASH && json[from0 + 1] == QUOTE {
      CopyPair(json, from0, into0, t, goal);
      from, into := from + 1, into + 1;
    } else {
      CopyByte(json, from0, into0, t, InString(t[from..]), goal);
    }
  }

  /** cJSON_Minify: rewrites a C string in place. The write position stays at or behind
      the read position, so nothing is overwritten before it is read. */
  method MinifyInPlace(json: array<byte>, ghost t: cstr)
    requires |t| < json.Length && json[..|t| + 1] == Terminated(t)
    modifies json
    ensures json[..|Minified(t)| + 1] == Terminated(Minified(t))
    ensures forall k :: |t| < k < json.Length ==> json[k] == old(json[k])
  {
    var from: nat, into: nat := 0, 0;
    ghost var goal := Minified(t);
    StartProgress(json, t);
    while json[from] != 0
      invariant into <= from <= |t|
      invariant Progress(json, from, into, t, Minified(t[from..]), goal)
      invariant forall k :: |t| < k < json.Length ==> json[k] == old(json[k])
      decreases |t| - from
    {
      assert t[from..][1..] == t[from + 1..];
      if IsBlank(json[from]) {
        from := from + 1;
      } else if json[from] == SLASH {
        from := SkipComment(json, from, t);
      } else if json[from] == QUOTE {
        from, into := MinifyString(json, from, into, t, goal);
      } else {
        CopyByte(json, from, into, t, Minified(t[from + 1..]), goal);
        from, into := from + 1, into + 1;
      }
    }
    assert t[from..] == [];
    assert json[..into] == goal;
    json[into] := 0;
    assert json[..into + 1] == json[..into] + [0];
  }

  lemma StartProgress(json: array<byte>, t: cstr)
    requires |t| < json.Length && json[..|t| + 1] == Terminated(t)
    ensures Progress(json, 0, 0, t, Minified(t[0..]), Minified(t))
  {
    assert t[0..] == t && json[..0] + Minified(t) == Minified(t);
    forall k | 0 <= k <= |t|
      ensures json[k] == Terminated(t)[k]
    {
      assert json[..|t| + 1][k] == Terminated(t)[k];
    }
  }

  /** The slash case of cJSON_Minify: a comment, or a slash to drop. */
  method SkipComment(json: array<byte>, from: nat, ghost t: cstr) returns (next: nat)
    requires from < |t| < json.Length && t[from] == SLASH
    requires forall k :: from <= k <= |t| ==> json[k] == Terminated(t)[k]
    ensures from < next <= |t| && Minified(t[next..]) == Minified(t[from..])
  {
    assert t[from..][1..] == t[from + 1..];
    if json[from + 1] == SLASH {
      assert t[from..][2..] == t[from + 2..];
      next := SkipLineComment(json, from, t);
    } else if json[from + 1] == STAR {
      assert t[from..][2..] == t[from + 2..];
      next := SkipBlockComment(json, from, t);
    } else {
      next := from + 1;
    }
  }
}

/** Bytes, C strings, and the character codes the JSON engine compares against. */
module Bytes {

  type byte = b: int | 0 <= b < 256

  /** A byte that may stand inside a C string. */
  type cchar = b: int | 0 < b < 256 witness 1

  /** The characters of a C string, without the terminator. */
  type cstr = seq<cchar>

  datatype Option<+T> = None | Some(value: T)

  const INT_MAX: int := 2147483647
  const INT_MIN: int := -2147483648

  const TAB: cchar := 0x09
  const NEWLINE: cchar := 0x0A
  const RETURN: cchar := 0x0D
  const SPACE: cchar := 0x20
  const QUOTE: cchar := 0x22
  const STAR: cchar := 0x2A
  const PLUS: cchar := 0x2B
  const COMMA: cchar := 0x2C
  const MINUS: cchar := 0x2D
  const DOT: cchar := 0x2E
  const SLASH: cchar := 0x2F
  const DIGIT0: cchar := 0x30
  const COLON: cchar := 0x3A
  const BRACKET_OPEN: cchar := 0x5B
  const BACKSLASH: cchar := 0x5C
  const BRACKET_CLOSE: cchar := 0x5D
  const BRACE_OPEN: cchar := 0x7B
  const BRACE_CLOSE: cchar := 0x7D

  const NULL_TEXT: cstr := [0x6E, 0x75, 0x6C, 0x6C]
  const FALSE_TEXT: cstr := [0x66, 0x61, 0x6C, 0x73, 0x65]
  const TRUE_TEXT: cstr := [0x74, 0x72, 0x75, 0x65]

  function Max(a: int, b: int): int {
    if a < b then b else a
  }

  function Min(a: int, b: int): int {
    if a < b then a else b
  }

  predicate IsDigit(c: byte) {
    0x30 <= c <= 0x39
  }

  lemma Assoc(a: seq<byte>, b: seq<byte>, c: seq<byte>)
    ensures (a + b) + c == a + (b + c)
  {}

  /** t stands in s at position o. */
  predicate At(s: seq<byte>, o: nat, t: seq<byte>)
    decreases |t|
  {
    if t == [] then o <= |s| else o < |s| && s[o] == t[0] && At(s, o + 1, t[1..])
  }

  lemma {:induction false} AtConcat(s: seq<byte>, o: nat, a: seq<byte>, b: seq<byte>)
    ensures At(s, o, a + b) <==> At(s, o, a) && At(s, o + |a|, b)
    decreases |a|
  {
    if a == [] {
      assert a + b == b;
      AtBound(s, o, b);
    } else {
      assert (a + b)[1..] == a[1..] + b;
      AtConcat(s, o + 1, a[1..], b);
    }
  }

  /** Where the second part of a text starts. */
  lemma AtSplit(s: seq<byte>, o: nat, a: seq<byte>, b: seq<byte>) returns (m: nat)
    requires At(s, o, a + b)
    ensures m == o + |a| <= |s| && At(s, o, a) && At(s, m, b)
  {
    m := o + |a|;
    AtConcat(s, o, a, b);
    AtBound(s, m, b);
  }

  lemma {:induction false} AtBound(s: seq<byte>, o: nat, t: seq<byte>)
    ensures At(s, o, t) ==> o + |t| <= |s|
    decreases |t|
  {
    if t != [] {
      AtBound(s, o + 1, t[1..]);
    }
  }

  /** The same by slices. */
  lemma {:induction false} AtSlice(s: seq<byte>, o: nat, t: seq<byte>)
    ensures At(s, o, t) <==> o + |t| <= |s| && s[o..o + |t|] == t
    decreases |t|
  {
    if t != [] && o < |s| {
      AtSlice(s, o + 1, t[1..]);
      if o + |t| <= |s| {
        assert s[o..o + |t|] == [s[o]] + s[o + 1..o + |t|];
        assert t == [t[0]] + t[1..];
        assert s[o..o + |t|][1..] == s[o + 1..o + |t|];
      }
    }
  }

  lemma AtIndex(s: seq<byte>, o: nat, t: seq<byte>, i: nat)
    requires At(s, o, t) && i < |t|
    ensures o + |t| <= |s| && s[o + i] == t[i]
  {
    AtSlice(s, o, t);
    assert s[o..o + |t|][i] == s[o + i];
  }

  /** A C string in memory. */
  function Terminated(t: seq<byte>): (r: seq<byte>)
    ensures |r| == |t| + 1 && r[..|t|] == t && r[|t|] == 0
  {
    t + [0]
  }

  /** The C string that starts a byte block: everything before the first NUL. */
  function CString(t: seq<byte>): (r: cstr)
    ensures |r| <= |t| && r == t[..|r|]
    ensures |r| < |t| ==> t[|r|] == 0
  {
    if t == [] || t[0] == 0 then [] else [t[0]] + CString(t[1..])
  }

  lemma {:induction false} CStringOfText(t: cstr, rest: seq<byte>)
    requires rest == [] || rest[0] == 0
    ensures CString(t + rest) == t
  {
    if t == [] {
      assert t + rest == rest;
    } else {
      assert (t + rest)[1..] == t[1..] + rest;
      CStringOfText(t[1..], rest);
    }
  }
}

/** String literals: the escaped form the printer writes, and the two scans with
    which the parser sizes and decodes one. */
module Strings {
  import opened Bytes
  import opened Utf8

  // ---------------------------------------------------------------- escaping

  const HEX_DIGITS: cstr :=
    [0x30, 0x31, 0x32, 0x33, 0x34, 0x35, 0x36, 0x37, 0x38, 0x39, 0x61, 0x62, 0x63, 0x64, 0x65, 0x66]

  predicate NeedsEscape(c: cchar) {
    c < 32 || c == QUOTE || c == BACKSLASH
  }

  /** The letter after the backslash of a two-character escape, None for \u00XX. */
  function ShortEscape(c: cchar): Option<cchar> {
    if c == BACKSLASH || c == QUOTE then Some(c)
    else if c == 0x08 then Some(0x62)
    else if c == 0x0C then Some(0x66)
    else if c == NEWLINE then Some(0x6E)
    else if c == RETURN then Some(0x72)
    else if c == TAB then Some(0x74)
    else None
  }

  function EscapeChar(c: cchar): (t: cstr)
    ensures t != []
  {
    if !NeedsEscape(c) then [c]
    else if ShortEscape(c).Some? then [BACKSLASH, ShortEscape(c).value]
    else [BACKSLASH, 0x75, 0x30, 0x30, HEX_DIGITS[c / 16], HEX_DIGITS[c % 16]]
  }

  function Escape(t: cstr): cstr {
    if t == [] then [] else EscapeChar(t[0]) + Escape(t[1..])
  }

  lemma {:induction false} EscapeLength(t: cstr)
    ensures |Escape(t)| >= |t|
    ensures |Escape(t)| == |t| ==> Escape(t) == t
  {
    if t != [] {
      EscapeLength(t[1..]);
      assert t == [t[0]] + t[1..];
    }
  }

  /** A string literal as printed. */
  function Quoted(t: cstr): cstr {
    [QUOTE] + Escape(t) + [QUOTE]
  }

  // ---------------------------------------------------------------- the sizing scan

  /** The first scan, from i: the position of the closing quote. A backslash takes the
      character after it along. */
  function ScanEnd(s: seq<byte>, i: nat): (e: Option<nat>)
    requires i <= |s|
    ensures e.Some? ==> i <= e.value < |s| && s[e.value] == QUOTE
    decreases |s| - i
  {
    if i == |s| then None
    else if s[i] == QUOTE then Some(i)
    else if s[i] == BACKSLASH then
      if i + 1 == |s| then None else ScanEnd(s, i + 2)
    else ScanEnd(s, i + 1)
  }

  /** The backslashes the first scan counts between i and e. */
  function Skipped(s: seq<byte>, i: nat, e: nat): (n: nat)
    requires e <= |s|
    decreases e - i
  {
    if i >= e then 0
    else if s[i] == BACKSLASH then 1 + Skipped(s, i + 2, e)
    else Skipped(s, i + 1, e)
  }

  // ---------------------------------------------------------------- the decoding scan

  datatype Decoded = Done(output: seq<byte>) | Bad(at: nat)

  function Prepend(t: seq<byte>, d: Decoded): Decoded {
    match d case Done(u) => Done(t + u) case Bad(at) => d
  }

  /** What a backslash followed by c stands for; None for the letters not allowed. */
  function Unescape(c: byte): Option<byte> {
    if c == 0x62 then Some(0x08)
    else if c == 0x66 then Some(0x0C)
    else if c == 0x6E then Some(NEWLINE)
    else if c == 0x72 then Some(RETURN)
    else if c == 0x74 then Some(TAB)
    else if c == QUOTE || c == BACKSLASH || c == SLASH then Some(c)
    else None
  }

  /** The second scan, from p up to the closing quote at e; it may stop one past e. */
  function DecodeString(s: seq<byte>, p: nat, e: nat): (d: Decoded)
    requires e < |s|
    ensures d.Bad? ==> p <= d.at < e
    decreases e - p
  {
    if p >= e then Done([])
    else if s[p] != BACKSLASH then Prepend([s[p]], DecodeString(s, p + 1, e))
    else if s[p + 1] == 0x75 then
      var l := ReadLiteral(s, p, e);
      if l.consumed == 0 then Bad(p) else Prepend(l.output, DecodeString(s, p + l.consumed, e))
    else if Unescape(s[p + 1]).Some? then
      Prepend([Unescape(s[p + 1]).value], DecodeString(s, p + 2, e))
    else Bad(p)
  }

  // ---------------------------------------------------------------- sizing is sound

  /** Whether the first scan, in state mid at p, is between a backslash and its
      companion when it gets to e. */
  predicate MidAt(s: seq<byte>, p: nat, e: nat, mid: bool)
    requires e <= |s|
    decreases e - p
  {
    if p >= e then mid else MidAt(s, p + 1, e, !mid && s[p] == BACKSLASH)
  }

  /** The characters between p and e that the first scan does not count as skipped. */
  function Room(s: seq<byte>, p: nat, e: nat, mid: bool): nat
    requires e <= |s|
    decreases e - p
  {
    if p >= e then 0
    else if !mid && s[p] == BACKSLASH then Room(s, p + 1, e, true)
    else 1 + Room(s, p + 1, e, false)
  }

  lemma {:induction false} RoomAtStart(s: seq<byte>, i: nat)
    requires i <= |s| && ScanEnd(s, i).Some?
    ensures var e := ScanEnd(s, i).value;
            !MidAt(s, i, e, false) && Room(s, i, e, false) + Skipped(s, i, e) == e - i
    decreases |s| - i
  {
    if s[i] == QUOTE {
    } else if s[i] == BACKSLASH {
      RoomAtStart(s, i + 2);
    } else {
      RoomAtStart(s, i + 1);
    }
  }

  /** The state of the first scan two characters on. */
  predicate MidAfterTwo(s: seq<byte>, p: nat, mid: bool)
    requires p + 2 <= |s|
  {
    !(!mid && s[p] == BACKSLASH) && s[p + 1] == BACKSLASH
  }

  /** Whatever the state, two characters free the room of one. */
  lemma RoomForTwo(s: seq<byte>, p: nat, e: nat, mid: bool)
    requires p + 2 <= e <= |s|
    ensures 1 + Room(s, p + 2, e, MidAfterTwo(s, p, mid)) <= Room(s, p, e, mid)
    ensures MidAt(s, p + 2, e, MidAfterTwo(s, p, mid)) == MidAt(s, p, e, mid)
  {}

  predicate MidAfterSix(s: seq<byte>, p: nat, mid: bool)
    requires p + 6 <= |s|
  {
    MidAfterTwo(s, p + 4, MidAfterTwo(s, p + 2, MidAfterTwo(s, p, mid)))
  }

  lemma RoomForSix(s: seq<byte>, p: nat, e: nat, mid: bool)
    requires p + 6 <= e <= |s|
    ensures 3 + Room(s, p + 6, e, MidAfterSix(s, p, mid)) <= Room(s, p, e, mid)
    ensures MidAt(s, p + 6, e, MidAfterSix(s, p, mid)) == MidAt(s, p, e, mid)
  {
    RoomForTwo(s, p, e, mid);
    var m := MidAfterTwo(s, p, mid);
    RoomForTwo(s, p + 2, e, m);
    RoomForTwo(s, p + 4, e, MidAfterTwo(s, p + 2, m));
  }

  /** The state of the first scan after the second scan took n characters at p. */
  predicate MidAfter(s: seq<byte>, p: nat, n: nat, e: nat, mid: bool)
    requires p < e < |s| && (n <= 2 || ((n == 6 || n == 12) && p + n <= e))
  {
    if n == 1 then !mid && s[p] == BACKSLASH
    else if n == 2 then p + 2 <= e && MidAfterTwo(s, p, mid)
    else if n == 6 then MidAfterSix(s, p, mid)
    else if n == 12 then MidAfterSix(s, p + 6, MidAfterSix(s, p, mid))
    else mid
  }

  /** One step of the second scan: n characters read, k bytes written, in a state in
      which the first scan would have closed its last escape at e. */
  lemma RoomForStep(s: seq<byte>, p: nat, n: nat, k: nat, e: nat, mid: bool)
    requires p < e < |s| && !MidAt(s, p, e, mid)
    requires (n == 1 && k == 1 && s[p] != BACKSLASH)
             || (n == 2 && k == 1 && s[p] == BACKSLASH)
             || (n == 6 && k <= 3 && p + 6 <= e)
             || (n == 12 && k <= 4 && p + 12 <= e)
    ensures k + Room(s, p + n, e, MidAfter(s, p, n, e, mid)) <= Room(s, p, e, mid)
    ensures !MidAt(s, p + n, e, MidAfter(s, p, n, e, mid))
  {
    if n == 2 {
      if p + 2 <= e {
        RoomForTwo(s, p, e, mid);
      } else {
        assert !MidAt(s, p + 1, e, !mid);
      }
    } else if n == 6 {
      RoomForSix(s, p, e, mid);
    } else if n == 12 {
      RoomForSix(s, p, e, mid);
      RoomForSix(s, p + 6, e, MidAfterSix(s, p, mid));
    }
  }

  /** The same for a scan that keeps the state. */
  lemma RoomAfter(s: seq<byte>, p: nat, n: nat, k: nat, e: nat, mid: bool) returns (after: bool)
    requires p < e < |s| && !MidAt(s, p, e, mid)
    requires (n == 1 && k == 1 && s[p] != BACKSLASH)
             || (n == 2 && k == 1 && s[p] == BACKSLASH)
             || (n == 6 && k <= 3 && p + 6 <= e)
             || (n == 12 && k <= 4 && p + 12 <= e)
    ensures k + Room(s, p + n, e, after) <= Room(s, p, e, mid) && !MidAt(s, p + n, e, after)
  {
    RoomForStep(s, p, n, k, e, mid);
    after := MidAfter(s, p, n, e, mid);
  }

  lemma LiteralFits(s: seq<byte>, p: nat, e: nat)
    requires e <= |s|
    ensures ReadLiteral(s, p, e).consumed == 6 ==> |ReadLiteral(s, p, e).output| <= 3
  {}

  lemma {:induction false} DecodedFits(s: seq<byte>, p: nat, e: nat, mid: bool)
    requires e < |s| && !MidAt(s, p, e, mid)
    ensures DecodeString(s, p, e).Done? ==> |DecodeString(s, p, e).output| <= Room(s, p, e, mid)
    decreases e - p
  {
    if p >= e {
    } else if s[p] != BACKSLASH {
      RoomForStep(s, p, 1, 1, e, mid);
      DecodedFits(s, p + 1, e, MidAfter(s, p, 1, e, mid));
    } else if s[p + 1] == 0x75 {
      var l := ReadLiteral(s, p, e);
      if l.consumed != 0 {
        LiteralFits(s, p, e);
        RoomForStep(s, p, l.consumed, |l.output|, e, mid);
        DecodedFits(s, p + l.consumed, e, MidAfter(s, p, l.consumed, e, mid));
      }
    } else if Unescape(s[p + 1]).Some? {
      RoomForStep(s, p, 2, 1, e, mid);
      DecodedFits(s, p + 2, e, MidAfter(s, p, 2, e, mid));
    }
  }

  /** The allocation of parse_string for a literal whose quotes are at o and e. */
  function Allocation(s: seq<byte>, o: nat, e: nat): (n: int)
    requires o <= e <= |s|
  {
    e - o - Skipped(s, o + 1, e) + 1
  }

  /** Sizing is sound on every input, also where the two scans disagree about which
      backslash starts an escape: text and terminator take at most the allocation less
      one byte. */
  lemma SizingIsSound(s: seq<byte>, o: nat)
    requires o < |s| && ScanEnd(s, o + 1).Some?
    ensures var e := ScanEnd(s, o + 1).value;
            && 0 < Allocation(s, o, e)
            && (DecodeString(s, o + 1, e).Done? ==>
                  |DecodeString(s, o + 1, e).output| + 1 < Allocation(s, o, e))
  {
    RoomAtStart(s, o + 1);
    DecodedFits(s, o + 1, ScanEnd(s, o + 1).value, false);
  }

  // ---------------------------------------------------------------- round trip

  lemma {:induction false} ScanFindsQuote(s: seq<byte>, i: nat, t: cstr)
    requires At(s, i, Escape(t) + [QUOTE])
    ensures ScanEnd(s, i) == Some(i + |Escape(t)|)
    decreases |t|
  {
    AtConcat(s, i, Escape(t), [QUOTE]);
    if t == [] {
      AtIndex(s, i, [QUOTE], 0);
    } else {
      var c := EscapeChar(t[0]);
      EscapeStep(t, [QUOTE]);
      AtConcat(s, i, c, Escape(t[1..]) + [QUOTE]);
      ScanFindsQuote(s, i + |c|, t[1..]);
      ScanPassesChar(s, i, t[0]);
    }
  }

  lemma AtSix(s: seq<byte>, i: nat, t: seq<byte>)
    requires |t| == 6 && At(s, i, t)
    ensures i + 6 <= |s|
    ensures s[i] == t[0] && s[i + 1] == t[1] && s[i + 2] == t[2]
    ensures s[i + 3] == t[3] && s[i + 4] == t[4] && s[i + 5] == t[5]
  {
    AtIndex(s, i, t, 0);
    AtIndex(s, i, t, 1);
    AtIndex(s, i, t, 2);
    AtIndex(s, i, t, 3);
    AtIndex(s, i, t, 4);
    AtIndex(s, i, t, 5);
  }

  lemma EscapeStep(t: cstr, tail: seq<byte>)
    requires t != []
    ensures Escape(t) + tail == EscapeChar(t[0]) + (Escape(t[1..]) + tail)
    ensures |Escape(t)| == |EscapeChar(t[0])| + |Escape(t[1..])|
  {
    Assoc(EscapeChar(t[0]), Escape(t[1..]), tail);
  }

  lemma ScanPassesChar(s: seq<byte>, i: nat, c: cchar)
    requires At(s, i, EscapeChar(c))
    ensures i + |EscapeChar(c)| <= |s| && ScanEnd(s, i) == ScanEnd(s, i + |EscapeChar(c)|)
  {
    var t := EscapeChar(c);
    AtIndex(s, i, t, 0);
    if |t| == 6 {
      AtSix(s, i, t);
      HexLetters(c);
      assert ScanEnd(s, i + 2) == ScanEnd(s, i + 3) == ScanEnd(s, i + 4);
      assert ScanEnd(s, i + 4) == ScanEnd(s, i + 5) == ScanEnd(s, i + 6);
    }
  }

  lemma HexLetters(c: cchar)
    requires c < 32
    ensures HexDigit(HEX_DIGITS[c / 16]) == Some(c / 16) && HexDigit(HEX_DIGITS[c % 16]) == Some(c % 16)
    ensures HEX_DIGITS[c / 16] != QUOTE && HEX_DIGITS[c / 16] != BACKSLASH
    ensures HEX_DIGITS[c % 16] != QUOTE && HEX_DIGITS[c % 16] != BACKSLASH
  {
    HexDigitOf(c / 16);
    HexDigitOf(c % 16);
  }

  lemma HexDigitOf(d: nat)
    requires d < 16
    ensures HexDigit(HEX_DIGITS[d]) == Some(d) && HEX_DIGITS[d] >= 0x30 && HEX_DIGITS[d] != BACKSLASH
  {}

  /** Decoding a printed literal gives back the text, control characters and bytes from
      0x80 on included. */
  lemma {:induction false} DecodeEscape(s: seq<byte>, p: nat, t: cstr, e: nat)
    requires e < |s| && e == p + |Escape(t)| && At(s, p, Escape(t))
    ensures DecodeString(s, p, e) == Done(t)
    decreases |t|
  {
    if t != [] {
      var c := EscapeChar(t[0]);
      AtConcat(s, p, c, Escape(t[1..]));
      DecodeEscape(s, p + |c|, t[1..], e);
      DecodeChar(s, p, t[0], e);
      assert [t[0]] + t[1..] == t;
    }
  }

  lemma DecodeChar(s: seq<byte>, p: nat, c: cchar, e: nat)
    requires e < |s| && p + |EscapeChar(c)| <= e && At(s, p, EscapeChar(c))
    ensures DecodeString(s, p, e) == Prepend([c], DecodeString(s, p + |EscapeChar(c)|, e))
  {
    var t := EscapeChar(c);
    AtIndex(s, p, t, 0);
    if |t| == 2 {
      AtIndex(s, p, t, 1);
    } else if |t| == 6 {
      AtSix(s, p, t);
      HexLetters(c);
      assert Hex4(s, p + 2) == c;
      assert ReadLiteral(s, p, e) == Literal(6, [c]);
    }
  }
}

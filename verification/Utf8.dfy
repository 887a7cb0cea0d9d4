/** Decoding of \uXXXX escapes: UTF-16 code units to UTF-8 bytes. */
module Utf8 {
  import opened Bits
  import opened Bytes

  // ---------------------------------------------------------------- UTF-8 (RFC 3629)

  /** Unicode scalar values: the code points without the surrogates. */
  predicate IsScalar(cp: int) {
    0 <= cp <= 0x10FFFF && !(0xD800 <= cp <= 0xDFFF)
  }

  /** The octet sequence of a code point, by the table in section 3 of RFC 3629. */
  function Encode(cp: nat): (t: seq<byte>)
    requires cp <= 0x10FFFF
    ensures 1 <= |t| <= 4
  {
    if cp < 0x80 then [cp]
    else if cp < 0x800 then [0xC0 + cp / 64, 0x80 + cp % 64]
    else if cp < 0x10000 then [0xE0 + cp / 4096, 0x80 + cp / 64 % 64, 0x80 + cp % 64]
    else [0xF0 + cp / 262144, 0x80 + cp / 4096 % 64, 0x80 + cp / 64 % 64, 0x80 + cp % 64]
  }

  predicate IsTail(b: byte) {
    0x80 <= b <= 0xBF
  }

  function Value2(a: int, b: int): int {
    (a - 0xC0) * 64 + (b - 0x80)
  }

  function Value3(a: int, b: int, c: int): int {
    (a - 0xE0) * 4096 + (b - 0x80) * 64 + (c - 0x80)
  }

  function Value4(a: int, b: int, c: int, d: int): int {
    (a - 0xF0) * 262144 + (b - 0x80) * 4096 + (c - 0x80) * 64 + (d - 0x80)
  }

  /** The grammar of section 4 of RFC 3629, which admits only shortest forms of scalar
      values, together with the value each form denotes. */
  function Decode(t: seq<byte>): Option<nat> {
    if |t| == 1 && t[0] <= 0x7F then Some(t[0])
    else if |t| == 2 && 0xC2 <= t[0] <= 0xDF && IsTail(t[1]) then
      Some(Value2(t[0], t[1]))
    else if |t| == 3 && IsTail(t[2])
         && ((t[0] == 0xE0 && 0xA0 <= t[1] <= 0xBF)
             || (0xE1 <= t[0] <= 0xEC && IsTail(t[1]))
             || (t[0] == 0xED && 0x80 <= t[1] <= 0x9F)
             || (0xEE <= t[0] <= 0xEF && IsTail(t[1]))) then
      Some(Value3(t[0], t[1], t[2]))
    else if |t| == 4 && IsTail(t[2]) && IsTail(t[3])
         && ((t[0] == 0xF0 && 0x90 <= t[1] <= 0xBF)
             || (0xF1 <= t[0] <= 0xF3 && IsTail(t[1]))
             || (t[0] == 0xF4 && 0x80 <= t[1] <= 0x8F)) then
      Some(Value4(t[0], t[1], t[2], t[3]))
    else None
  }

  /** Encode gives the one octet sequence that the grammar accepts for a scalar value. */
  lemma EncodeIsUniqueForm(cp: nat, t: seq<byte>)
    requires IsScalar(cp)
    ensures Decode(t) == Some(cp) <==> t == Encode(cp)
  {
    EncodeDecodes(cp);
    if Decode(t) == Some(cp) {
      DecodeEncodes(cp, t);
    }
  }

  lemma EncodeDecodes(cp: nat)
    requires IsScalar(cp)
    ensures Decode(Encode(cp)) == Some(cp)
  {
    var t := Encode(cp);
    if cp < 0x80 {
    } else if cp < 0x800 {
      Digits64(cp);
    } else if cp < 0x10000 {
      Digits64(cp);
      Digits64(cp / 64);
      assert cp / 4096 == cp / 64 / 64;
      assert Value3(t[0], t[1], t[2]) == cp;
    } else {
      Digits64(cp);
      Digits64(cp / 64);
      Digits64(cp / 64 / 64);
      assert cp / 4096 == cp / 64 / 64 && cp / 262144 == cp / 64 / 64 / 64;
      assert Value4(t[0], t[1], t[2], t[3]) == cp;
    }
  }

  lemma Digits64(n: nat)
    ensures n == n / 64 * 64 + n % 64 && n % 64 < 64
  {}

  lemma Unique64(n: nat, q: nat, r: nat)
    requires n == q * 64 + r && r < 64
    ensures n / 64 == q && n % 64 == r
  {}

  /** The base 64 digits of a number are the ones it is written with. */
  lemma Digits3(cp: nat, a: nat, b: nat, c: nat)
    requires b < 64 && c < 64 && cp == a * 4096 + b * 64 + c
    ensures cp / 4096 == a && cp / 64 % 64 == b && cp % 64 == c
  {
    Unique64(cp, a * 64 + b, c);
    Unique64(cp / 64, a, b);
    assert cp / 4096 == cp / 64 / 64;
  }

  lemma Digits4(cp: nat, a: nat, b: nat, c: nat, d: nat)
    requires b < 64 && c < 64 && d < 64 && cp == a * 262144 + b * 4096 + c * 64 + d
    ensures cp / 262144 == a && cp / 4096 % 64 == b && cp / 64 % 64 == c && cp % 64 == d
  {
    Unique64(cp, a * 4096 + b * 64 + c, d);
    Digits3(cp / 64, a, b, c);
    assert cp / 4096 == cp / 64 / 64 && cp / 262144 == cp / 64 / 4096;
  }

  lemma Encode3(cp: nat, a: nat, b: nat, c: nat)
    requires 0x800 <= cp < 0x10000 && b < 64 && c < 64 && cp == a * 4096 + b * 64 + c
    ensures Encode(cp) == [0xE0 + a, 0x80 + b, 0x80 + c]
  {
    Digits3(cp, a, b, c);
  }

  lemma Encode4(cp: nat, a: nat, b: nat, c: nat, d: nat)
    requires 0x10000 <= cp <= 0x10FFFF && b < 64 && c < 64 && d < 64
    requires cp == a * 262144 + b * 4096 + c * 64 + d
    ensures Encode(cp) == [0xF0 + a, 0x80 + b, 0x80 + c, 0x80 + d]
  {
    Digits4(cp, a, b, c, d);
  }

  lemma DecodeEncodes(cp: nat, t: seq<byte>)
    requires IsScalar(cp) && Decode(t) == Some(cp)
    ensures t == Encode(cp)
  {
    if |t| == 2 {
      Unique64(cp, t[0] - 0xC0, t[1] - 0x80);
    } else if |t| == 3 {
      DecodeEncodes3(cp, t);
    } else if |t| == 4 {
      DecodeEncodes4(cp, t);
    }
  }

  lemma DecodeEncodes3(cp: nat, t: seq<byte>)
    requires IsScalar(cp) && |t| == 3 && Decode(t) == Some(cp)
    ensures t == Encode(cp)
  {
    Encode3(cp, t[0] - 0xE0, t[1] - 0x80, t[2] - 0x80);
  }

  lemma DecodeEncodes4(cp: nat, t: seq<byte>)
    requires IsScalar(cp) && |t| == 4 && Decode(t) == Some(cp)
    ensures t == Encode(cp)
  {
    Encode4(cp, t[0] - 0xF0, t[1] - 0x80, t[2] - 0x80, t[3] - 0x80);
  }

  // ---------------------------------------------------------------- UTF-16 (RFC 2781)

  predicate IsHighSurrogate(u: int) {
    0xD800 <= u <= 0xDBFF
  }

  predicate IsLowSurrogate(u: int) {
    0xDC00 <= u <= 0xDFFF
  }

  /** The UTF-16 code units of a code point, section 2.1 of RFC 2781. */
  function Utf16(cp: nat): (u: seq<nat>)
    requires cp <= 0x10FFFF
  {
    if cp < 0x10000 then [cp]
    else [0xD800 + (cp - 0x10000) / 1024, 0xDC00 + (cp - 0x10000) % 1024]
  }

  // ---------------------------------------------------------------- escapes

  function HexDigit(c: byte): (d: Option<nat>)
    ensures d.Some? ==> d.value < 16
  {
    if 0x30 <= c <= 0x39 then Some(c - 0x30)
    else if 0x41 <= c <= 0x46 then Some(c - 0x41 + 10)
    else if 0x61 <= c <= 0x66 then Some(c - 0x61 + 10)
    else None
  }

  predicate IsHex4(s: seq<byte>, p: nat)
    requires p + 4 <= |s|
  {
    HexDigit(s[p]).Some? && HexDigit(s[p + 1]).Some? && HexDigit(s[p + 2]).Some? && HexDigit(s[p + 3]).Some?
  }

  /** The value of four hexadecimal digits; 0 when one of them is not a digit. */
  function Hex4(s: seq<byte>, p: nat): (h: nat)
    requires p + 4 <= |s|
    ensures h < 0x10000
  {
    if IsHex4(s, p) then
      4096 * HexDigit(s[p]).value + 256 * HexDigit(s[p + 1]).value
      + 16 * HexDigit(s[p + 2]).value + HexDigit(s[p + 3]).value
    else 0
  }

  /** What one \uXXXX or \uXXXX\uXXXX escape at p turns into, reading below e only:
      the bytes written and the length consumed, 0 when it is rejected. */
  datatype Literal = Literal(consumed: nat, output: seq<byte>)

  const REJECTED: Literal := Literal(0, [])

  function ReadLiteral(s: seq<byte>, p: nat, e: nat): (l: Literal)
    requires e <= |s|
    ensures l.consumed == 0 || l.consumed == 6 || l.consumed == 12
    ensures p + l.consumed <= e || l.consumed == 0
    ensures |l.output| <= 4
  {
    if e < p + 6 then REJECTED
    else
      var first := Hex4(s, p + 2);
      if IsLowSurrogate(first) then REJECTED
      else if IsHighSurrogate(first) then
        if e < p + 12 || s[p + 6] != BACKSLASH || s[p + 7] != 0x75 then REJECTED
        else
          var second := Hex4(s, p + 8);
          if !IsLowSurrogate(second) then REJECTED
          else Literal(12, Encode(0x10000 + (first - 0xD800) * 1024 + (second - 0xDC00)))
      else Literal(6, Encode(first))
  }

  /** A scalar value escaped as its UTF-16 code units decodes to its UTF-8 form, and
      well-formed hexadecimal decodes to nothing else: an accepted literal is the escape
      of exactly one scalar value, and an unpaired surrogate is rejected. */
  lemma LiteralMeetsStandards(s: seq<byte>, p: nat, e: nat, cp: nat)
    requires p + 6 <= e <= |s| && IsScalar(cp)
    ensures Utf16(cp) == [Hex4(s, p + 2)] <==> ReadLiteral(s, p, e) == Literal(6, Encode(cp))
    ensures p + 12 <= e && s[p + 6] == BACKSLASH && s[p + 7] == 0x75
            && Utf16(cp) == [Hex4(s, p + 2), Hex4(s, p + 8)]
            <==> ReadLiteral(s, p, e) == Literal(12, Encode(cp))
  {
    var l := ReadLiteral(s, p, e);
    var first := Hex4(s, p + 2);
    if l.consumed == 6 {
      EncodeInjective(first, cp);
    }
    if p + 12 <= e {
      PairMeetsStandards(s, p, e, cp);
    }
  }

  lemma PairMeetsStandards(s: seq<byte>, p: nat, e: nat, cp: nat)
    requires p + 12 <= e <= |s| && IsScalar(cp)
    ensures s[p + 6] == BACKSLASH && s[p + 7] == 0x75
            && Utf16(cp) == [Hex4(s, p + 2), Hex4(s, p + 8)]
            <==> ReadLiteral(s, p, e) == Literal(12, Encode(cp))
  {
    var first, second := Hex4(s, p + 2), Hex4(s, p + 8);
    SurrogatePair(cp, first, second);
    if IsHighSurrogate(first) && IsLowSurrogate(second) {
      EncodeInjective(0x10000 + (first - 0xD800) * 1024 + (second - 0xDC00), cp);
    }
  }

  /** Section 2.1 of RFC 2781 against section 2.2. */
  lemma SurrogatePair(cp: nat, first: nat, second: nat)
    requires IsScalar(cp)
    ensures Utf16(cp) == [first, second] <==>
            IsHighSurrogate(first) && IsLowSurrogate(second)
            && cp == 0x10000 + (first - 0xD800) * 1024 + (second - 0xDC00)
  {}

  lemma EncodeInjective(a: nat, b: nat)
    requires IsScalar(a) && IsScalar(b)
    ensures Encode(a) == Encode(b) <==> a == b
  {
    EncodeDecodes(a);
    EncodeDecodes(b);
  }

  /** The escapes at p, one or two in a row, are the UTF-16 form of cp. */
  predicate Escapes(s: seq<byte>, p: nat, e: nat, cp: nat)
    requires p + 6 <= e <= |s| && IsScalar(cp)
  {
    Utf16(cp) == [Hex4(s, p + 2)]
    || (p + 12 <= e && s[p + 6] == BACKSLASH && s[p + 7] == 0x75
        && Utf16(cp) == [Hex4(s, p + 2), Hex4(s, p + 8)])
  }

  /** A literal is rejected exactly when it is cut short or its code units are the UTF-16
      form of no scalar value; an accepted one is the UTF-8 form of the value it escapes. */
  lemma RejectedExactly(s: seq<byte>, p: nat, e: nat)
    requires e <= |s|
    ensures ReadLiteral(s, p, e).consumed == 0 <==>
            p + 6 > e || forall cp :: IsScalar(cp) ==> !Escapes(s, p, e, cp)
    ensures ReadLiteral(s, p, e).consumed != 0 ==>
            exists cp :: IsScalar(cp) && Escapes(s, p, e, cp) && ReadLiteral(s, p, e).output == Encode(cp)
  {
    if p + 6 <= e {
      forall cp | IsScalar(cp)
        ensures Escapes(s, p, e, cp) ==> ReadLiteral(s, p, e).consumed != 0
      {
        LiteralMeetsStandards(s, p, e, cp);
      }
      if ReadLiteral(s, p, e).consumed != 0 {
        var cp := EscapedValue(s, p, e);
      }
    }
  }

  /** The value that an accepted literal escapes. */
  lemma EscapedValue(s: seq<byte>, p: nat, e: nat) returns (cp: nat)
    requires p + 6 <= e <= |s| && ReadLiteral(s, p, e).consumed != 0
    ensures IsScalar(cp) && Escapes(s, p, e, cp) && ReadLiteral(s, p, e).output == Encode(cp)
  {
    cp := Hex4(s, p + 2);
    if IsHighSurrogate(cp) {
      var first, second := cp, Hex4(s, p + 8);
      cp := 0x10000 + (first - 0xD800) * 1024 + (second - 0xDC00);
      SurrogatePair(cp, first, second);
    }
  }

  /** parse_hex4: shift in one nibble after the other. */
  method ParseHex4(s: seq<byte>, p: nat) returns (h: nat)
    requires p + 4 <= |s|
    ensures h == Hex4(s, p)
  {
    h := 0;
    for i := 0 to 4
      invariant i >= 1 ==> HexDigit(s[p]).Some?
      invariant i >= 2 ==> HexDigit(s[p + 1]).Some?
      invariant i >= 3 ==> HexDigit(s[p + 2]).Some?
      invariant i == 0 ==> h == 0
      invariant i == 1 ==> h == 16 * HexDigit(s[p]).value
      invariant i == 2 ==> h == 256 * HexDigit(s[p]).value + 16 * HexDigit(s[p + 1]).value
      invariant i == 3 ==> h == 4096 * HexDigit(s[p]).value + 256 * HexDigit(s[p + 1]).value
                                + 16 * HexDigit(s[p + 2]).value
      invariant i == 4 ==> h == Hex4(s, p)
    {
      var c := s[p + i];
      if 0x30 <= c <= 0x39 {
        h := h + (c - 0x30);
      } else if 0x41 <= c <= 0x46 {
        h := h + (10 + c - 0x41);
      } else if 0x61 <= c <= 0x66 {
        h := h + (10 + c - 0x61);
      } else {
        return 0;
      }
      if i < 3 {
        h := h * 16;
      }
    }
  }

  /** (codepoint | 0x80) & 0xBF: a continuation byte of the six low bits. */
  lemma ContinuationByte(cp: nat)
    ensures And(Or(cp, 0x80), 0xBF) == 0x80 + cp % 64
  {
    SetBitSeven(cp);
    ClearBitSix(Or(cp, 0x80));
  }

  lemma SetBitSeven(cp: nat)
    ensures Or(cp, 0x80) % 64 == cp % 64
    ensures Or(cp, 0x80) / 128 % 2 == 1
  {
    OrPow2(cp, 7);
    BitSeven(cp);
    AddBitSeven(cp, Or(cp, Pow2(7)));
  }

  lemma AddBitSeven(cp: nat, x: nat)
    requires x == cp + (if cp / 128 % 2 == 1 then 0 else 128)
    ensures x % 64 == cp % 64 && x / 128 % 2 == 1
  {
    var q, r := cp / 128, cp % 128;
    Low64(cp, q, r);
    if q % 2 != 1 {
      Low64(x, q + 1, r);
    }
  }

  lemma Low64(n: nat, q: nat, r: nat)
    requires r < 128 && n == 128 * q + r
    ensures n / 128 == q && n % 64 == r % 64
  {
    if r < 64 {
      Unique64(n, 2 * q, r);
    } else {
      Unique64(n, 2 * q + 1, r - 64);
    }
  }

  lemma BitSeven(x: nat)
    ensures Bit(x, 7) <==> x / 128 % 2 == 1
  {
    BitThree(x, 7);
    BitThree(x / 8, 4);
    BitHalf(x / 8 / 8, 1);
    assert x / 8 / 8 / 2 == x / 128;
  }

  lemma ClearBitSix(x: nat)
    ensures And(x, 0xBF) == x % 64 + 128 * (x / 128 % 2)
  {
    AndThreeOnes(x, 0x17);
    AndThreeOnes(x / 8, 2);
    var w := x / 8 / 8;
    assert And(w, 2) == 2 * (w / 2 % 2) by {
      AndStep(w, 2);
      AndStep(w / 2, 1);
    }
    assert w == x / 64 && x % 8 + 8 * (x / 8 % 8) == x % 64;
    assert w / 2 == x / 128;
  }

  /** (codepoint | mark) & 0xFF, where the mark lies above the k bits of the code point. */
  lemma LeadByte(cp: nat, mark: nat, h: nat, k: nat)
    requires cp < Pow2(k) && mark == h * Pow2(k) && mark + cp < 256
    ensures And(Or(cp, mark), 0xFF) == mark + cp
  {
    OrCommutes(cp, mark);
    OrDisjoint(h, cp, k);
    LowEight(mark + cp);
  }

  lemma LowEight(x: nat)
    requires x < 256
    ensures And(x, 0xFF) == x
  {
    AndLowMask(x, 8);
    Small(x, 256);
  }

  /** 0x10000 + (((first & 0x3FF) << 10) | (second & 0x3FF)) for a surrogate pair. */
  lemma PairValue(first: nat, second: nat)
    requires IsHighSurrogate(first) && IsLowSurrogate(second)
    ensures Or(And(first, 0x3FF) * 1024, And(second, 0x3FF)) == (first - 0xD800) * 1024 + (second - 0xDC00)
  {
    LowTen(first, 54);
    LowTen(second, 55);
    OrDisjoint(first - 0xD800, second - 0xDC00, 10);
  }

  lemma LowTen(u: nat, q: nat)
    requires q * 1024 <= u < q * 1024 + 1024
    ensures And(u, 0x3FF) == u - q * 1024
  {
    AndLowMask(u, 10);
    DivModUnique(u, 1024, q, u - q * 1024);
  }

  /** What is left of the code point when the loop of EncodeInto reaches byte i. */
  function Shifted(cp: nat, n: nat): nat {
    if n == 0 then cp else Shifted(cp, n - 1) / 64
  }

  lemma ShiftedBytes(cp: nat, i: nat)
    requires cp <= 0x10FFFF && i < |Encode(cp)|
    ensures i > 0 ==> Encode(cp)[i] == 0x80 + Shifted(cp, |Encode(cp)| - 1 - i) % 64
  {
    assert Shifted(cp, 0) == cp && Shifted(cp, 1) == cp / 64 && Shifted(cp, 2) == cp / 64 / 64;
  }

  lemma ShiftedLead(cp: nat, mark: nat)
    requires cp <= 0x10FFFF && |Encode(cp)| > 1 && mark == LeadMark(|Encode(cp)|)
    ensures And(Or(Shifted(cp, |Encode(cp)| - 1), mark), 0xFF) == Encode(cp)[0]
  {
    assert Shifted(cp, 1) == cp / 64 && Shifted(cp, 2) == cp / 64 / 64 && Shifted(cp, 3) == cp / 64 / 64 / 64;
    if |Encode(cp)| == 2 {
      LeadByte(cp / 64, mark, 6, 5);
    } else if |Encode(cp)| == 3 {
      LeadByte(cp / 64 / 64, mark, 14, 4);
    } else {
      LeadByte(cp / 64 / 64 / 64, mark, 30, 3);
    }
  }

  lemma LeadAscii(cp: nat)
    requires cp < 0x80
    ensures And(cp, 0x7F) == cp && Encode(cp)[0] == cp
  {
    AndLowMask(cp, 7);
    Small(cp, 128);
  }

  /** The bits that mark the lead byte of a form of n bytes. */
  function LeadMark(n: nat): nat
    requires 1 <= n <= 4
  {
    match n case 1 => 0 case 2 => 0xC0 case 3 => 0xE0 case 4 => 0xF0
  }

  method Continuation(cp: nat) returns (b: byte)
    ensures b == 0x80 + cp % 64
  {
    ContinuationByte(cp);
    b := And(Or(cp, 0x80), 0xBF);
  }

  method Lead(ghost codepoint: nat, cp: nat, length: nat, mark: nat) returns (b: byte)
    requires codepoint <= 0x10FFFF && length == |Encode(codepoint)| && mark == LeadMark(length)
    requires cp == Shifted(codepoint, length - 1)
    ensures b == Encode(codepoint)[0]
  {
    if length > 1 {
      ShiftedLead(codepoint, mark);
      b := And(Or(cp, mark), 0xFF);
    } else {
      LeadAscii(codepoint);
      b := And(cp, 0x7F);
    }
  }

  /** The encoding loop of utf16_literal_to_utf8: bytes go in from the last to the
      second while the code point is shifted right, the lead byte goes in last. */
  method EncodeInto(codepoint: nat, output: array<byte>, pos: nat)
    requires codepoint <= 0x10FFFF
    requires pos + |Encode(codepoint)| <= output.Length
    modifies output
    ensures forall k :: pos <= k < pos + |Encode(codepoint)| ==> output[k] == Encode(codepoint)[k - pos]
    ensures forall k :: 0 <= k < pos || pos + |Encode(codepoint)| <= k < output.Length ==> output[k] == old(output[k])
  {
    var length, mark := 1, 0;
    if codepoint >= 0x10000 {
      length, mark := 4, 0xF0;
    } else if codepoint >= 0x800 {
      length, mark := 3, 0xE0;
    } else if codepoint >= 0x80 {
      length, mark := 2, 0xC0;
    }
    ghost var form := Encode(codepoint);
    var cp := codepoint;
    var i := length - 1;
    while i > 0
      invariant 0 <= i < length == |form|
      invariant cp == Shifted(codepoint, length - 1 - i)
      invariant forall k :: pos + i < k < pos + length ==> output[k] == form[k - pos]
      invariant forall k :: 0 <= k < pos || pos + length <= k < output.Length ==> output[k] == old(output[k])
    {
      ShiftedBytes(codepoint, i);
      output[pos + i] := Continuation(cp);
      cp := cp / 64;
      i := i - 1;
    }
    output[pos] := Lead(codepoint, cp, length, mark);
  }

  /** A surrogate pair in two consecutive escapes is read as one code point. */
  lemma PairIsRead(s: seq<byte>, p: nat, e: nat, cp: nat)
    requires p + 12 <= e <= |s| && s[p + 6] == BACKSLASH && s[p + 7] == 0x75
    requires IsHighSurrogate(Hex4(s, p + 2)) && IsLowSurrogate(Hex4(s, p + 8))
    requires cp == 0x10000 + (Hex4(s, p + 2) - 0xD800) * 1024 + (Hex4(s, p + 8) - 0xDC00)
    ensures cp <= 0x10FFFF && ReadLiteral(s, p, e) == Literal(12, Encode(cp))
  {}

  /** The first half of utf16_literal_to_utf8: the code point and the length of the
      escape, 0 when it is rejected. */
  method ReadCodepoint(s: seq<byte>, p: nat, e: nat) returns (codepoint: nat, length: nat)
    requires e <= |s|
    ensures codepoint <= 0x10FFFF
    ensures ReadLiteral(s, p, e) == if length == 0 then REJECTED else Literal(length, Encode(codepoint))
  {
    codepoint, length := 0, 0;
    if e < p + 6 {
      return;
    }
    var first := ParseHex4(s, p + 2);
    if 0xDC00 <= first <= 0xDFFF {
      return;
    }
    if 0xD800 <= first <= 0xDBFF {
      if e < p + 12 || s[p + 6] != BACKSLASH || s[p + 7] != 0x75 {
        return;
      }
      var second := ParseHex4(s, p + 8);
      if second < 0xDC00 || second > 0xDFFF {
        return;
      }
      PairValue(first, second);
      codepoint := 0x10000 + Or(And(first, 0x3FF) * 1024, And(second, 0x3FF));
      length := 12;
      PairIsRead(s, p, e, codepoint);
    } else {
      codepoint, length := first, 6;
    }
  }

  /** utf16_literal_to_utf8: writes the bytes at pos, returns the length consumed (0 on
      failure) and the new write position. */
  method Utf16LiteralToUtf8(s: seq<byte>, p: nat, e: nat, output: array<byte>, pos: nat)
    returns (consumed: nat, next: nat)
    requires e <= |s|
    requires pos + |ReadLiteral(s, p, e).output| <= output.Length
    modifies output
    ensures var l := ReadLiteral(s, p, e);
            consumed == l.consumed && next == pos + |l.output|
    ensures forall k :: pos <= k < next ==> output[k] == ReadLiteral(s, p, e).output[k - pos]
    ensures forall k :: 0 <= k < pos || next <= k < output.Length ==> output[k] == old(output[k])
  {
    var codepoint, length := ReadCodepoint(s, p, e);
    if length == 0 {
      return 0, pos;
    }
    EncodeInto(codepoint, output, pos);
    consumed, next := length, pos + |Encode(codepoint)|;
  }
}

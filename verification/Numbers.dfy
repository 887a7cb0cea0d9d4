/** Number texts: the "%d" format and the decimal grammar of strtod, with real
    numbers in place of doubles. */
module Numbers {
  import opened Bytes

  function Decimal(n: nat): (t: cstr)
    ensures t != [] && forall i :: 0 <= i < |t| ==> IsDigit(t[i])
  {
    if n < 10 then [DIGIT0 + n] else Decimal(n / 10) + [DIGIT0 + n % 10]
  }

  /** No leading zero but in "0" itself. */
  predicate Canonical(t: seq<byte>) {
    && t != []
    && (forall k :: 0 <= k < |t| ==> IsDigit(t[k]))
    && (|t| > 1 ==> t[0] != DIGIT0)
  }

  lemma {:induction false} DecimalIsCanonical(n: nat)
    ensures Canonical(Decimal(n))
    ensures n > 0 ==> Decimal(n)[0] != DIGIT0
  {
    if n >= 10 {
      DecimalIsCanonical(n / 10);
    }
  }

  /** "%d". */
  function IntText(n: int): (t: cstr)
    ensures t != []
  {
    if n < 0 then [MINUS] + Decimal(-n) else Decimal(n)
  }

  /** The characters that parse_number collects. */
  predicate IsNumberChar(c: byte) {
    IsDigit(c) || c == PLUS || c == MINUS || c == 0x65 || c == 0x45 || c == DOT
  }

  /** The end of the run of number characters that starts at o. */
  function SpanEnd(s: seq<byte>, o: nat): (e: nat)
    requires o <= |s|
    ensures o <= e <= |s|
    decreases |s| - o
  {
    if o < |s| && IsNumberChar(s[o]) then SpanEnd(s, o + 1) else o
  }

  function DigitsEnd(t: seq<byte>, i: nat): (e: nat)
    requires i <= |t|
    ensures i <= e <= |t|
    ensures forall k :: i <= k < e ==> IsDigit(t[k])
    decreases |t| - i
  {
    if i < |t| && IsDigit(t[i]) then DigitsEnd(t, i + 1) else i
  }

  function DigitValue(c: byte): nat
    requires IsDigit(c)
  {
    c - 0x30
  }

  /** The value of the digits t[i..j]. */
  function DigitsValue(t: seq<byte>, i: nat, j: nat): (n: nat)
    requires i <= j <= |t| && forall k :: i <= k < j ==> IsDigit(t[k])
    decreases j - i
  {
    if i == j then 0 else 10 * DigitsValue(t, i, j - 1) + DigitValue(t[j - 1])
  }

  function Power10(e: int): real
    decreases if e < 0 then -e else e
  {
    if e == 0 then 1.0 else if e > 0 then 10.0 * Power10(e - 1) else Power10(e + 1) / 10.0
  }

  /** Where an exponent that may start at b ends; b when there is none. */
  function ExponentEnd(t: seq<byte>, b: nat): (e: nat)
    requires b <= |t|
    ensures b <= e <= |t|
  {
    if b < |t| && (t[b] == 0x65 || t[b] == 0x45) then
      var j := SignEnd(t, b + 1);
      var c := DigitsEnd(t, j);
      if c == j then b else c
    else b
  }

  function SignEnd(t: seq<byte>, i: nat): (e: nat)
    requires i <= |t|
    ensures i <= e <= |t|
  {
    if i < |t| && (t[i] == PLUS || t[i] == MINUS) then i + 1 else i
  }

  function Signed(t: seq<byte>, i: nat, n: nat): int
    requires i <= |t|
  {
    if i < |t| && t[i] == MINUS then -(n as int) else n
  }

  function ExponentValue(t: seq<byte>, b: nat): int
    requires b <= |t|
  {
    if ExponentEnd(t, b) == b then 0
    else
      var j := SignEnd(t, b + 1);
      Signed(t, b + 1, DigitsValue(t, j, DigitsEnd(t, j)))
  }

  datatype Conversion = Conversion(value: real, consumed: nat)

  /** The places behind a point at a when the digits end at b. */
  function Places(a: nat, b: nat): nat {
    if b > a then b - (a + 1) else 0
  }

  /** The digits before and behind a point at a, as one integer. */
  function Units(t: seq<byte>, i: nat, a: nat, b: nat): nat
    requires i <= a <= b <= |t| && (forall k :: i <= k < a ==> IsDigit(t[k]))
    requires forall k :: a < k < b ==> IsDigit(t[k])
  {
    DigitsValue(t, i, a) * Ten(Places(a, b)) + if b > a then DigitsValue(t, a + 1, b) else 0
  }

  function Shifted(m: nat, e: int): real {
    m as real * Power10(e)
  }

  /** strtod on a text of number characters: optional sign, digits with an optional
      point, optional exponent; the longest such prefix. None: no conversion. */
  function Strtod(t: seq<byte>): (r: Option<Conversion>)
    ensures r.Some? ==> 0 < r.value.consumed <= |t|
  {
    var i := SignEnd(t, 0);
    var a := DigitsEnd(t, i);
    var b := if a < |t| && t[a] == DOT then DigitsEnd(t, a + 1) else a;
    if a - i + Places(a, b) == 0 then None
    else
      var magnitude := Shifted(Units(t, i, a, b), ExponentValue(t, b) - Places(a, b));
      Some(Conversion(if t[0] == MINUS then -magnitude else magnitude, ExponentEnd(t, b)))
  }

  function Ten(k: nat): nat {
    if k == 0 then 1 else 10 * Ten(k - 1)
  }

  lemma {:induction false} DecimalLength(n: nat, k: nat)
    requires k > 0 && n < Ten(k)
    ensures |Decimal(n)| <= k
  {
    assert Ten(1) == 10;
    if n >= 10 && k > 1 {
      DecimalLength(n / 10, k - 1);
    }
  }

  /** "%d" of a 32-bit integer fits the number buffer. */
  lemma IntTextLength(n: int)
    requires INT_MIN <= n <= INT_MAX
    ensures |IntText(n)| <= 11
  {
    assert Ten(10) == 10000000000;
    DecimalLength(if n < 0 then -n else n, 10);
  }

  // ---------------------------------------------------------------- round trip

  lemma {:induction false} DecimalValue(n: nat)
    ensures DigitsValue(Decimal(n), 0, |Decimal(n)|) == n
  {
    if n < 10 {
      assert DigitsValue(Decimal(n), 0, 1) == 10 * DigitsValue(Decimal(n), 0, 0) + n;
    } else {
      var h := Decimal(n / 10);
      DecimalValue(n / 10);
      LastDigit(h, DIGIT0 + n % 10);
      assert Decimal(n) == h + [DIGIT0 + n % 10];
    }
  }

  lemma LastDigit(h: cstr, c: cchar)
    requires IsDigit(c) && forall k :: 0 <= k < |h| ==> IsDigit(h[k])
    ensures DigitsValue(h + [c], 0, |h| + 1) == 10 * DigitsValue(h, 0, |h|) + DigitValue(c)
  {
    DigitsValueShift(h, h + [c], 0, 0, |h|);
  }

  lemma {:induction false} DigitsValueShift(u: seq<byte>, t: seq<byte>, i: nat, d: nat, j: nat)
    requires i <= j <= |u| && d + j <= |t|
    requires forall k :: i <= k < j ==> IsDigit(u[k]) && t[d + k] == u[k]
    requires forall k :: d + i <= k < d + j ==> IsDigit(t[k])
    ensures DigitsValue(t, d + i, d + j) == DigitsValue(u, i, j)
    decreases j - i
  {
    if i < j {
      DigitsValueShift(u, t, i, d, j - 1);
    }
  }

  lemma {:induction false} AllDigitsEnd(t: seq<byte>, i: nat)
    requires i <= |t| && forall k :: i <= k < |t| ==> IsDigit(t[k])
    ensures DigitsEnd(t, i) == |t|
    decreases |t| - i
  {
    if i < |t| {
      AllDigitsEnd(t, i + 1);
    }
  }

  /** strtod reads back what "%d" printed, all of it. */
  lemma StrtodOfInt(n: int)
    ensures Strtod(IntText(n)) == Some(Conversion(n as real, |IntText(n)|))
  {
    var t := IntText(n);
    var i := if n < 0 then 1 else 0;
    var m := if n < 0 then -n else n;
    var u := Decimal(m);
    assert IsDigit(u[0]);
    AllDigitsEnd(t, i);
    DecimalValue(m);
    DigitsValueShift(u, t, 0, i, |u|);
    StrtodOfDigits(t, i, m);
  }

  lemma StrtodOfDigits(t: seq<byte>, i: nat, v: nat)
    requires i < |t| && SignEnd(t, 0) == i && DigitsEnd(t, i) == |t|
    requires DigitsValue(t, i, |t|) == v
    ensures Strtod(t) == Some(Conversion(if t[0] == MINUS then -(v as real) else v as real, |t|))
  {
    assert ExponentValue(t, |t|) == 0;
    assert Power10(0) == 1.0 && Ten(0) == 1;
    TimesOne(v as real);
  }

  lemma TimesOne(x: real)
    ensures x * 1.0 == x
  {}

  lemma {:induction false} SpanOfNumber(s: seq<byte>, o: nat, t: seq<byte>)
    requires At(s, o, t) && forall i :: 0 <= i < |t| ==> IsNumberChar(t[i])
    requires o + |t| < |s| ==> !IsNumberChar(s[o + |t|])
    ensures SpanEnd(s, o) == o + |t|
    decreases |t|
  {
    if t != [] {
      AtIndex(s, o, t, 0);
      assert t == t[..1] + t[1..];
      AtConcat(s, o, t[..1], t[1..]);
      SpanOfNumber(s, o + 1, t[1..]);
    }
  }
}

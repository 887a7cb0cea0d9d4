/** Number texts by section 6 of RFC 8259, with what the parser takes beyond it, and the value
    they have, written out in numbers. */
module NumberGrammar {
  import opened Bytes
  import opened Json
  import opened Numbers
  import opened ParseSpec

  predicate DigitAt(s: seq<byte>, i: nat) {
    i < |s| && 0x30 <= s[i] <= 0x39
  }

  predicate SignAt(s: seq<byte>, i: nat) {
    i < |s| && (s[i] == 0x2B || s[i] == 0x2D)
  }

  predicate CharAt(s: seq<byte>, i: nat, c: byte) {
    i < |s| && s[i] == c
  }

  /** Digits from i to j, and no digit behind them. */
  predicate Digits(s: seq<byte>, i: nat, j: nat) {
    i <= j <= |s| && (forall k | i <= k < j :: 0x30 <= s[k] <= 0x39) && !DigitAt(s, j)
  }

  function Value(s: seq<byte>, i: nat, j: nat): nat
    requires i <= j <= |s| && forall k | i <= k < j :: 0x30 <= s[k] <= 0x39
    decreases j - i
  {
    if i == j then 0 else 10 * Value(s, i, j - 1) + (s[j - 1] - 0x30)
  }

  /** The letter e, a sign or none, and digits; no exponent where there are no digits. */
  predicate Exponent(s: seq<byte>, b: nat, n: nat, e: int) {
    var j := if SignAt(s, b + 1) then b + 2 else b + 1;
    if (CharAt(s, b, 0x65) || CharAt(s, b, 0x45)) && DigitAt(s, j)
    then Digits(s, j, n) && e == if s[b + 1] == 0x2D then -(Value(s, j, n) as int) else Value(s, j, n)
    else n == b && e == 0
  }

  function Power(k: nat): nat {
    if k == 0 then 1 else 10 * Power(k - 1)
  }

  /** x is m with the point moved e places to the right, or -e places to the left. */
  predicate Moved(x: real, m: int, e: int) {
    if e >= 0 then x == (m * Power(e)) as real else x * Power(-e) as real == m as real
  }

  /** Where the digits start: behind a minus if there is one. */
  function Unsigned(s: seq<byte>, o: nat): nat {
    if CharAt(s, o, 0x2D) then o + 1 else o
  }

  /** A minus or none, digits up to a, a point with digits up to b or none, and at least one
      digit in all. */
  predicate Mantissa(s: seq<byte>, o: nat, a: nat, b: nat) {
    && (CharAt(s, o, 0x2D) || DigitAt(s, o))
    && Digits(s, Unsigned(s, o), a)
    && (if CharAt(s, a, 0x2E) then Digits(s, a + 1, b) else b == a)
    && (a > Unsigned(s, o) || b > a + 1)
  }

  /** All its digits as one integer, with the point moved over the places behind it and by the
      exponent. */
  predicate Worth(s: seq<byte>, o: nat, a: nat, b: nat, e: int, x: real)
    requires Mantissa(s, o, a, b)
  {
    var places := if b > a then b - (a + 1) else 0;
    var m := Value(s, Unsigned(s, o), a) * Power(places) + if b > a then Value(s, a + 1, b) else 0;
    Moved(x, if CharAt(s, o, 0x2D) then -(m as int) else m, e - places)
  }

  /** A number from o to n. Nothing that could go on one of its parts is left behind that part. */
  predicate Number(s: seq<byte>, o: nat, a: nat, b: nat, n: nat, e: int, x: real) {
    Mantissa(s, o, a, b) && Exponent(s, b, n, e) && Worth(s, o, a, b, e, x)
  }

  ghost predicate NumberAt(s: seq<byte>, o: nat, n: nat, x: real) {
    exists a: nat, b: nat, e: int :: Number(s, o, a, b, n, e, x)
  }

  /** RFC 8259: no zero in front of other digits, and digits on both sides of the point. */
  ghost predicate StrictNumberAt(s: seq<byte>, o: nat, n: nat, x: real) {
    exists a: nat, b: nat, e: int ::
      && Number(s, o, a, b, n, e, x)
      && a > Unsigned(s, o) && (CharAt(s, Unsigned(s, o), 0x30) ==> a == Unsigned(s, o) + 1)
      && (b > a ==> b > a + 1)
  }

  // ---------------------------------------------------------------- the same as strtod

  lemma {:induction false} DigitsAre(s: seq<byte>, i: nat, j: nat)
    requires i <= |s|
    ensures Digits(s, i, j) <==> j == DigitsEnd(s, i)
    decreases |s| - i
  {
    if DigitAt(s, i) {
      DigitsAre(s, i + 1, j);
    }
  }

  lemma {:induction false} PowerIs(k: nat)
    ensures Power(k) > 0 && Power10(k) == Power(k) as real
  {
    if k > 0 {
      PowerIs(k - 1);
    }
  }

  lemma {:induction false} InverseIs(k: nat)
    ensures Power10(-(k as int)) * Power(k) as real == 1.0
  {
    if k > 0 {
      var n: nat := k - 1;
      InverseIs(n);
      Tenth(Power10(-(n as int)), Power(n) as real);
    }
  }

  lemma Tenth(p: real, q: real)
    ensures (p / 10.0) * (10.0 * q) == p * q
  {}

  lemma {:induction false} RealProduct(a: nat, b: nat)
    ensures (a * b) as real == a as real * b as real
  {
    if a > 0 {
      RealProduct(a - 1, b);
      assert a * b == (a - 1) * b + b;
      assert a as real * b as real == (a - 1) as real * b as real + b as real;
    }
  }

  lemma Inverse(x: real, m: real, f: real, q: real)
    requires q > 0.0 && f * q == 1.0
    ensures x * q == m <==> x == m * f
  {
    assert m * f * q == m * (f * q);
    if x * q == m {
      assert (x - m * f) * q == 0.0;
    }
  }

  /** There is one number like that, the one that strtod forms. */
  lemma MovedIs(x: real, m: nat, e: int)
    ensures Moved(x, m, e) <==> x == m as real * Power10(e)
  {
    if e >= 0 {
      MovedRight(x, m, e);
    } else {
      MovedLeft(x, m, -e);
    }
  }

  lemma MovedRight(x: real, m: nat, k: nat)
    ensures x == (m * Power(k)) as real <==> x == m as real * Power10(k)
  {
    PowerIs(k);
    RealProduct(m, Power(k));
  }

  lemma MovedLeft(x: real, m: nat, k: nat)
    ensures x * Power(k) as real == m as real <==> x == m as real * Power10(-(k as int))
  {
    InverseIs(k);
    PowerIs(k);
    Inverse(x, m as real, Power10(-(k as int)), Power(k) as real);
  }

  lemma MovedNegated(x: real, m: nat, e: int)
    ensures Moved(x, -(m as int), e) <==> Moved(-x, m, e)
  {
    if e >= 0 {
      Minus(m, Power(e));
    } else {
      RealMinus(x, Power(-e) as real);
    }
  }

  lemma Minus(a: int, b: int)
    ensures (-a) * b == -(a * b)
  {}

  lemma RealMinus(a: real, b: real)
    ensures (-a) * b == -(a * b)
  {}

  // ---------------------------------------------------------------- the collected characters

  /** A number character further on. */
  lemma {:induction false} SpanReaches(s: seq<byte>, o: nat)
    requires o <= |s|
    ensures var e := SpanEnd(s, o);
            (forall k | o <= k < e :: IsNumberChar(s[k])) && (e < |s| ==> !IsNumberChar(s[e]))
    decreases |s| - o
  {
    if o < |s| && IsNumberChar(s[o]) {
      SpanReaches(s, o + 1);
    }
  }

  /** t is what is collected from o on. */
  predicate Collected(s: seq<byte>, o: nat, t: seq<byte>) {
    o + |t| <= |s| && t == s[o..o + |t|] && (o + |t| < |s| ==> !IsNumberChar(s[o + |t|]))
  }

  /** What is next in the collected characters is next in the input. */
  lemma SameNext(s: seq<byte>, o: nat, t: seq<byte>, k: nat, p: nat)
    requires Collected(s, o, t) && k <= |t| && p == o + k
    ensures p <= |s| && (DigitAt(s, p) <==> DigitAt(t, k)) && (SignAt(s, p) <==> SignAt(t, k))
    ensures (CharAt(s, p, 0x2E) <==> CharAt(t, k, 0x2E)) && (CharAt(s, p, 0x2D) <==> CharAt(t, k, 0x2D))
    ensures (CharAt(s, p, 0x65) <==> CharAt(t, k, 0x65)) && (CharAt(s, p, 0x45) <==> CharAt(t, k, 0x45))
  {
    if k < |t| {
      assert t[k] == s[p];
    }
  }

  /** So are the digits from some place on. */
  lemma SameDigits(s: seq<byte>, o: nat, t: seq<byte>, i: nat, p: nat) returns (j: nat, q: nat)
    requires Collected(s, o, t) && i <= |t| && p == o + i
    ensures j == DigitsEnd(t, i) && q == o + j && q == DigitsEnd(s, p) && Digits(s, p, q)
    ensures Value(s, p, q) == DigitsValue(t, i, j)
  {
    j := DigitsEnd(t, i);
    q := o + j;
    DigitsAre(t, i, j);
    SameNext(s, o, t, j, q);
    forall k | p <= k < q
      ensures 0x30 <= s[k] <= 0x39
    {
      assert t[k - o] == s[k];
    }
    SameValue(s, o, t, i, j);
    DigitsAre(s, p, q);
  }

  lemma {:induction false} SameValue(s: seq<byte>, o: nat, t: seq<byte>, i: nat, j: nat)
    requires i <= j <= |t| && o + |t| <= |s| && t == s[o..o + |t|]
    requires (forall k | i <= k < j :: 0x30 <= t[k] <= 0x39) && forall k | o + i <= k < o + j :: 0x30 <= s[k] <= 0x39
    ensures Value(s, o + i, o + j) == DigitsValue(t, i, j)
    decreases j - i
  {
    if i < j {
      SameValue(s, o, t, i, j - 1);
      assert t[j - 1] == s[o + (j - 1)];
    }
  }

  lemma ExponentIs(s: seq<byte>, o: nat, t: seq<byte>, b: nat, q: nat, n: nat, e: int)
    requires Collected(s, o, t) && b <= |t| && q == o + b
    ensures Exponent(s, q, n, e) <==> n == o + ExponentEnd(t, b) && e == ExponentValue(t, b)
  {
    SameNext(s, o, t, b, q);
    if b < |t| && (t[b] == 0x65 || t[b] == 0x45) {
      SameNext(s, o, t, b + 1, q + 1);
      if SignAt(t, b + 1) {
        DigitsFrom(s, o, t, b + 2, q + 2, n);
        assert s[q + 1] == t[b + 1];
      } else {
        DigitsFrom(s, o, t, b + 1, q + 1, n);
      }
    }
  }

  lemma DigitsFrom(s: seq<byte>, o: nat, t: seq<byte>, j: nat, p: nat, n: nat)
    requires Collected(s, o, t) && j <= |t| && p == o + j
    ensures DigitAt(s, p) <==> DigitsEnd(t, j) > j
    ensures Digits(s, p, n) <==> n == o + DigitsEnd(t, j)
    ensures Digits(s, p, n) ==> Value(s, p, n) == DigitsValue(t, j, DigitsEnd(t, j))
  {
    var c, q := SameDigits(s, o, t, j, p);
    DigitsAre(s, p, n);
    SameNext(s, o, t, j, p);
  }

  /** The sign, the point and the digits that strtod finds. */
  predicate Found(t: seq<byte>, i: nat, a: nat, b: nat) {
    && i == SignEnd(t, 0) && i <= |t| && a == DigitsEnd(t, i)
    && b == if CharAt(t, a, 0x2E) then DigitsEnd(t, a + 1) else a
  }

  lemma StrtodParts(t: seq<byte>, i: nat, a: nat, b: nat)
    requires Found(t, i, a, b) && !CharAt(t, 0, 0x2B)
    ensures Strtod(t).Some? <==> a > i || b > a + 1
    ensures Strtod(t).Some? ==>
              var x := Shifted(Units(t, i, a, b), ExponentValue(t, b) - Places(a, b));
              Strtod(t).value == Conversion(if i > 0 then -x else x, ExponentEnd(t, b))
  {}

  lemma {:induction false} TenIs(k: nat)
    ensures Ten(k) == Power(k)
  {
    if k > 0 {
      TenIs(k - 1);
    }
  }

  /** The digits of a number in the input are those that strtod finds. */
  lemma MantissaIs(s: seq<byte>, o: nat, t: seq<byte>, i: nat, a: nat, b: nat) returns (p: nat, x: nat, y: nat)
    requires Collected(s, o, t) && Found(t, i, a, b) && !CharAt(t, 0, 0x2B)
    ensures b <= |t| && i <= a <= b && p == o + i && x == o + a && y == o + b <= |s|
    ensures p == Unsigned(s, o) && (CharAt(s, o, 0x2D) <==> i > 0)
    ensures x == DigitsEnd(s, p) && (CharAt(s, x, 0x2E) <==> CharAt(t, a, 0x2E))
    ensures if CharAt(t, a, 0x2E) then b > a && y == DigitsEnd(s, x + 1) else b == a
    ensures Digits(s, p, x) && (b > a ==> Digits(s, x + 1, y))
    ensures Value(s, p, x) * Power(Places(a, b)) + (if b > a then Value(s, x + 1, y) else 0) == Units(t, i, a, b)
  {
    SameNext(s, o, t, 0, o);
    p := o + i;
    var j;
    j, x := SameDigits(s, o, t, i, p);
    SameNext(s, o, t, a, x);
    TenIs(Places(a, b));
    y := x;
    if CharAt(t, a, 0x2E) {
      j, y := SameDigits(s, o, t, a + 1, x + 1);
    }
  }

  lemma ValueIsMoved(x: real, neg: bool, m: nat, e: int)
    ensures Moved(x, if neg then -(m as int) else m, e) <==> x == if neg then -Shifted(m, e) else Shifted(m, e)
  {
    if neg {
      MovedNegated(x, m, e);
      MovedIs(-x, m, e);
    } else {
      MovedIs(x, m, e);
    }
  }

  /** A number stands in the input just as far and with just the value that strtod finds in what
      is collected. */
  lemma NumberIsStrtod(s: seq<byte>, o: nat, t: seq<byte>, n: nat, x: real)
    requires Collected(s, o, t) && (CharAt(s, o, 0x2D) || DigitAt(s, o))
    ensures NumberAt(s, o, n, x) <==>
            Strtod(t).Some? && n == o + Strtod(t).value.consumed && x == Strtod(t).value.value
  {
    SameNext(s, o, t, 0, o);
    var i := SignEnd(t, 0);
    var a := DigitsEnd(t, i);
    var b := if CharAt(t, a, 0x2E) then DigitsEnd(t, a + 1) else a;
    if Strtod(t).Some? && n == o + Strtod(t).value.consumed && x == Strtod(t).value.value {
      FromStrtod(s, o, t, i, a, b, n, x);
    }
    if NumberAt(s, o, n, x) {
      var a': nat, b': nat, e: int :| Number(s, o, a', b', n, e, x);
      ToStrtod(s, o, t, i, a, b, a', b', n, e, x);
    }
  }

  lemma FromStrtod(s: seq<byte>, o: nat, t: seq<byte>, i: nat, a: nat, b: nat, n: nat, x: real)
    requires Collected(s, o, t) && (CharAt(s, o, 0x2D) || DigitAt(s, o)) && !CharAt(t, 0, 0x2B)
    requires Found(t, i, a, b)
    requires Strtod(t).Some? && n == o + Strtod(t).value.consumed && x == Strtod(t).value.value
    ensures NumberAt(s, o, n, x)
  {
    StrtodParts(t, i, a, b);
    PartsAre(s, o, t, i, a, b, o + a, o + b, n, ExponentValue(t, b), x);
  }

  lemma ToStrtod(s: seq<byte>, o: nat, t: seq<byte>, i: nat, a: nat, b: nat,
                 a': nat, b': nat, n: nat, e: int, x: real)
    requires Collected(s, o, t) && (CharAt(s, o, 0x2D) || DigitAt(s, o)) && !CharAt(t, 0, 0x2B)
    requires Found(t, i, a, b) && Number(s, o, a', b', n, e, x)
    ensures Strtod(t).Some? && n == o + Strtod(t).value.consumed && x == Strtod(t).value.value
  {
    PartsAre(s, o, t, i, a, b, a', b', n, e, x);
    StrtodParts(t, i, a, b);
  }

  lemma ShapeIs(s: seq<byte>, o: nat, t: seq<byte>, i: nat, a: nat, b: nat, a': nat, b': nat)
    requires Collected(s, o, t) && (CharAt(s, o, 0x2D) || DigitAt(s, o)) && !CharAt(t, 0, 0x2B)
    requires Found(t, i, a, b)
    ensures Mantissa(s, o, a', b') <==> a' == o + a && b' == o + b && (a > i || b > a + 1)
  {
    var p, x, y := MantissaIs(s, o, t, i, a, b);
    DigitsAre(s, p, a');
    if a' == x && CharAt(t, a, 0x2E) {
      DigitsAre(s, x + 1, b');
    }
  }

  lemma WorthIs(s: seq<byte>, o: nat, t: seq<byte>, i: nat, a: nat, b: nat, a': nat, b': nat, e: int, x: real)
    requires Collected(s, o, t) && Found(t, i, a, b) && !CharAt(t, 0, 0x2B)
    requires a' == o + a && b' == o + b && Mantissa(s, o, a', b')
    ensures var m := Shifted(Units(t, i, a, b), e - Places(a, b));
            Worth(s, o, a', b', e, x) <==> x == if i > 0 then -m else m
  {
    var p, y, z := MantissaIs(s, o, t, i, a, b);
    WorthOf(s, o, a', b', e, x, Places(a, b), Units(t, i, a, b));
    ValueIsMoved(x, i > 0, Units(t, i, a, b), e - Places(a, b));
  }

  lemma WorthOf(s: seq<byte>, o: nat, a: nat, b: nat, e: int, x: real, places: nat, m: nat)
    requires Mantissa(s, o, a, b) && places == Places(a, b)
    requires m == Value(s, Unsigned(s, o), a) * Power(places) + if b > a then Value(s, a + 1, b) else 0
    ensures Worth(s, o, a, b, e, x) <==> Moved(x, if CharAt(s, o, 0x2D) then -(m as int) else m, e - places)
  {}

  lemma PartsAre(s: seq<byte>, o: nat, t: seq<byte>, i: nat, a: nat, b: nat,
                 a': nat, b': nat, n: nat, e: int, x: real)
    requires Collected(s, o, t) && (CharAt(s, o, 0x2D) || DigitAt(s, o)) && !CharAt(t, 0, 0x2B)
    requires Found(t, i, a, b)
    ensures var m := Shifted(Units(t, i, a, b), e - Places(a, b));
            Number(s, o, a', b', n, e, x) <==>
            a' == o + a && b' == o + b && (a > i || b > a + 1) && e == ExponentValue(t, b)
            && n == o + ExponentEnd(t, b) && x == if i > 0 then -m else m
  {
    ShapeIs(s, o, t, i, a, b, a', b');
    if Mantissa(s, o, a', b') {
      ExponentIs(s, o, t, b, b', n, e);
      WorthIs(s, o, t, i, a, b, a', b', e, x);
    }
  }

  /** The parser reads a number exactly where one stands, with its value. */
  lemma NumbersAreRead(s: seq<byte>, o: nat, n: nat, x: real)
    requires CharAt(s, o, 0x2D) || DigitAt(s, o)
    ensures ParseNumber(s, o) == Ok(Json.Number(x), n) <==> NumberAt(s, o, n, x)
  {
    SpanReaches(s, o);
    NumberIsStrtod(s, o, s[o..SpanEnd(s, o)], n, x);
  }

  /** The printed text of an integer: its digits without a zero in front, behind a minus if it is
      negative; a number of RFC 8259 with that value. */
  lemma IntegersArePrinted(n: int)
    ensures var t := IntText(n);
            && StrictNumberAt(t, 0, |t|, n as real)
            && forall k | 0 <= k < |t| :: 0x30 <= t[k] <= 0x39 || (k == 0 && n < 0 && t[k] == 0x2D)
  {
    var t := IntText(n);
    var i: nat := if n < 0 then 1 else 0;
    var m: nat := if n < 0 then -n else n;
    var u := Decimal(m);
    DecimalIsCanonical(m);
    assert t[i..] == u && t[i] == u[0];
    StrtodOfInt(n);
    forall k | i <= k < |t|
      ensures IsDigit(t[k])
    {
      assert t[k] == u[k - i];
    }
    AllDigitsEnd(t, i);
    PartsAre(t, 0, t, i, |t|, |t|, |t|, |t|, |t|, 0, n as real);
    StrtodParts(t, i, |t|, |t|);
    assert Number(t, 0, |t|, |t|, |t|, 0, n as real);
  }
}

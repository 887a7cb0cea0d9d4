/** Dotted IPv4 texts and CIDR ranges. */
module Ipv4 {
  import opened Bytes
  import opened Bits
  import opened Numbers

  // ---------------------------------------------------------------- octets

  /** 256 to the power n. */
  function Unit(n: nat): (u: nat)
    ensures u > 0
  {
    if n == 0 then 1 else 256 * Unit(n - 1)
  }

  /** The n low octets of an address, most significant first. */
  function Split(ip: nat, n: nat): (o: seq<byte>)
    ensures |o| == n
  {
    if n == 0 then [] else Split(ip / 256, n - 1) + [ip % 256]
  }

  function Join(o: seq<byte>): (ip: nat)
    ensures ip < Unit(|o|)
  {
    if o == [] then 0 else 256 * Join(o[..|o| - 1]) + o[|o| - 1]
  }

  lemma {:induction false} JoinOfSplit(ip: nat, n: nat)
    requires ip < Unit(n)
    ensures Join(Split(ip, n)) == ip
  {
    if n > 0 {
      JoinOfSplit(ip / 256, n - 1);
      assert Split(ip, n)[..n - 1] == Split(ip / 256, n - 1);
    }
  }

  lemma {:induction false} SplitOfJoin(o: seq<byte>)
    ensures Split(Join(o), |o|) == o
  {
    if o != [] {
      var n := |o| - 1;
      SplitOfJoin(o[..n]);
      assert Join(o) / 256 == Join(o[..n]) && Join(o) % 256 == o[n];
      assert o == o[..n] + [o[n]];
    }
  }

  // ---------------------------------------------------------------- texts

  /** The dotted decimal text of octets. */
  function Format(o: seq<byte>): (t: cstr)
    requires o != []
    ensures t != []
  {
    if |o| == 1 then Decimal(o[0]) else Decimal(o[0]) + [DOT] + Format(o[1..])
  }

  /** The octet spelled by the first e characters: no leading zero, at most 255. */
  function Octet(t: seq<byte>, e: nat): (r: Option<nat>)
    requires e <= |t| && forall k :: 0 <= k < e ==> IsDigit(t[k])
    ensures r.Some? ==> r.value < 256 && e > 0
  {
    if e == 0 || (e > 1 && t[0] == DIGIT0) || DigitsValue(t, 0, e) > 255 then None
    else Some(DigitsValue(t, 0, e))
  }

  /** inet_pton for n octets: exactly n octets between dots, nothing else. */
  function Parse(t: seq<byte>, n: nat): (r: Option<seq<byte>>)
    requires n > 0
    ensures r.Some? ==> |r.value| == n
  {
    var e := DigitsEnd(t, 0);
    match Octet(t, e)
    case None => None
    case Some(o) =>
      if n == 1 then
        if e == |t| then Some([o]) else None
      else if e < |t| && t[e] == DOT then
        match Parse(t[e + 1..], n - 1)
        case None => None
        case Some(v) => Some([o] + v)
      else None
  }

  /** Decimal writing and reading are inverse on canonical texts. */
  lemma {:induction false} DecimalOfCanonical(t: cstr)
    requires Canonical(t)
    ensures Decimal(DigitsValue(t, 0, |t|)) == t
  {
    var m := |t| - 1;
    var d := DigitValue(t[m]);
    if m == 0 {
      assert DigitsValue(t, 0, 1) == 10 * DigitsValue(t, 0, 0) + d;
      assert t == [DIGIT0 + d];
    } else {
      DecimalOfCanonical(t[..m]);
      MoreDigits(t, m);
    }
  }

  lemma MoreDigits(t: cstr, m: nat)
    requires Canonical(t) && m == |t| - 1 > 0 && Decimal(DigitsValue(t[..m], 0, m)) == t[..m]
    ensures Decimal(DigitsValue(t, 0, |t|)) == t
  {
    var h, d := t[..m], DigitValue(t[m]);
    DigitsValueShift(h, t, 0, 0, m);
    LeadingDigit(h);
    AppendDigit(DigitsValue(h, 0, m), d);
    assert t == h + [DIGIT0 + d];
  }

  lemma AppendDigit(v: nat, d: nat)
    requires v > 0 && d < 10
    ensures Decimal(10 * v + d) == Decimal(v) + [DIGIT0 + d]
  {
    assert (10 * v + d) / 10 == v && (10 * v + d) % 10 == d;
  }

  lemma {:induction false} LeadingDigit(t: seq<byte>)
    requires t != [] && (forall k :: 0 <= k < |t| ==> IsDigit(t[k])) && t[0] != DIGIT0
    ensures DigitsValue(t, 0, |t|) >= 1
  {
    if |t| == 1 {
      assert DigitsValue(t, 0, 1) == 10 * DigitsValue(t, 0, 0) + DigitValue(t[0]);
    } else {
      var h := t[..|t| - 1];
      LeadingDigit(h);
      DigitsValueShift(h, t, 0, 0, |h|);
    }
  }

  /** A number in front of other text is found and read. */
  lemma OctetOfDecimal(o: nat, rest: seq<byte>)
    requires o < 256 && (rest != [] ==> !IsDigit(rest[0]))
    ensures var t := Decimal(o) + rest;
            DigitsEnd(t, 0) == |Decimal(o)| && Octet(t, |Decimal(o)|) == Some(o)
  {
    var u := Decimal(o);
    var t := u + rest;
    SpanOfDigits(t, 0, |u|);
    DecimalIsCanonical(o);
    DecimalValue(o);
    DigitsValueShift(u, t, 0, 0, |u|);
  }

  lemma {:induction false} SpanOfDigits(t: seq<byte>, i: nat, e: nat)
    requires i <= e <= |t| && (forall k :: i <= k < e ==> IsDigit(t[k])) && (e < |t| ==> !IsDigit(t[e]))
    ensures DigitsEnd(t, i) == e
    decreases e - i
  {
    if i < e {
      SpanOfDigits(t, i + 1, e);
    }
  }

  lemma MulLe(a: nat, b: nat, u: nat)
    requires a <= b
    ensures a * u <= b * u
  {}

  lemma ParseLast(t: seq<byte>, o: byte)
    requires DigitsEnd(t, 0) == |t| && Octet(t, |t|) == Some(o)
    ensures Parse(t, 1) == Some([o])
  {}

  lemma ParseFirst(t: seq<byte>, e: nat, o: byte, v: seq<byte>, n: nat)
    requires n > 1 && DigitsEnd(t, 0) == e < |t| && t[e] == DOT
    requires Octet(t, e) == Some(o) && Parse(t[e + 1..], n - 1) == Some(v)
    ensures Parse(t, n) == Some([o] + v)
  {}

  lemma ParseJoined(o: byte, f: seq<byte>, v: seq<byte>, n: nat)
    requires n > 0 && Parse(f, n) == Some(v)
    ensures Parse(Decimal(o) + [DOT] + f, n + 1) == Some([o] + v)
  {
    var d := Decimal(o);
    OctetOfDecimal(o, [DOT] + f);
    Assoc(d, [DOT], f);
    var t := d + [DOT] + f;
    assert t[|d| + 1..] == f;
    ParseFirst(t, |d|, o, v, n + 1);
  }

  /** Every address is read back from its text. */
  lemma {:induction false} ParseOfFormat(o: seq<byte>)
    requires o != []
    ensures Parse(Format(o), |o|) == Some(o)
    decreases |o|
  {
    if |o| == 1 {
      OctetOfDecimal(o[0], []);
      assert Decimal(o[0]) + [] == Decimal(o[0]);
      ParseLast(Decimal(o[0]), o[0]);
      assert o == [o[0]];
    } else {
      var tail := o[1..];
      ParseOfFormat(tail);
      ParseJoined(o[0], Format(tail), tail, |tail|);
      assert o == [o[0]] + tail;
    }
  }

  lemma ParseStep(t: seq<byte>, n: nat) returns (e: nat, o: byte, v: seq<byte>)
    requires n > 1 && Parse(t, n).Some?
    ensures e < |t| && t[e] == DOT && DigitsEnd(t, 0) == e
    ensures Octet(t, e) == Some(o) && Parse(t[e + 1..], n - 1) == Some(v) && Parse(t, n) == Some([o] + v)
  {
    e := DigitsEnd(t, 0);
    o := Octet(t, e).value;
    v := Parse(t[e + 1..], n - 1).value;
  }

  lemma ParseParts(t: cstr, n: nat) returns (d: cstr, o: byte, rest: cstr, v: seq<byte>)
    requires n > 1 && Parse(t, n).Some?
    ensures t == d + [DOT] + rest && Canonical(d) && DigitsValue(d, 0, |d|) == o
    ensures Parse(rest, n - 1) == Some(v) && Parse(t, n) == Some([o] + v)
  {
    var e;
    e, o, v := ParseStep(t, n);
    d, rest := t[..e], t[e + 1..];
    OctetIsCanonical(t, e, o);
    assert t == d + [DOT] + rest;
  }

  lemma OctetIsCanonical(t: cstr, e: nat, o: byte)
    requires e == DigitsEnd(t, 0) && Octet(t, e) == Some(o)
    ensures Canonical(t[..e]) && DigitsValue(t[..e], 0, e) == o
  {
    DigitsValueShift(t[..e], t, 0, 0, e);
  }

  lemma ParseOnly(t: cstr) returns (o: byte)
    requires Parse(t, 1).Some?
    ensures Canonical(t) && DigitsValue(t, 0, |t|) == o && Parse(t, 1) == Some([o])
  {
    o := Octet(t, |t|).value;
  }

  /** A text that is read at all is the text of the address it is read as. */
  lemma {:induction false} FormatOfParse(t: cstr, n: nat)
    requires n > 0 && Parse(t, n).Some?
    ensures Format(Parse(t, n).value) == t
    decreases n
  {
    if n == 1 {
      var o := ParseOnly(t);
      DecimalOfCanonical(t);
    } else {
      var d, o, rest, v := ParseParts(t, n);
      DecimalOfCanonical(d);
      FormatOfParse(rest, n - 1);
      assert ([o] + v)[1..] == v;
    }
  }

  // ---------------------------------------------------------------- the texts the server passes

  const BUFFER: nat := 63

  /** What strncpy copies into a buffer of 64. */
  function Copied(t: cstr): cstr {
    if |t| <= BUFFER then t else t[..BUFFER]
  }

  /** The position of the first slash, or the end. */
  function SlashAt(t: cstr): (i: nat)
    ensures i <= |t| && (i < |t| ==> t[i] == SLASH)
    ensures forall k :: 0 <= k < i ==> t[k] != SLASH
  {
    if t == [] || t[0] == SLASH then 0
    else
      assert t == [t[0]] + t[1..];
      1 + SlashAt(t[1..])
  }

  /** The address in front of an optional slash. */
  function AddressOf(text: cstr): (r: Option<nat>)
    ensures r.Some? ==> r.value < Unit(4)
  {
    var t := Copied(text);
    match Parse(t[..SlashAt(t)], 4)
    case None => None
    case Some(o) => Some(Join(o))
  }

  predicate IsSpace(c: byte) {
    c == SPACE || 0x09 <= c <= 0x0D
  }

  function BlanksEnd(t: seq<byte>, i: nat): (e: nat)
    requires i <= |t|
    ensures i <= e <= |t|
    decreases |t| - i
  {
    if i < |t| && IsSpace(t[i]) then BlanksEnd(t, i + 1) else i
  }

  /** atoi, on unbounded integers. */
  function Atoi(t: seq<byte>): int {
    var b := BlanksEnd(t, 0);
    var i := SignEnd(t, b);
    Signed(t, b, DigitsValue(t, i, DigitsEnd(t, i)))
  }

  /** The length of the network prefix; without a slash all 32 bits. */
  function PrefixOf(text: cstr): int {
    var t := Copied(text);
    var i := SlashAt(t);
    if i < |t| then Atoi(t[i + 1..]) else 32
  }

  const HOST_SUFFIX: cstr := [SLASH, 0x33, 0x32]

  /** "%s/32" of an address. */
  function HostText(ip: nat): cstr {
    Format(Split(ip, 4)) + HOST_SUFFIX
  }

  lemma {:induction false} NoSlash(o: seq<byte>)
    requires o != []
    ensures SLASH !in Format(o)
  {
    if |o| > 1 {
      NoSlash(o[1..]);
    }
  }

  lemma {:induction false} FormatLength(o: seq<byte>)
    requires o != []
    ensures |Format(o)| < 4 * |o|
  {
    assert Ten(3) == 1000;
    DecimalLength(o[0], 3);
    if |o| > 1 {
      FormatLength(o[1..]);
    }
  }

  /** The text handed out with an address names that address, and fits the 32 bytes that
      login reserves for it. */
  lemma HostTextNames(ip: nat)
    requires ip < Unit(4)
    ensures AddressOf(HostText(ip)) == Some(ip)
    ensures |HostText(ip)| + 1 <= 32
  {
    var o := Split(ip, 4);
    var a := Format(o);
    NoSlash(o);
    FormatLength(o);
    var t := HostText(ip);
    assert Copied(t) == t;
    SlashIsAt(a, HOST_SUFFIX);
    assert t[..|a|] == a;
    ParseOfFormat(o);
    JoinOfSplit(ip, 4);
  }

  /** The decimal text of an octet, digit by digit. */
  lemma OctetText(o: nat)
    requires o < 256
    ensures Decimal(o) == if o < 10 then [0x30 + o]
                          else if o < 100 then [0x30 + o / 10, 0x30 + o % 10]
                          else [0x30 + o / 100, 0x30 + o / 10 % 10, 0x30 + o % 10]
  {
    if o >= 10 {
      assert Decimal(o) == Decimal(o / 10) + [0x30 + o % 10];
    }
    if o >= 100 {
      assert Decimal(o / 10) == Decimal(o / 100) + [0x30 + o / 10 % 10];
    }
  }

  /** The four octets of an address. */
  lemma SplitFour(ip: nat)
    requires ip < 0x1_0000_0000
    ensures Split(ip, 4) == [ip / 0x100_0000, ip / 0x1_0000 % 256, ip / 256 % 256, ip % 256]
  {
    var a := ip / 256;
    var b := a / 256;
    var c := b / 256;
    assert Split(c, 1) == Split(c / 256, 0) + [c % 256];
    assert Split(b, 2) == Split(c, 1) + [b % 256];
    assert Split(a, 3) == Split(b, 2) + [a % 256];
    assert Split(ip, 4) == Split(a, 3) + [ip % 256];
  }

  lemma FormatMore(o: byte, rest: seq<byte>)
    requires rest != []
    ensures Format([o] + rest) == Decimal(o) + [0x2E] + Format(rest)
  {
    assert ([o] + rest)[1..] == rest;
  }

  lemma FormatFour(a: byte, b: byte, c: byte, d: byte)
    ensures Format([a, b, c, d]) == Decimal(a) + [0x2E] + Decimal(b) + [0x2E] + Decimal(c) + [0x2E] + Decimal(d)
  {
    FormatMore(c, [d]);
    FormatMore(b, [c] + [d]);
    FormatMore(a, [b] + ([c] + [d]));
    assert [a, b, c, d] == [a] + ([b] + ([c] + [d]));
    Flatten(Decimal(a), Decimal(b), Decimal(c), Decimal(d));
  }

  lemma Flatten(a: cstr, b: cstr, c: cstr, d: cstr)
    ensures (a + [0x2E]) + ((b + [0x2E]) + ((c + [0x2E]) + d)) == a + [0x2E] + b + [0x2E] + c + [0x2E] + d
  {
    var x, y, z := a + [0x2E], b + [0x2E], c + [0x2E];
    Assoc(x, y, z + d);
    Assoc(x + y, z, d);
    Assoc(x, b, [0x2E]);
    Assoc(x + y, c, [0x2E]);
  }

  /** The four octets of an address in decimal, between dots. */
  function Dotted(ip: nat): cstr
    requires ip < 0x1_0000_0000
  {
    Decimal(ip / 0x100_0000) + [0x2E] + Decimal(ip / 0x1_0000 % 256) + [0x2E]
    + Decimal(ip / 256 % 256) + [0x2E] + Decimal(ip % 256)
  }

  lemma FormatIsDotted(ip: nat)
    requires ip < 0x1_0000_0000
    ensures Format(Split(ip, 4)) == Dotted(ip)
  {
    SplitFour(ip);
    FormatFour(ip / 0x100_0000, ip / 0x1_0000 % 256, ip / 256 % 256, ip % 256);
  }

  /** A text names an address exactly when it starts with the dotted text of the address and
      ends there or goes on with a slash. */
  lemma AddressSpelled(text: cstr, ip: nat)
    requires |text| <= 63 && ip < 0x1_0000_0000
    ensures AddressOf(text) == Some(ip) <==>
            Dotted(ip) <= text && (|text| > |Dotted(ip)| ==> text[|Dotted(ip)|] == 0x2F)
  {
    FormatIsDotted(ip);
    var o := Split(ip, 4);
    var a := Format(o);
    NoSlash(o);
    var e := SlashAt(text);
    if AddressOf(text) == Some(ip) {
      FormatOfParse(text[..e], 4);
      SplitOfJoin(Parse(text[..e], 4).value);
    } else if a <= text && (|text| > |a| ==> text[|a|] == 0x2F) {
      assert text == a + text[|a|..];
      SlashFollows(a, text[|a|..]);
      assert text[..e] == a;
      ParseOfFormat(o);
      JoinOfSplit(ip, 4);
    }
  }

  /** The length of the prefix is what stands behind the slash, 32 without one. */
  lemma PrefixSpelled(head: cstr, p: nat, rest: cstr)
    requires 0x2F !in head && (rest != [] ==> !(0x30 <= rest[0] <= 0x39))
    ensures |head| <= 63 ==> PrefixOf(head) == 32
    ensures |head + [0x2F] + Decimal(p) + rest| <= 63 ==> PrefixOf(head + [0x2F] + Decimal(p) + rest) == p
  {
    var d := Decimal(p);
    Assoc(head + [0x2F], d, rest);
    Assoc(head, [0x2F], d + rest);
    SlashIsAt(head, [0x2F] + (d + rest));
    SlashFollows(head, []);
    assert head + [] == head;
    assert (head + [0x2F] + (d + rest))[|head + [0x2F]|..] == d + rest;
    AtoiOfDecimal(p, rest);
  }

  lemma AtoiOfDecimal(p: nat, rest: cstr)
    requires rest != [] ==> !IsDigit(rest[0])
    ensures Atoi(Decimal(p) + rest) == p
  {
    var d := Decimal(p);
    var t := d + rest;
    assert IsDigit(d[0]) && t[0] == d[0];
    SpanOfDigits(t, 0, |d|);
    DecimalValue(p);
    DigitsValueShift(d, t, 0, 0, |d|);
  }

  /** The text handed out with an address: its four octets in decimal between dots, and "/32". */
  lemma HostTextSpelled(ip: nat)
    requires ip < 0x1_0000_0000
    ensures HostText(ip) ==
            Decimal(ip / 0x100_0000) + [0x2E] + Decimal(ip / 0x1_0000 % 256) + [0x2E]
            + Decimal(ip / 256 % 256) + [0x2E] + Decimal(ip % 256) + [0x2F, 0x33, 0x32]
  {
    FormatIsDotted(ip);
  }

  /** As a range it names that address and no other. */
  lemma HostTextIsAlone(ip: nat, r: Range)
    requires ip < 0x1_0000_0000
    ensures PrefixOf(HostText(ip)) == 32
    ensures Block(r, ip, Pow2(32 - PrefixOf(HostText(ip)))) <==> r == Range(ip, ip)
  {
    SplitFour(ip);
    var a := Format(Split(ip, 4));
    NoSlash(Split(ip, 4));
    FormatLength(Split(ip, 4));
    var t := HostText(ip);
    assert Copied(t) == t;
    SlashIsAt(a, HOST_SUFFIX);
    assert t[|a| + 1..] == [0x33, 0x32];
    ThirtyTwo();
    assert Pow2(0) == 1;
  }

  lemma ThirtyTwo()
    ensures Atoi([0x33, 0x32]) == 32
  {
    var t: seq<byte> := [0x33, 0x32];
    assert DigitsEnd(t, 2) == 2 && DigitsEnd(t, 1) == 2 && DigitsEnd(t, 0) == 2;
    assert DigitsValue(t, 0, 1) == 3;
    assert DigitsValue(t, 0, 2) == 32;
  }

  /** Two texts without a suffix that name the same address are the same text. */
  lemma AddressTextIsUnique(s: cstr, t: cstr)
    requires AddressOf(s).Some? && AddressOf(s) == AddressOf(t)
    ensures Copied(s)[..SlashAt(Copied(s))] == Copied(t)[..SlashAt(Copied(t))]
  {
    var a, b := Copied(s)[..SlashAt(Copied(s))], Copied(t)[..SlashAt(Copied(t))];
    FormatOfParse(a, 4);
    FormatOfParse(b, 4);
    SplitOfJoin(Parse(a, 4).value);
    SplitOfJoin(Parse(b, 4).value);
  }

  lemma SlashFollows(a: cstr, rest: cstr)
    requires SLASH !in a && (rest != [] ==> rest[0] == SLASH)
    ensures SlashAt(a + rest) == |a|
  {
    if rest == [] {
      assert a + rest == a;
    } else {
      SlashIsAt(a, rest);
    }
  }

  lemma SlashIsAt(a: cstr, rest: cstr)
    requires SLASH !in a && rest != [] && rest[0] == SLASH
    ensures SlashAt(a + rest) == |a|
  {
    var i := SlashAt(a + rest);
    assert (a + rest)[|a|] == SLASH;
    assert forall k :: 0 <= k < |a| ==> (a + rest)[k] == a[k];
  }

  // ---------------------------------------------------------------- ranges

  datatype Range = Range(start: nat, end: nat)

  /** x << k on w bits. */
  function Shl(x: nat, k: nat, w: nat): nat {
    x * Pow2(k) % Pow2(w)
  }

  /** ~x on w bits. */
  function Not(x: nat, w: nat): nat
    requires x < Pow2(w)
  {
    Pow2(w) - 1 - x
  }

  const WORD: nat := 32

  lemma {:induction false} PowerSum(a: nat, b: nat)
    ensures Pow2(a + b) == Pow2(a) * Pow2(b)
  {
    if a > 0 {
      PowerSum(a - 1, b);
      assert Pow2(a + b) == 2 * Pow2(a - 1 + b);
      MulAssoc(2, Pow2(a - 1), Pow2(b));
    }
  }

  lemma MulAssoc(a: nat, b: nat, c: nat)
    ensures a * b * c == a * (b * c)
  {}

  /** The mask that clears the k low bits. */
  lemma MaskValue(k: nat, w: nat)
    requires 0 < k <= w
    ensures Pow2(k) <= Pow2(w)
    ensures Shl(Pow2(w) - 1, k, w) == Pow2(w) - Pow2(k)
  {
    PowerSum(w - k, k);
    ShiftedOnes(Pow2(k), Pow2(w - k), Pow2(w));
  }

  lemma ShiftedOnes(p: nat, q: nat, w: nat)
    requires p > 0 && q > 0 && w == q * p
    ensures p <= w
    ensures (w - 1) * p % w == w - p
  {
    MulLe(1, q, p);
    assert (w - 1) * p == w * p - p;
    assert (p - 1) * w == p * w - w;
    DivModUnique((w - 1) * p, w, p - 1, w - p);
  }

  /** The two masked ends of the range around ip. */
  lemma MaskedRange(ip: nat, k: nat, w: nat)
    requires 0 < k <= w && ip < Pow2(w)
    ensures var mask := Shl(Pow2(w) - 1, k, w);
            var start := And(ip, mask);
            mask < Pow2(w) && Or(start, Not(mask, w)) < Pow2(w) &&
            Block(Range(start, Or(start, Not(mask, w))), ip, Pow2(k))
  {
    MaskValue(k, w);
    AndHighMask(ip, k, w);
    var start := BlockOf(ip, k, w);
  }

  /** parse_cidr: the aligned block of two to the power 32 - prefix addresses around the
      given one; rejected for other prefixes than 1 to 30. */
  method ParseCidr(cidr: cstr) returns (r: Option<Range>)
    ensures r.Some? <==> 1 <= PrefixOf(cidr) <= 30 && AddressOf(cidr).Some?
    ensures r.Some? ==> Block(r.value, AddressOf(cidr).value, Pow2(32 - PrefixOf(cidr)))
    ensures r.Some? ==> r.value.end < Pow2(WORD)
  {
    var text := Copied(cidr);
    var slash := SlashAt(text);
    var prefix := 32;
    if slash < |text| {
      prefix := Atoi(text[slash + 1..]);
    }
    if prefix < 1 || prefix > 30 {
      return None;
    }
    var address := Parse(text[..slash], 4);
    if address.None? {
      return None;
    }
    var ip := Join(address.value);
    var k: nat := 32 - prefix;
    UnitIsPower();
    MaskedRange(ip, k, WORD);
    var mask := Shl(Pow2(WORD) - 1, k, WORD);
    var start := And(ip, mask);
    var end := Or(start, Not(mask, WORD));
    r := Some(Range(start, end));
  }

  /** The aligned block of that size around ip. */
  predicate Block(r: Range, ip: nat, size: nat) {
    && size > 0
    && r.start % size == 0
    && r.end + 1 == r.start + size
    && r.start <= ip <= r.end
  }

  lemma UnitIsPower()
    ensures Unit(4) == Pow2(WORD)
  {
    assert Pow2(8) == 256;
    PowerSum(8, 8);
    PowerSum(8, 16);
    PowerSum(8, 24);
  }

  lemma BlockOf(ip: nat, k: nat, w: nat) returns (start: nat)
    requires k <= w && ip < Pow2(w)
    ensures start == ip - ip % Pow2(k) && start % Pow2(k) == 0
    ensures start <= ip < start + Pow2(k) <= Pow2(w)
    ensures Or(start, Pow2(k) - 1) == start + Pow2(k) - 1
  {
    PowerSum(w - k, k);
    var q: nat;
    start, q := Aligned(ip, Pow2(k), Pow2(w - k), Pow2(w));
    OrDisjoint(q, Pow2(k) - 1, k);
  }

  lemma Aligned(ip: nat, p: nat, h: nat, w: nat) returns (start: nat, q: nat)
    requires p > 0 && w == h * p && ip < w
    ensures start == q * p && start == ip - ip % p && start % p == 0
    ensures start <= ip < start + p <= w
  {
    q := ip / p;
    start := q * p;
    assert ip == start + ip % p;
    DivModUnique(start, p, q, 0);
    if q >= h {
      MulLe(h, q, p);
    } else {
      MulLe(q + 1, h, p);
      assert (q + 1) * p == start + p;
    }
  }

  /** Only one block of a size holds an address. */
  lemma BlockIsUnique(r: Range, s: Range, ip: nat, size: nat)
    requires Block(r, ip, size) && Block(s, ip, size)
    ensures r == s
  {
    var a, b := r.start / size, s.start / size;
    assert r.start == a * size && s.start == b * size;
    assert (a - b) * size == a * size - b * size;
    MultipleBelow(a - b, size, r.start - s.start);
  }
}

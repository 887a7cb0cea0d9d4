/** String literals by section 7 of RFC 8259: pieces with their spelling and what they stand
    for, written out in numbers, and the parser measured against them. */
module StringGrammar {
  import opened Bytes
  import opened Utf8
  import opened Strings
  import opened ParseSpec

  /** A piece of a literal between the quotes, with what it stands for: a byte as it is, a
      two-character escape, one code unit, or a surrogate pair. */
  datatype Piece =
    | Plain(octet: byte)
    | Short(letter: byte, octet: byte)
    | Unit(digits: seq<byte>, form: seq<byte>)
    | Pair(high: seq<byte>, low: seq<byte>, form: seq<byte>)

  function Spelling(p: Piece): (t: seq<byte>)
    ensures t != []
  {
    match p
    case Plain(c) => [c]
    case Short(letter, _) => [0x5C, letter]
    case Unit(digits, _) => [0x5C, 0x75] + digits
    case Pair(high, low, _) => [0x5C, 0x75] + (high + ([0x5C, 0x75] + low))
  }

  function Meaning(p: Piece): seq<byte> {
    match p
    case Plain(c) => [c]
    case Short(_, c) => [c]
    case Unit(_, form) => form
    case Pair(_, _, form) => form
  }

  /** The eight two-character escapes. */
  predicate ShortForm(letter: byte, octet: byte) {
    || (letter == 0x22 && octet == 0x22)
    || (letter == 0x5C && octet == 0x5C)
    || (letter == 0x2F && octet == 0x2F)
    || (letter == 0x62 && octet == 0x08)
    || (letter == 0x66 && octet == 0x0C)
    || (letter == 0x6E && octet == 0x0A)
    || (letter == 0x72 && octet == 0x0D)
    || (letter == 0x74 && octet == 0x09)
  }

  predicate HexChar(c: byte) {
    0x30 <= c <= 0x39 || 0x41 <= c <= 0x46 || 0x61 <= c <= 0x66
  }

  function HexValue(c: byte): nat
    requires HexChar(c)
  {
    if c <= 0x39 then c - 0x30 else if c <= 0x46 then c - 0x41 + 10 else c - 0x61 + 10
  }

  predicate FourHex(digits: seq<byte>) {
    |digits| == 4 && HexChar(digits[0]) && HexChar(digits[1]) && HexChar(digits[2]) && HexChar(digits[3])
  }

  /** The code unit that four hexadecimal digits spell. */
  function UnitValue(digits: seq<byte>): nat
    requires FourHex(digits)
  {
    0x1000 * HexValue(digits[0]) + 0x100 * HexValue(digits[1]) + 0x10 * HexValue(digits[2]) + HexValue(digits[3])
  }

  /** A piece of the grammar, except for what a plain byte may be. */
  predicate WellFormed(p: Piece) {
    match p
    case Plain(c) => c != 0x5C
    case Short(letter, octet) => ShortForm(letter, octet)
    case Unit(digits, form) =>
      FourHex(digits) && !(0xD800 <= UnitValue(digits) <= 0xDFFF) && Decode(form) == Some(UnitValue(digits))
    case Pair(high, low, form) =>
      && FourHex(high) && FourHex(low)
      && 0xD800 <= UnitValue(high) <= 0xDBFF && 0xDC00 <= UnitValue(low) <= 0xDFFF
      && Decode(form) == Some(0x10000 + (UnitValue(high) - 0xD800) * 0x400 + (UnitValue(low) - 0xDC00))
  }

  /** What the parser takes: every byte but a backslash as it is, and four characters behind
      \u that are not all digits as U+0000. */
  predicate Taken(p: Piece) {
    WellFormed(p) || (p.Unit? && |p.digits| == 4 && !FourHex(p.digits) && p.form == [0])
  }

  /** What RFC 8259 admits: no quote and no control character as it is. */
  predicate Strict(p: Piece) {
    WellFormed(p) && (p.Plain? ==> p.octet >= 0x20 && p.octet != 0x22)
  }

  function Spell(ps: seq<Piece>): seq<byte> {
    if ps == [] then [] else Spelling(ps[0]) + Spell(ps[1..])
  }

  function Mean(ps: seq<Piece>): seq<byte> {
    if ps == [] then [] else Meaning(ps[0]) + Mean(ps[1..])
  }

  predicate AllTaken(ps: seq<Piece>) {
    ps == [] || (Taken(ps[0]) && AllTaken(ps[1..]))
  }

  predicate AllStrict(ps: seq<Piece>) {
    ps == [] || (Strict(ps[0]) && AllStrict(ps[1..]))
  }

  // ---------------------------------------------------------------- one piece

  lemma FourAt(s: seq<byte>, p: nat)
    requires p + 4 <= |s|
    ensures FourHex(s[p..p + 4]) <==> IsHex4(s, p)
    ensures Hex4(s, p) == if FourHex(s[p..p + 4]) then UnitValue(s[p..p + 4]) else 0
  {
    var d := s[p..p + 4];
    assert d[0] == s[p] && d[1] == s[p + 1] && d[2] == s[p + 2] && d[3] == s[p + 3];
  }

  /** An escape with digits at a position. */
  lemma EscapeAt(s: seq<byte>, p: nat, digits: seq<byte>)
    requires |digits| == 4
    ensures At(s, p, [0x5C, 0x75] + digits) <==>
            p + 6 <= |s| && s[p] == 0x5C && s[p + 1] == 0x75 && s[p + 2..p + 6] == digits
  {
    AtSlice(s, p, [0x5C, 0x75] + digits);
    if p + 6 <= |s| {
      assert s[p..p + 6] == [s[p], s[p + 1]] + s[p + 2..p + 6];
      assert ([0x5C, 0x75] + digits)[2..] == digits;
      assert s[p..p + 6][2..] == s[p + 2..p + 6];
    }
  }

  /** The unit of four characters, as the parser reads it. */
  function Read(digits: seq<byte>): (v: nat)
    requires |digits| == 4
    ensures v < 0x10000
  {
    if FourHex(digits) then UnitValue(digits) else 0
  }

  predicate Lone(u: nat) {
    !(0xD800 <= u <= 0xDFFF)
  }

  predicate Paired(h: nat, l: nat) {
    0xD800 <= h <= 0xDBFF && 0xDC00 <= l <= 0xDFFF
  }

  function PairCode(h: nat, l: nat): (cp: nat)
    requires Paired(h, l)
    ensures 0x10000 <= cp <= 0x10FFFF
  {
    0x10000 + (h - 0xD800) * 0x400 + (l - 0xDC00)
  }

  lemma UnitForm(digits: seq<byte>, form: seq<byte>)
    requires |digits| == 4
    ensures Taken(Unit(digits, form)) <==> Lone(Read(digits)) && form == Encode(Read(digits))
  {
    if Lone(Read(digits)) {
      EncodeIsUniqueForm(Read(digits), form);
    }
  }

  lemma PairForm(high: seq<byte>, low: seq<byte>, form: seq<byte>, cp: nat)
    requires |high| == 4 && |low| == 4 && Paired(Read(high), Read(low)) && cp == PairCode(Read(high), Read(low))
    ensures Taken(Pair(high, low, form)) <==> form == Encode(cp)
  {
    EncodeIsUniqueForm(cp, form);
  }

  lemma NoPair(high: seq<byte>, low: seq<byte>, form: seq<byte>)
    requires |high| == 4 && |low| == 4 && Taken(Pair(high, low, form))
    ensures Paired(Read(high), Read(low))
  {}

  /** The value of the four characters behind \u. */
  lemma ReadAt(s: seq<byte>, p: nat, digits: seq<byte>)
    requires |digits| == 4 && At(s, p, [0x5C, 0x75] + digits)
    ensures p + 6 <= |s| && s[p] == 0x5C && s[p + 1] == 0x75 && Hex4(s, p + 2) == Read(digits)
  {
    EscapeAt(s, p, digits);
    FourAt(s, p + 2);
  }

  lemma LoneIsRead(s: seq<byte>, p: nat, e: nat)
    requires p + 6 <= e <= |s| && Lone(Hex4(s, p + 2))
    ensures ReadLiteral(s, p, e) == Literal(6, Encode(Hex4(s, p + 2)))
  {}

  lemma PairIsRead(s: seq<byte>, p: nat, e: nat, cp: nat)
    requires p + 12 <= e <= |s| && s[p + 6] == 0x5C && s[p + 7] == 0x75
    requires Paired(Hex4(s, p + 2), Hex4(s, p + 8)) && cp == PairCode(Hex4(s, p + 2), Hex4(s, p + 8))
    ensures ReadLiteral(s, p, e) == Literal(12, Encode(cp))
  {}

  /** What an accepted literal looks like. */
  lemma ReadIs(s: seq<byte>, p: nat, e: nat)
    requires p < e <= |s| && ReadLiteral(s, p, e).consumed != 0
    ensures p + 6 <= e
    ensures Lone(Hex4(s, p + 2)) ||
            (p + 12 <= e && s[p + 6] == 0x5C && s[p + 7] == 0x75 && Paired(Hex4(s, p + 2), Hex4(s, p + 8)))
  {}

  lemma PairSpelling(s: seq<byte>, p: nat, q: Piece)
    requires q.Pair? && |q.high| == 4 && |q.low| == 4
    ensures At(s, p, Spelling(q)) <==> At(s, p, [0x5C, 0x75] + q.high) && At(s, p + 6, [0x5C, 0x75] + q.low)
  {
    Assoc([0x5C, 0x75], q.high, [0x5C, 0x75] + q.low);
    AtConcat(s, p, [0x5C, 0x75] + q.high, [0x5C, 0x75] + q.low);
  }

  lemma ShortAt(s: seq<byte>, p: nat, letter: byte)
    ensures At(s, p, [0x5C, letter]) <==> p + 2 <= |s| && s[p] == 0x5C && s[p + 1] == letter
  {
    AtSlice(s, p, [0x5C, letter]);
    if p + 2 <= |s| {
      assert s[p..p + 2] == [s[p], s[p + 1]];
    }
  }

  /** A piece ends before the closing quote at e; a two-character escape may take it along. */
  predicate Ends(q: Piece, p: nat, e: nat) {
    p + |Spelling(q)| <= e || (q.Short? && p + 2 == e + 1)
  }

  /** A round of the decoding scan takes the piece that stands there. */
  lemma PieceIsTaken(s: seq<byte>, p: nat, e: nat, q: Piece) returns (m: nat)
    requires p < e < |s| && Taken(q) && At(s, p, Spelling(q)) && Ends(q, p, e)
    ensures m == p + |Spelling(q)| && p < m <= e + 1
    ensures DecodeString(s, p, e) == Prepend(Meaning(q), DecodeString(s, m, e))
  {
    m := p + |Spelling(q)|;
    match q
    case Plain(c) => AtIndex(s, p, [c], 0);
    case Short(letter, c) => ShortAt(s, p, letter);
    case Unit(digits, form) => UnitIsTaken(s, p, e, digits, form);
    case Pair(high, low, form) => PairIsTaken(s, p, e, high, low, form);
  }

  lemma UnitIsTaken(s: seq<byte>, p: nat, e: nat, digits: seq<byte>, form: seq<byte>)
    requires p + 6 <= e < |s| && Taken(Unit(digits, form)) && At(s, p, [0x5C, 0x75] + digits)
    ensures DecodeString(s, p, e) == Prepend(form, DecodeString(s, p + 6, e))
  {
    ReadAt(s, p, digits);
    UnitForm(digits, form);
    LoneIsRead(s, p, e);
  }

  lemma PairIsTaken(s: seq<byte>, p: nat, e: nat, high: seq<byte>, low: seq<byte>, form: seq<byte>)
    requires p + 12 <= e < |s| && Taken(Pair(high, low, form)) && At(s, p, Spelling(Pair(high, low, form)))
    ensures DecodeString(s, p, e) == Prepend(form, DecodeString(s, p + 12, e))
  {
    PairSpelling(s, p, Pair(high, low, form));
    ReadAt(s, p, high);
    ReadAt(s, p + 6, low);
    NoPair(high, low, form);
    var cp := PairCode(Read(high), Read(low));
    PairForm(high, low, form, cp);
    PairIsRead(s, p, e, cp);
  }

  lemma LonePiece(s: seq<byte>, p: nat, e: nat) returns (q: Piece)
    requires p + 6 <= e <= |s| && s[p] == 0x5C && s[p + 1] == 0x75 && Lone(Hex4(s, p + 2))
    ensures q.Unit? && |q.digits| == 4 && Taken(q) && At(s, p, Spelling(q))
  {
    var digits := s[p + 2..p + 6];
    EscapeAt(s, p, digits);
    ReadAt(s, p, digits);
    q := Unit(digits, Encode(Read(digits)));
    UnitForm(digits, q.form);
  }

  lemma PairPiece(s: seq<byte>, p: nat, e: nat) returns (q: Piece)
    requires p + 12 <= e <= |s| && s[p] == 0x5C && s[p + 1] == 0x75 && s[p + 6] == 0x5C && s[p + 7] == 0x75
    requires Paired(Hex4(s, p + 2), Hex4(s, p + 8))
    ensures q.Pair? && |q.high| == 4 && |q.low| == 4 && Taken(q) && At(s, p, Spelling(q))
  {
    var high, low := s[p + 2..p + 6], s[p + 8..p + 12];
    EscapeAt(s, p, high);
    EscapeAt(s, p + 6, low);
    q := PairThere(s, p, p + 6, high, low);
  }

  lemma PairThere(s: seq<byte>, p: nat, r: nat, high: seq<byte>, low: seq<byte>) returns (q: Piece)
    requires |high| == 4 && |low| == 4 && r == p + 6 && p + 12 <= |s|
    requires At(s, p, [0x5C, 0x75] + high) && At(s, r, [0x5C, 0x75] + low)
    requires Paired(Hex4(s, p + 2), Hex4(s, p + 8))
    ensures q.Pair? && |q.high| == 4 && |q.low| == 4 && Taken(q) && At(s, p, Spelling(q))
  {
    ReadAt(s, p, high);
    ReadAt(s, r, low);
    q := PairOf(high, low);
    PairSpelling(s, p, q);
  }

  lemma PairOf(high: seq<byte>, low: seq<byte>) returns (q: Piece)
    requires |high| == 4 && |low| == 4 && Paired(Read(high), Read(low))
    ensures q.Pair? && q.high == high && q.low == low && Taken(q) && q.form == Encode(PairCode(Read(high), Read(low)))
  {
    var cp := PairCode(Read(high), Read(low));
    q := Pair(high, low, Encode(cp));
    PairForm(high, low, q.form, cp);
  }

  /** Where a round succeeds, some piece stands. */
  lemma TakenIsPiece(s: seq<byte>, p: nat, e: nat) returns (q: Piece)
    requires p < e < |s| && DecodeString(s, p, e).Done?
    ensures Taken(q) && At(s, p, Spelling(q)) && Ends(q, p, e)
  {
    if s[p] != 0x5C {
      q := Plain(s[p]);
    } else if s[p + 1] == 0x75 {
      ReadIs(s, p, e);
      if Lone(Hex4(s, p + 2)) {
        q := LonePiece(s, p, e);
      } else {
        q := PairPiece(s, p, e);
      }
    } else {
      q := Short(s[p + 1], Unescape(s[p + 1]).value);
      ShortAt(s, p, s[p + 1]);
    }
  }

  // ---------------------------------------------------------------- the decoding scan

  /** The pieces fill the literal up to the closing quote at e; the last two-character escape
      may take the quote along. */
  predicate Fill(ps: seq<Piece>, p: nat, e: nat) {
    var n := p + |Spell(ps)|;
    n == e || (n == e + 1 && (if ps == [] then p > e else ps[|ps| - 1].Short?))
  }

  lemma FillStep(ps: seq<Piece>, p: nat, e: nat, m: nat)
    requires ps != [] && m == p + |Spelling(ps[0])|
    ensures Fill(ps, p, e) && p < e ==> Ends(ps[0], p, e)
    ensures Ends(ps[0], p, e) ==> (Fill(ps, p, e) <==> Fill(ps[1..], m, e))
  {
    assert |ps| > 1 ==> ps[1..][|ps| - 2] == ps[|ps| - 1];
    assert |ps| == 1 ==> Spell(ps[1..]) == [];
    SpellGrows(ps[1..]);
  }

  lemma {:induction false} SpellGrows(ps: seq<Piece>)
    ensures |Spell(ps)| >= |ps|
    ensures ps != [] && ps[|ps| - 1].Short? ==> |Spell(ps)| >= 2
  {
    if ps != [] {
      SpellGrows(ps[1..]);
    }
  }

  lemma Inside(ps: seq<Piece>, p: nat, e: nat, m: nat)
    requires ps != [] && m == p + |Spelling(ps[0])| && Fill(ps, p, e)
    ensures p < e && Ends(ps[0], p, e) && Fill(ps[1..], m, e)
  {
    SpellGrows(ps);
    FillStep(ps, p, e, m);
  }

  /** Whatever splits into pieces is decoded to what they stand for. */
  lemma {:induction false} PiecesAreTaken(s: seq<byte>, p: nat, e: nat, ps: seq<Piece>)
    requires e < |s| && AllTaken(ps) && At(s, p, Spell(ps)) && Fill(ps, p, e)
    ensures DecodeString(s, p, e) == Done(Mean(ps))
    decreases |ps|
  {
    if ps == [] {
    } else {
      var q := ps[0];
      var m := AtSplit(s, p, Spelling(q), Spell(ps[1..]));
      Inside(ps, p, e, m);
      var n := PieceIsTaken(s, p, e, q);
      PiecesAreTaken(s, m, e, ps[1..]);
    }
  }

  lemma Front(q: Piece, rest: seq<Piece>) returns (ps: seq<Piece>)
    ensures ps == [q] + rest && ps[0] == q && ps[1..] == rest
    ensures Spell(ps) == Spelling(q) + Spell(rest) && Mean(ps) == Meaning(q) + Mean(rest)
  {
    ps := [q] + rest;
    assert ps[1..] == rest;
  }

  lemma Cons(s: seq<byte>, p: nat, e: nat, m: nat, q: Piece, rest: seq<Piece>) returns (ps: seq<Piece>)
    requires Taken(q) && At(s, p, Spelling(q)) && Ends(q, p, e) && m == p + |Spelling(q)|
    requires AllTaken(rest) && At(s, m, Spell(rest)) && Fill(rest, m, e)
    ensures AllTaken(ps) && At(s, p, Spell(ps)) && Fill(ps, p, e) && Mean(ps) == Meaning(q) + Mean(rest)
  {
    ps := Front(q, rest);
    AtConcat(s, p, Spelling(q), Spell(rest));
    FillStep(ps, p, e, m);
  }

  /** Whatever is decoded splits into pieces that stand for the output. */
  lemma {:induction false} TakenArePieces(s: seq<byte>, p: nat, e: nat) returns (ps: seq<Piece>)
    requires p <= e + 1 <= |s| && DecodeString(s, p, e).Done?
    ensures AllTaken(ps) && At(s, p, Spell(ps)) && Fill(ps, p, e)
    ensures DecodeString(s, p, e) == Done(Mean(ps))
    decreases e + 1 - p
  {
    if p >= e {
      ps := [];
    } else {
      var q := TakenIsPiece(s, p, e);
      var m := PieceIsTaken(s, p, e, q);
      var rest := TakenArePieces(s, m, e);
      ps := Cons(s, p, e, m, q, rest);
    }
  }

  // ---------------------------------------------------------------- the closing quote

  /** A byte behind a backslash that is not itself behind such a one. */
  predicate Escaped(s: seq<byte>, i: nat, k: nat)
    requires i <= k <= |s|
    decreases k
  {
    k > i && s[k - 1] == 0x5C && !Escaped(s, i, k - 1)
  }

  /** The first quote that is not escaped. */
  predicate Closes(s: seq<byte>, i: nat, e: nat)
    requires i <= |s|
  {
    i <= e < |s| && s[e] == 0x22 && !Escaped(s, i, e) && forall k | i <= k < e && s[k] == 0x22 :: Escaped(s, i, k)
  }

  lemma {:induction false} ScanFrom(s: seq<byte>, i: nat, j: nat, e: nat)
    requires i <= j <= |s| && !Escaped(s, i, j)
    ensures ScanEnd(s, j) == Some(e) <==>
            && j <= e < |s| && s[e] == 0x22 && !Escaped(s, i, e)
            && forall k | j <= k < e && s[k] == 0x22 :: Escaped(s, i, k)
    decreases |s| - j
  {
    if j == |s| {
    } else if s[j] == 0x22 {
      assert e > j ==> !Escaped(s, i, j);
    } else if s[j] == 0x5C {
      assert Escaped(s, i, j + 1);
      if j + 2 <= |s| {
        assert !Escaped(s, i, j + 2);
        ScanFrom(s, i, j + 2, e);
      }
    } else {
      assert !Escaped(s, i, j + 1);
      ScanFrom(s, i, j + 1, e);
    }
  }

  /** The sizing scan stops at the first quote that is not escaped. */
  lemma ScanEndCloses(s: seq<byte>, i: nat, e: nat)
    requires i <= |s|
    ensures ScanEnd(s, i) == Some(e) <==> Closes(s, i, e)
  {
    ScanFrom(s, i, i, e);
  }

  /** The backslashes that are not themselves escaped. */
  function Escapes(s: seq<byte>, i: nat, j: nat, e: nat): set<nat>
    requires i <= j && e <= |s|
  {
    set k: nat | j <= k < e && s[k] == 0x5C && !Escaped(s, i, k)
  }

  lemma {:induction false} SkippedFrom(s: seq<byte>, i: nat, j: nat, e: nat)
    requires i <= j <= e <= |s| && !Escaped(s, i, j) && !Escaped(s, i, e)
    ensures Skipped(s, j, e) == |Escapes(s, i, j, e)|
    decreases e - j
  {
    if j == e {
      assert Escapes(s, i, j, e) == {};
    } else if s[j] == 0x5C {
      assert Escaped(s, i, j + 1) && !Escaped(s, i, j + 2);
      SkippedFrom(s, i, j + 2, e);
      assert Escapes(s, i, j, e) == {j} + Escapes(s, i, j + 2, e);
    } else {
      assert !Escaped(s, i, j + 1);
      SkippedFrom(s, i, j + 1, e);
      assert Escapes(s, i, j, e) == Escapes(s, i, j + 1, e);
    }
  }

  /** The sizing scan counts the escapes: what it asks for is the literal with its quotes, less
      one byte for each of them. */
  lemma AllocationSpelled(s: seq<byte>, o: nat, e: nat)
    requires o < |s| && Closes(s, o + 1, e)
    ensures Allocation(s, o, e) == e - o + 1 - |Escapes(s, o + 1, o + 1, e)|
  {
    SkippedFrom(s, o + 1, o + 1, e);
  }

  // ---------------------------------------------------------------- literals

  /** The pieces spell what is between the quotes at o and e; a last two-character escape may
      have taken the second quote along. */
  predicate Between(s: seq<byte>, o: nat, e: nat, ps: seq<Piece>)
    requires o < e < |s|
  {
    s[o + 1..e] == Spell(ps) || (s[o + 1..e + 1] == Spell(ps) && ps != [] && ps[|ps| - 1].Short?)
  }

  /** What is between the quotes splits into pieces that stand for the bytes. */
  ghost predicate StandsFor(s: seq<byte>, o: nat, e: nat, bytes: seq<byte>)
    requires o < e < |s|
  {
    exists ps: seq<Piece> :: Between(s, o, e, ps) && AllTaken(ps) && Mean(ps) == bytes
  }

  lemma FillSlice(s: seq<byte>, o: nat, e: nat, ps: seq<Piece>)
    requires o < e < |s|
    ensures At(s, o + 1, Spell(ps)) && Fill(ps, o + 1, e) <==> Between(s, o, e, ps)
  {
    AtSlice(s, o + 1, Spell(ps));
  }

  /** The decoding scan accepts exactly the literals of the grammar, with what their pieces
      stand for. */
  lemma DecodingStandsFor(s: seq<byte>, o: nat, e: nat, bytes: seq<byte>)
    requires o < e < |s|
    ensures DecodeString(s, o + 1, e) == Done(bytes) <==> StandsFor(s, o, e, bytes)
  {
    if DecodeString(s, o + 1, e) == Done(bytes) {
      var ps := TakenArePieces(s, o + 1, e);
      FillSlice(s, o, e, ps);
    }
    if StandsFor(s, o, e, bytes) {
      var ps: seq<Piece> :| Between(s, o, e, ps) && AllTaken(ps) && Mean(ps) == bytes;
      FillSlice(s, o, e, ps);
      PiecesAreTaken(s, o + 1, e, ps);
    }
  }

  /** The text is all of the bytes up to a NUL. */
  predicate UpToNul(bytes: seq<byte>, t: cstr) {
    t <= bytes && (|t| < |bytes| ==> bytes[|t|] == 0)
  }

  /** The pieces between the quotes stand for bytes of which the text is all up to a NUL. */
  ghost predicate Says(s: seq<byte>, o: nat, e: nat, bytes: seq<byte>, t: cstr)
    requires o < e < |s|
  {
    StandsFor(s, o, e, bytes) && UpToNul(bytes, t)
  }

  /** A literal with that text ends with the quote at e: the first one that is not escaped, and
      the pieces between the quotes say the text. */
  ghost predicate LiteralText(s: seq<byte>, o: nat, t: cstr, e: nat)
    requires o < |s|
  {
    && s[o] == 0x22 && o < e < |s| && Closes(s, o + 1, e)
    && exists bytes: seq<byte> :: Says(s, o, e, bytes, t)
  }

  /** The parser reads a string exactly where a literal stands, and reads its text. */
  lemma StringsAreLiterals(s: seq<byte>, o: nat, t: cstr, e: nat)
    requires o < |s|
    ensures ParseString(s, o) == Ok(t, e + 1) <==> LiteralText(s, o, t, e)
  {
    if ParseString(s, o) == Ok(t, e + 1) {
      StringIsLiteral(s, o, t, e);
    }
    if LiteralText(s, o, t, e) {
      var bytes: seq<byte> :| Says(s, o, e, bytes, t);
      ScanEndCloses(s, o + 1, e);
      BytesAreString(s, o, e, bytes, t);
    }
  }

  lemma StringIsLiteral(s: seq<byte>, o: nat, t: cstr, e: nat)
    requires o < |s| && ParseString(s, o) == Ok(t, e + 1)
    ensures LiteralText(s, o, t, e)
  {
    ScanEndCloses(s, o + 1, e);
    var bytes := DecodeString(s, o + 1, e).output;
    DecodingStandsFor(s, o, e, bytes);
    assert Says(s, o, e, bytes, t);
  }

  lemma BytesAreString(s: seq<byte>, o: nat, e: nat, bytes: seq<byte>, t: cstr)
    requires o < e < |s| && s[o] == 0x22 && ScanEnd(s, o + 1) == Some(e) && Says(s, o, e, bytes, t)
    ensures ParseString(s, o) == Ok(t, e + 1)
  {
    DecodingStandsFor(s, o, e, bytes);
    CStringIs(bytes, t);
  }

  lemma CStringIs(bytes: seq<byte>, t: cstr)
    requires UpToNul(bytes, t)
    ensures CString(bytes) == t
  {
    assert bytes == t + bytes[|t|..];
    CStringOfText(t, bytes[|t|..]);
  }

  // ---------------------------------------------------------------- strict literals

  /** The sizing scan goes past a piece that RFC 8259 admits. */
  lemma ScanPassesPiece(s: seq<byte>, i: nat, q: Piece) returns (m: nat)
    requires Strict(q) && At(s, i, Spelling(q))
    ensures m == i + |Spelling(q)| <= |s| && ScanEnd(s, i) == ScanEnd(s, m)
  {
    m := i + |Spelling(q)|;
    AtBound(s, i, Spelling(q));
    match q
    case Plain(c) => AtIndex(s, i, [c], 0);
    case Short(letter, c) => ShortAt(s, i, letter);
    case Unit(digits, _) => ScanPassesUnit(s, i, digits);
    case Pair(high, low, _) =>
      PairSpelling(s, i, q);
      ScanPassesUnit(s, i, high);
      ScanPassesUnit(s, i + 6, low);
  }

  lemma ScanPassesUnit(s: seq<byte>, i: nat, digits: seq<byte>)
    requires FourHex(digits) && At(s, i, [0x5C, 0x75] + digits)
    ensures i + 6 <= |s| && ScanEnd(s, i) == ScanEnd(s, i + 6)
  {
    EscapeAt(s, i, digits);
    assert digits[0] == s[i + 2] && digits[1] == s[i + 3] && digits[2] == s[i + 4] && digits[3] == s[i + 5];
    assert ScanEnd(s, i + 4) == ScanEnd(s, i + 5) == ScanEnd(s, i + 6);
    assert ScanEnd(s, i) == ScanEnd(s, i + 2) == ScanEnd(s, i + 3) == ScanEnd(s, i + 4);
  }

  lemma {:induction false} ScanPassesPieces(s: seq<byte>, i: nat, ps: seq<Piece>) returns (m: nat)
    requires AllStrict(ps) && At(s, i, Spell(ps))
    ensures m == i + |Spell(ps)| <= |s| && ScanEnd(s, i) == ScanEnd(s, m)
    decreases |ps|
  {
    if ps == [] {
      m := i;
    } else {
      var k := AtSplit(s, i, Spelling(ps[0]), Spell(ps[1..]));
      var n := ScanPassesPiece(s, i, ps[0]);
      m := ScanPassesPieces(s, k, ps[1..]);
    }
  }

  lemma {:induction false} StrictIsTaken(ps: seq<Piece>)
    requires AllStrict(ps)
    ensures AllTaken(ps)
  {
    if ps != [] {
      StrictIsTaken(ps[1..]);
    }
  }

  /** A literal of RFC 8259 with the quotes at o and e, and its text: what its pieces stand for,
      up to a NUL. */
  ghost predicate StrictText(s: seq<byte>, o: nat, t: cstr, e: nat) {
    && o < e < |s| && s[o] == 0x22 && s[e] == 0x22
    && exists ps: seq<Piece> :: Spell(ps) == s[o + 1..e] && AllStrict(ps) && UpToNul(Mean(ps), t)
  }

  /** Every literal of RFC 8259 is read, to its closing quote, as its text. */
  lemma StrictLiteralIsRead(s: seq<byte>, o: nat, t: cstr, e: nat)
    requires StrictText(s, o, t, e)
    ensures LiteralText(s, o, t, e) && ParseString(s, o) == Ok(t, e + 1)
  {
    var ps: seq<Piece> :| Spell(ps) == s[o + 1..e] && AllStrict(ps) && UpToNul(Mean(ps), t);
    StrictEnd(s, o, e, ps);
    StrictIsTaken(ps);
    assert StandsFor(s, o, e, Mean(ps));
    BytesAreString(s, o, e, Mean(ps), t);
    StringIsLiteral(s, o, t, e);
  }

  lemma StrictEnd(s: seq<byte>, o: nat, e: nat, ps: seq<Piece>)
    requires o < e < |s| && s[e] == 0x22 && s[o + 1..e] == Spell(ps) && AllStrict(ps)
    ensures ScanEnd(s, o + 1) == Some(e)
  {
    AtSlice(s, o + 1, Spell(ps));
    StrictEndAt(s, o + 1, e, ps);
  }

  lemma StrictEndAt(s: seq<byte>, i: nat, e: nat, ps: seq<Piece>)
    requires e < |s| && s[e] == 0x22 && At(s, i, Spell(ps)) && e == i + |Spell(ps)| && AllStrict(ps)
    ensures ScanEnd(s, i) == Some(e)
  {
    var m := ScanPassesPieces(s, i, ps);
    ScanAtQuote(s, e);
  }

  lemma ScanAtQuote(s: seq<byte>, e: nat)
    requires e < |s| && s[e] == 0x22
    ensures ScanEnd(s, e) == Some(e)
  {}

  // ---------------------------------------------------------------- printed literals

  /** The piece that is printed for a character. */
  lemma PrintedPiece(c: cchar) returns (q: Piece)
    ensures Strict(q) && Spelling(q) == EscapeChar(c) && Meaning(q) == [c]
  {
    if !NeedsEscape(c) {
      q := Plain(c);
    } else if ShortEscape(c).Some? {
      q := Short(ShortEscape(c).value, c);
    } else {
      var digits: seq<byte> := [0x30, 0x30, HEX_DIGITS[c / 16], HEX_DIGITS[c % 16]];
      HexLetters(c);
      q := Unit(digits, [c]);
      assert UnitValue(digits) == c;
    }
  }

  /** Every printed literal is one of RFC 8259, and stands for the text. */
  lemma {:induction false} PrintedIsStrict(t: cstr) returns (ps: seq<Piece>)
    ensures AllStrict(ps) && Quoted(t) == [0x22] + Spell(ps) + [0x22] && Mean(ps) == t
    decreases |t|
  {
    if t == [] {
      ps := [];
    } else {
      var q := PrintedPiece(t[0]);
      var rest := PrintedIsStrict(t[1..]);
      ps := Front(q, rest);
      assert t == [t[0]] + t[1..];
      SameMiddle(Escape(t[1..]), Spell(rest));
    }
  }

  lemma SameMiddle(a: seq<byte>, b: seq<byte>)
    requires [0x22] + a + [0x22] == [0x22] + b + [0x22]
    ensures a == b
  {
    var x, y := [0x22] + a + [0x22], [0x22] + b + [0x22];
    assert x[1..|x| - 1] == a && y[1..|y| - 1] == b;
  }
}

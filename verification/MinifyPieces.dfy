/** Minification by the pieces of a text, written out in character codes: what goes, what stays,
    and that nothing else happens. */
module MinifyPieces {
  import opened Bytes
  import opened Minify

  /** A comment that is not ended and a literal that is not closed run to the end of the text. */
  datatype Piece =
    | Blank(c: cchar)
    | LineComment(body: cstr, ended: bool)
    | BlockComment(body: cstr, ended: bool)
    | Slash
    | Literal(body: cstr, ended: bool)
    | Other(c: cchar)

  function Spelling(p: Piece): cstr {
    match p
    case Blank(c) => [c]
    case LineComment(body, ended) => [0x2F, 0x2F] + (body + if ended then [0x0A] else [])
    case BlockComment(body, ended) => [0x2F, 0x2A] + (body + if ended then [0x2A, 0x2F] else [])
    case Slash => [0x2F]
    case Literal(body, ended) => [0x22] + (body + if ended then [0x22] else [])
    case Other(c) => [c]
  }

  /** Literals and other characters stay. */
  function Kept(p: Piece): cstr {
    match p
    case Literal(body, ended) => [0x22] + (body + if ended then [0x22] else [])
    case Other(c) => [c]
    case _ => []
  }

  predicate NoEnd(body: cstr) {
    forall k :: 0 < k < |body| ==> !(body[k - 1] == 0x2A && body[k] == 0x2F)
  }

  /** Every quote has a backslash right in front of it. */
  predicate Protected(body: cstr) {
    forall k :: 0 <= k < |body| && body[k] == 0x22 ==> k > 0 && body[k - 1] == 0x5C
  }

  predicate EndsOpen(body: cstr) {
    body == [] || body[|body| - 1] != 0x5C
  }

  /** A block comment ends at the first star with a slash behind it; in a literal a quote is
      protected by a backslash right in front of it, whatever is in front of that. */
  predicate WellFormed(p: Piece) {
    match p
    case Blank(c) => c == 0x20 || c == 0x09 || c == 0x0D || c == 0x0A
    case LineComment(body, _) => 0x0A !in body
    case BlockComment(body, _) => NoEnd(body)
    case Slash => true
    case Literal(body, ended) => Protected(body) && (ended ==> EndsOpen(body))
    case Other(c) => c != 0x20 && c != 0x09 && c != 0x0D && c != 0x0A && c != 0x2F && c != 0x22
  }

  function Spell(ps: seq<Piece>): cstr {
    if ps == [] then [] else Spelling(ps[0]) + Spell(ps[1..])
  }

  function Keep(ps: seq<Piece>): cstr {
    if ps == [] then [] else Kept(ps[0]) + Keep(ps[1..])
  }

  /** Whether a text may go on like this behind the piece. */
  predicate MayPrecede(p: Piece, rest: cstr) {
    match p
    case Slash => rest != [] ==> rest[0] != 0x2F && rest[0] != 0x2A
    case LineComment(_, ended) => ended || rest == []
    case BlockComment(_, ended) => ended || rest == []
    case Literal(_, ended) => ended || rest == []
    case _ => true
  }

  predicate Pieces(ps: seq<Piece>) {
    ps == [] || (WellFormed(ps[0]) && MayPrecede(ps[0], Spell(ps[1..])) && Pieces(ps[1..]))
  }

  // ---------------------------------------------------------------- from pieces

  lemma {:induction false} PastLineOf(body: cstr, ended: bool, rest: cstr)
    requires 0x0A !in body && (ended || rest == [])
    ensures PastLine(body + (if ended then [0x0A] else []) + rest) == rest
    decreases |body|
  {
    var t := body + (if ended then [0x0A] else []) + rest;
    if body == [] {
      assert ended ==> t[1..] == rest;
    } else {
      assert t[1..] == body[1..] + (if ended then [0x0A] else []) + rest;
      PastLineOf(body[1..], ended, rest);
    }
  }

  lemma {:induction false} PastBlockOf(body: cstr, ended: bool, rest: cstr)
    requires NoEnd(body) && (ended || rest == [])
    ensures PastBlock(body + (if ended then [0x2A, 0x2F] else []) + rest) == rest
    decreases |body|
  {
    var t := body + (if ended then [0x2A, 0x2F] else []) + rest;
    if body == [] {
      assert ended ==> t[2..] == rest;
    } else {
      assert t[1..] == body[1..] + (if ended then [0x2A, 0x2F] else []) + rest;
      assert NoEnd(body[1..]);
      PastBlockOf(body[1..], ended, rest);
    }
  }

  /** A body in front of its tail, and what minification makes of the tail. */
  lemma {:induction false} InStringOf(body: cstr, tail: cstr, out: cstr)
    requires Protected(body) && InString(tail) == out
    requires tail != [] && tail[0] == 0x22 ==> EndsOpen(body)
    ensures InString(body + tail) == body + out
    decreases |body|
  {
    if body == [] {
      assert body + tail == tail && body + out == out;
    } else {
      var n := if body[0] == 0x5C && |body| > 1 && body[1] == 0x22 then 2 else 1;
      var more := body[n..];
      ProtectedRest(body, n);
      InStringOf(more, tail, out);
      CutAt(body, tail, out, n);
      InStringStep(body + tail, n);
    }
  }

  lemma CutAt(body: cstr, tail: cstr, out: cstr, n: nat)
    requires n <= |body|
    ensures (body + tail)[n..] == body[n..] + tail && (body + tail)[..n] == body[..n]
    ensures body[..n] + (body[n..] + out) == body + out
  {}

  lemma InStringStep(t: cstr, n: nat)
    requires t != [] && t[0] != 0x22
    requires n == if t[0] == 0x5C && |t| > 1 && t[1] == 0x22 then 2 else 1
    ensures InString(t) == t[..n] + InString(t[n..])
  {
    if n == 2 {
      assert t[..2] == [0x5C, 0x22];
    } else {
      assert t[..1] == [t[0]];
    }
  }

  lemma ProtectedRest(body: cstr, n: nat)
    requires Protected(body) && body != []
    requires n == if body[0] == 0x5C && |body| > 1 && body[1] == 0x22 then 2 else 1
    ensures body[0] != 0x22 && Protected(body[n..])
    ensures EndsOpen(body) ==> EndsOpen(body[n..])
  {
    var more := body[n..];
    forall k | 0 <= k < |more| && more[k] == 0x22
      ensures k > 0 && more[k - 1] == 0x5C
    {
      assert body[n + k] == 0x22;
      assert body[n + k - 1] == 0x5C;
    }
  }

  lemma LineMinified(body: cstr, ended: bool, rest: cstr)
    requires 0x0A !in body && (ended || rest == [])
    ensures Minified(Spelling(LineComment(body, ended)) + rest) == Minified(rest)
  {
    PastLineOf(body, ended, rest);
    var t := Spelling(LineComment(body, ended)) + rest;
    assert t[2..] == body + (if ended then [0x0A] else []) + rest;
  }

  lemma BlockMinified(body: cstr, ended: bool, rest: cstr)
    requires NoEnd(body) && (ended || rest == [])
    ensures Minified(Spelling(BlockComment(body, ended)) + rest) == Minified(rest)
  {
    PastBlockOf(body, ended, rest);
    var t := Spelling(BlockComment(body, ended)) + rest;
    assert t[2..] == body + (if ended then [0x2A, 0x2F] else []) + rest;
  }

  lemma LiteralMinified(body: cstr, ended: bool, rest: cstr)
    requires Protected(body) && (if ended then EndsOpen(body) else rest == [])
    ensures Minified([0x22] + (body + if ended then [0x22] else []) + rest)
         == [0x22] + (body + if ended then [0x22] else []) + Minified(rest)
  {
    if ended {
      var tail := [0x22] + rest;
      assert tail[1..] == rest;
      InStringOf(body, tail, [0x22] + Minified(rest));
      Quoting(body, rest, Minified(rest));
    } else {
      InStringOf(body, [], []);
      assert [0x22] + (body + []) + rest == [0x22] + body;
      assert ([0x22] + body)[1..] == body && body + [] == body;
    }
  }

  lemma Quoting(body: cstr, rest: cstr, out: cstr)
    requires InString(body + ([0x22] + rest)) == body + ([0x22] + out)
    ensures Minified([0x22] + (body + [0x22]) + rest) == [0x22] + (body + [0x22]) + out
  {
    Assoc(body, [0x22], rest);
    Assoc([0x22], body + [0x22], rest);
    Assoc(body, [0x22], out);
    Assoc([0x22], body + [0x22], out);
    assert ([0x22] + (body + ([0x22] + rest)))[1..] == body + ([0x22] + rest);
  }

  /** One piece in front of any text. */
  lemma PieceMinified(p: Piece, rest: cstr)
    requires WellFormed(p) && MayPrecede(p, rest)
    ensures Minified(Spelling(p) + rest) == Kept(p) + Minified(rest)
  {
    match p
    case LineComment(body, ended) => LineMinified(body, ended, rest);
    case BlockComment(body, ended) => BlockMinified(body, ended, rest);
    case Literal(body, ended) => LiteralMinified(body, ended, rest);
    case _ => assert (Spelling(p) + rest)[1..] == rest;
  }

  lemma {:induction false} PiecesMinified(ps: seq<Piece>)
    requires Pieces(ps)
    ensures Minified(Spell(ps)) == Keep(ps)
    decreases |ps|
  {
    if ps != [] {
      PiecesMinified(ps[1..]);
      PieceMinified(ps[0], Spell(ps[1..]));
    }
  }

  // ---------------------------------------------------------------- to pieces

  lemma {:induction false} LineSplit(t: cstr) returns (body: cstr, ended: bool, rest: cstr)
    ensures t == body + (if ended then [0x0A] else []) + rest
    ensures 0x0A !in body && (ended || rest == [])
    decreases |t|
  {
    if t == [] {
      body, ended, rest := [], false, [];
    } else if t[0] == 0x0A {
      body, ended, rest := [], true, t[1..];
    } else {
      body, ended, rest := LineSplit(t[1..]);
      assert t == [t[0]] + (body + (if ended then [0x0A] else []) + rest);
      body := [t[0]] + body;
    }
  }

  lemma {:induction false} BlockSplit(t: cstr) returns (body: cstr, ended: bool, rest: cstr)
    ensures t == body + (if ended then [0x2A, 0x2F] else []) + rest
    ensures NoEnd(body) && (ended || rest == [])
    decreases |t|
  {
    if t == [] {
      body, ended, rest := [], false, [];
    } else if t[0] == 0x2A && |t| > 1 && t[1] == 0x2F {
      body, ended, rest := [], true, t[2..];
    } else {
      var more;
      more, ended, rest := BlockSplit(t[1..]);
      assert t == [t[0]] + (more + (if ended then [0x2A, 0x2F] else []) + rest);
      body := [t[0]] + more;
      assert more != [] ==> more[0] == t[1];
    }
  }

  /** A literal from its second character on. */
  lemma {:induction false} StringSplit(t: cstr) returns (body: cstr, ended: bool, rest: cstr)
    ensures t == body + (if ended then [0x22] else []) + rest
    ensures Protected(body) && (if ended then EndsOpen(body) else rest == [])
    decreases |t|
  {
    if t == [] {
      body, ended, rest := [], false, [];
    } else if t[0] == 0x22 {
      body, ended, rest := [], true, t[1..];
    } else {
      var n := if t[0] == 0x5C && |t| > 1 && t[1] == 0x22 then 2 else 1;
      var more;
      more, ended, rest := StringSplit(t[n..]);
      body := t[..n] + more;
      Glue(t, n, more, ended, rest);
    }
  }

  lemma Glue(t: cstr, n: nat, more: cstr, ended: bool, rest: cstr)
    requires t != [] && t[0] != 0x22
    requires n == if t[0] == 0x5C && |t| > 1 && t[1] == 0x22 then 2 else 1
    requires t[n..] == more + (if ended then [0x22] else []) + rest
    requires Protected(more) && (if ended then EndsOpen(more) else rest == [])
    ensures t == t[..n] + more + (if ended then [0x22] else []) + rest
    ensures Protected(t[..n] + more) && (ended ==> EndsOpen(t[..n] + more))
  {
    var body := t[..n] + more;
    assert t == t[..n] + t[n..];
    forall k | 0 <= k < |body| && body[k] == 0x22
      ensures k > 0 && body[k - 1] == 0x5C
    {
      if k >= n {
        assert more[k - n] == 0x22;
        assert more[k - n - 1] == 0x5C;
      }
    }
    if ended && more == [] {
      assert t[n..][0] == 0x22;
    }
  }

  /** The first piece of a text. */
  lemma FirstPiece(t: cstr) returns (p: Piece, rest: cstr)
    requires t != []
    ensures t == Spelling(p) + rest && WellFormed(p) && MayPrecede(p, rest) && |rest| < |t|
  {
    var c := t[0];
    rest := t[1..];
    if c == 0x20 || c == 0x09 || c == 0x0D || c == 0x0A {
      p := Blank(c);
    } else if c == 0x22 {
      var body, ended;
      body, ended, rest := StringSplit(t[1..]);
      p := Literal(body, ended);
      assert t == [0x22] + t[1..];
    } else if c != 0x2F {
      p := Other(c);
    } else if |t| > 1 && t[1] == 0x2F {
      var body, ended;
      body, ended, rest := LineSplit(t[2..]);
      p := LineComment(body, ended);
      assert t == [0x2F, 0x2F] + t[2..];
    } else if |t| > 1 && t[1] == 0x2A {
      var body, ended;
      body, ended, rest := BlockSplit(t[2..]);
      p := BlockComment(body, ended);
      assert t == [0x2F, 0x2A] + t[2..];
    } else {
      p := Slash;
    }
  }

  lemma {:induction false} SplitText(t: cstr) returns (ps: seq<Piece>)
    ensures Pieces(ps) && Spell(ps) == t
    decreases |t|
  {
    if t == [] {
      ps := [];
    } else {
      var p, rest := FirstPiece(t);
      var more := SplitText(rest);
      ps := [p] + more;
      assert ps[1..] == more;
    }
  }

  /** Every text splits into pieces, and its minified form is, in whatever way it splits, what
      stays of the pieces: literals as they are, characters that are neither blanks nor part of a
      comment nor a single slash. */
  lemma MinifiedIsKept(t: cstr, out: cstr)
    ensures Minified(t) == out <==> exists ps: seq<Piece> :: Pieces(ps) && Spell(ps) == t && Keep(ps) == out
  {
    var ps := SplitText(t);
    PiecesMinified(ps);
    forall qs: seq<Piece> | Pieces(qs) && Spell(qs) == t
      ensures Keep(qs) == Minified(t)
    {
      PiecesMinified(qs);
    }
  }
}

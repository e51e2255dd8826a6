/** Which literals of section 7 of RFC 8259 `parse_string` decodes, and to what. */
module Literals {
  import opened Bytes
  import opened Utf
  import opened StringLiteral

  /** The parts a string literal is made of. */
  datatype Piece =
    | Raw(b: byte)
    | Short(letter: byte)
    | Unit(digits: bytes)
    | Pair(high: bytes, low: bytes)

  predicate FourDigits(d: bytes) {
    |d| == 4 && IsHex(d[0]) && IsHex(d[1]) && IsHex(d[2]) && IsHex(d[3])
  }

  predicate Legal(p: Piece) {
    match p
    case Raw(b) => b != QUOTE && b != BACKSLASH && b != 0
    case Short(c) => c in {0x62, 0x66, 0x6e, 0x72, 0x74, QUOTE, BACKSLASH, SLASH}
    case Unit(d) => FourDigits(d) && Hex4(d) != 0 && Scalar(Hex4(d))
    case Pair(h, l) => FourDigits(h) && FourDigits(l) && HighSurrogate(Hex4(h)) && LowSurrogate(Hex4(l))
  }

  /** What pass two also takes: any byte but a backslash, the code point zero, and for four bytes that are no
      hexadecimal digits that code point as well. */
  predicate Loose(p: Piece) {
    match p
    case Raw(b) => b != BACKSLASH
    case Short(c) => Legal(p)
    case Unit(d) => |d| == 4 && Scalar(Hex4(d))
    case Pair(h, l) => |h| == 4 && |l| == 4 && HighSurrogate(Hex4(h)) && LowSurrogate(Hex4(l))
  }

  function PieceText(p: Piece): bytes {
    match p
    case Raw(b) => [b]
    case Short(c) => [BACKSLASH, c]
    case Unit(d) => [BACKSLASH, 0x75] + d
    case Pair(h, l) => [BACKSLASH, 0x75] + h + [BACKSLASH, 0x75] + l
  }

  /** The code point a piece denotes; a raw byte from 0x80 on is only part of one. */
  function PieceCode(p: Piece): (cp: nat)
    requires Loose(p)
    ensures Scalar(cp) && (Legal(p) ==> cp != 0)
  {
    match p
    case Raw(b) => b
    case Short(0x62) => 0x08
    case Short(0x66) => 0x0c
    case Short(0x6e) => 0x0a
    case Short(0x72) => 0x0d
    case Short(0x74) => 0x09
    case Short(c) => c
    case Unit(d) => Hex4(d)
    case Pair(h, l) => JoinSurrogates(Hex4(h), Hex4(l))
  }

  function PieceBytes(p: Piece): (r: bytes)
    requires Loose(p)
    ensures Legal(p) ==> NoNul(r)
  {
    if p.Raw? then [p.b] else Utf8(PieceCode(p))
  }

  predicate AllLegal(ps: seq<Piece>) {
    forall i :: 0 <= i < |ps| ==> Legal(ps[i])
  }

  predicate AllLoose(ps: seq<Piece>) {
    forall i :: 0 <= i < |ps| ==> Loose(ps[i])
  }

  lemma LegalIsLoose(ps: seq<Piece>)
    requires AllLegal(ps)
    ensures AllLoose(ps)
  {
  }

  function LiteralText(ps: seq<Piece>, rest: bytes): bytes {
    if ps == [] then rest else PieceText(ps[0]) + LiteralText(ps[1..], rest)
  }

  function LiteralBytes(ps: seq<Piece>): (r: bytes)
    requires AllLoose(ps)
    ensures AllLegal(ps) ==> NoNul(r)
  {
    if ps == [] then [] else PieceBytes(ps[0]) + LiteralBytes(ps[1..])
  }

  lemma {:induction false} LiteralThen(ps: seq<Piece>, rest: bytes)
    ensures LiteralText(ps, rest) == LiteralText(ps, []) + rest
  {
    if ps == [] {
    } else {
      hide PieceText;
      LiteralThen(ps[1..], rest);
      var first, more := PieceText(ps[0]), LiteralText(ps[1..], []);
      assert first + (more + rest) == (first + more) + rest;
    }
  }

  // ----- pass one: no quote but an escaped one -----

  predicate Closed(token: bytes) {
    token != [] ==>
      if token[0] == BACKSLASH then |token| >= 2 && Closed(token[2..]) else token[0] != QUOTE && Closed(token[1..])
  }

  /** Pass one stops at the first quote that is not escaped. */
  lemma {:induction false} ClosedCloses(t: bytes, p: nat, token: bytes)
    requires p + |token| < |t| && t[p..p + |token|] == token && t[p + |token|] == QUOTE && Closed(token)
    ensures CloseFrom(t, p) == Some(p + |token|)
    decreases |token|
  {
    if token == [] {
    } else {
      assert t[p] == token[0];
      var n := if token[0] == BACKSLASH then 2 else 1;
      assert t[p + n..p + |token|] == token[n..];
      ClosedCloses(t, p + n, token[n..]);
    }
  }

  lemma {:induction false} CloseIsClosed(t: bytes, p: nat)
    requires p <= |t| && CloseFrom(t, p).Some?
    ensures Closed(t[p..CloseFrom(t, p).value])
    decreases |t| - p
  {
    var end := CloseFrom(t, p).value;
    if t[p] == QUOTE {
    } else {
      var n := if t[p] == BACKSLASH then 2 else 1;
      CloseIsClosed(t, p + n);
      assert t[p..end][n..] == t[p + n..end];
    }
  }

  lemma {:induction false} ClosedConcat(a: bytes, b: bytes)
    requires Closed(a) && Closed(b)
    ensures Closed(a + b)
    decreases |a|
  {
    if a == [] {
      assert a + b == b;
    } else {
      var n := if a[0] == BACKSLASH then 2 else 1;
      assert (a + b)[n..] == a[n..] + b;
      ClosedConcat(a[n..], b);
    }
  }

  lemma {:induction false} PlainClosed(d: bytes)
    requires forall i :: 0 <= i < |d| ==> d[i] != QUOTE && d[i] != BACKSLASH
    ensures Closed(d)
  {
    if d == [] {
    } else {
      PlainClosed(d[1..]);
    }
  }

  lemma PieceClosed(p: Piece)
    requires Legal(p)
    ensures Closed(PieceText(p))
  {
    match p
    case Raw(b) =>
    case Short(c) => assert PieceText(p)[2..] == [];
    case Unit(d) => UnitClosed(d);
    case Pair(h, l) =>
      UnitClosed(h);
      UnitClosed(l);
      ClosedConcat([BACKSLASH, 0x75] + h, [BACKSLASH, 0x75] + l);
      assert PieceText(p) == ([BACKSLASH, 0x75] + h) + ([BACKSLASH, 0x75] + l);
  }

  lemma UnitClosed(d: bytes)
    requires FourDigits(d)
    ensures Closed([BACKSLASH, 0x75] + d)
  {
    PlainClosed(d);
    assert ([BACKSLASH, 0x75] + d)[2..] == d;
  }

  lemma {:induction false} LegalClosed(ps: seq<Piece>)
    requires AllLegal(ps)
    ensures Closed(LiteralText(ps, []))
  {
    hide PieceText, Legal;
    if ps == [] {
    } else {
      PieceClosed(ps[0]);
      LegalClosed(ps[1..]);
      ClosedConcat(PieceText(ps[0]), LiteralText(ps[1..], []));
    }
  }

  // ----- pass two: the pieces -----

  /** Pass two ends at the closing quote, or behind it when the last piece is a backslash and that quote. */
  predicate EndsAt(ps: seq<Piece>, p: nat, end: nat) {
    var n := p + |LiteralText(ps, [])|;
    n == end || (n == end + 1 && (ps == [] || ps[|ps| - 1] == Short(QUOTE)))
  }

  /** Pass two turns a piece into its bytes. */
  lemma PieceDecodes(t: bytes, p: nat, end: nat, piece: Piece)
    requires Loose(piece) && p < end < |t| && PieceText(piece) <= t[p..]
    requires p + |PieceText(piece)| <= end + if piece.Short? then 1 else 0
    ensures StepAt(t, p, end) == Step(PieceBytes(piece), |PieceText(piece)|)
  {
    var text := PieceText(piece);
    assert forall i :: 0 <= i < |text| ==> t[p + i] == text[i];
    match piece
    case Raw(b) =>
    case Short(c) =>
    case Unit(d) => assert t[p + 2..p + 6] == d;
    case Pair(h, l) => assert t[p + 2..p + 6] == h && t[p + 8..p + 12] == l;
  }

  /** A round of pass two reads a piece. */
  lemma StepReads(t: bytes, p: nat, end: nat) returns (piece: Piece)
    requires p < end < |t| && t[end] == QUOTE && StepAt(t, p, end).Step?
    ensures Loose(piece) && StepAt(t, p, end) == Step(PieceBytes(piece), |PieceText(piece)|)
    ensures PieceText(piece) == t[p..p + |PieceText(piece)|]
    ensures p + |PieceText(piece)| <= end || piece == Short(QUOTE)
  {
    if t[p] == BACKSLASH && t[p + 1] == 0x75 {
      piece := UnitRead(t, p, end);
    } else {
      piece := if t[p] != BACKSLASH then Raw(t[p]) else Short(t[p + 1]);
    }
  }

  lemma UnitRead(t: bytes, p: nat, end: nat) returns (piece: Piece)
    requires p < end < |t| && t[p] == BACKSLASH && t[p + 1] == 0x75 && StepAt(t, p, end).Step?
    ensures Loose(piece) && StepAt(t, p, end) == Step(PieceBytes(piece), |PieceText(piece)|)
    ensures p + |PieceText(piece)| <= end && PieceText(piece) == t[p..p + |PieceText(piece)|]
  {
    hide Hex4, Utf8, CodeAt;
    piece := CodeRead(t, p, end);
  }

  lemma CodeRead(t: bytes, p: nat, end: nat) returns (piece: Piece)
    requires p < end < |t| && t[p] == BACKSLASH && t[p + 1] == 0x75 && CodeAt(t, p, end).Code?
    ensures (piece.Unit? || piece.Pair?) && Loose(piece) && p + |PieceText(piece)| <= end
    ensures CodeAt(t, p, end) == Code(PieceCode(piece), |PieceText(piece)|)
    ensures PieceText(piece) == t[p..p + |PieceText(piece)|]
  {
    hide Hex4, JoinSurrogates;
    var first := t[p + 2..p + 6];
    piece := if HighSurrogate(Hex4(first)) then Pair(first, t[p + 8..p + 12]) else Unit(first);
  }

  lemma DecodeOne(t: bytes, p: nat, end: nat, out: bytes, length: nat)
    requires p < end < |t| && StepAt(t, p, end) == Step(out, length)
    ensures Decode(t, p, end) == Prepend(out, Decode(t, p + length, end))
  {
    hide StepAt;
  }

  lemma PiecesSplit(ps: seq<Piece>, p: nat, end: nat)
    requires ps != [] && EndsAt(ps, p, end)
    ensures p < end && EndsAt(ps[1..], p + |PieceText(ps[0])|, end)
    ensures p + |PieceText(ps[0])| <= end + if ps[0].Short? then 1 else 0
  {
    var rest := ps[1..];
    if |ps| > 1 {
      assert rest[|rest| - 1] == ps[|ps| - 1];
      LastPiece(rest);
    }
  }

  lemma {:induction false} LastPiece(ps: seq<Piece>)
    requires ps != []
    ensures |LiteralText(ps, [])| >= |PieceText(ps[|ps| - 1])|
  {
    hide PieceText;
    if |ps| > 1 {
      LastPiece(ps[1..]);
    }
  }

  lemma {:induction false} PiecesDecode(t: bytes, p: nat, end: nat, ps: seq<Piece>)
    requires AllLoose(ps) && p <= end + 1 <= |t| && LiteralText(ps, []) <= t[p..] && EndsAt(ps, p, end)
    ensures Decode(t, p, end) == Some(LiteralBytes(ps))
    decreases |ps|
  {
    hide PieceText, PieceBytes, StepAt, Loose;
    if ps == [] {
    } else {
      var n := |PieceText(ps[0])|;
      PiecesSplit(ps, p, end);
      hide EndsAt;
      PieceDecodes(t, p, end, ps[0]);
      DecodeOne(t, p, end, PieceBytes(ps[0]), n);
      assert t[p + n..] == t[p..][n..];
      PiecesDecode(t, p + n, end, ps[1..]);
    }
  }

  /** Whatever pass two accepts is made of pieces. */
  lemma {:induction false} DecodeReads(t: bytes, p: nat, end: nat) returns (ps: seq<Piece>)
    requires p <= end + 1 <= |t| && t[end] == QUOTE && Decode(t, p, end).Some?
    ensures AllLoose(ps) && LiteralText(ps, []) <= t[p..] && EndsAt(ps, p, end)
    ensures Decode(t, p, end) == Some(LiteralBytes(ps))
    decreases end + 1 - p
  {
    hide PieceText, PieceBytes, StepAt, Loose;
    if p >= end {
      ps := [];
    } else {
      var piece := StepReads(t, p, end);
      var n := |PieceText(piece)|;
      var more := DecodeReads(t, p + n, end);
      ps := [piece] + more;
      assert ps[1..] == more;
      assert t[p..] == t[p..p + n] + t[p + n..];
      assert more != [] ==> ps[|ps| - 1] == more[|more| - 1];
    }
  }

  // ----- the whole literal -----

  /** `token` between quotes is read as `text`: no quote in it but escaped ones, and pieces that spell it, the
      last of which may take the closing quote. The text ends at its first NUL. */
  ghost predicate LooseLiteral(token: bytes, text: bytes) {
    && Closed(token)
    && exists ps :: AllLoose(ps) && Spells(ps, token) && text == CString(LiteralBytes(ps))
  }

  predicate Spells(ps: seq<Piece>, token: bytes) {
    LiteralText(ps, []) <= token + [QUOTE] && EndsAt(ps, 0, |token|)
  }

  /** Such a token is read as that text, whatever input follows it. */
  lemma {:induction false} LooseParses(token: bytes, text: bytes, rest: bytes)
    requires LooseLiteral(token, text)
    ensures ParseLiteral([QUOTE] + (token + ([QUOTE] + rest))) == Literal(text, rest)
  {
    hide Closed, EndsAt, LiteralText, LiteralBytes, CString, Decode, CloseFrom, AllLoose;
    var ps :| AllLoose(ps) && Spells(ps, token) && text == CString(LiteralBytes(ps));
    var body := token + ([QUOTE] + rest);
    Sliced(token, rest);
    assert LiteralText(ps, []) <= body;
    ClosedCloses(body, 0, token);
    PiecesDecode(body, 0, |token|, ps);
  }

  lemma Sliced(token: bytes, rest: bytes)
    ensures var body := token + ([QUOTE] + rest);
            && ([QUOTE] + body)[1..] == body && token + [QUOTE] <= body && body[0..] == body
            && body[0..0 + |token|] == token && body[|token|] == QUOTE && body[|token| + 1..] == rest
  {
    var body := token + ([QUOTE] + rest);
    assert body == (token + [QUOTE]) + rest;
  }

  /** And `parse_string` accepts nothing else. */
  lemma {:induction false} AcceptedIsLoose(t: bytes) returns (token: bytes)
    requires ParseLiteral(t).Literal?
    ensures t == [QUOTE] + (token + ([QUOTE] + ParseLiteral(t).rest))
    ensures LooseLiteral(token, ParseLiteral(t).text)
  {
    hide Closed, EndsAt, LiteralText, LiteralBytes, CString, Decode, CloseFrom, AllLoose, Spells;
    var body := t[1..];
    var end := CloseFrom(body, 0).value;
    token := body[..end];
    CloseIsClosed(body, 0);
    assert body[0..end] == token && body[0..] == body;
    var ps := DecodeReads(body, 0, end);
    InToken(ps, body, end);
    Rejoined(t, end);
  }

  lemma Rejoined(t: bytes, end: nat)
    requires t != [] && t[0] == QUOTE && end + 1 < |t| && t[1..][end] == QUOTE
    ensures t == [QUOTE] + (t[1..][..end] + ([QUOTE] + t[1..][end + 1..]))
  {
    var body := t[1..];
    assert body == body[..end] + ([QUOTE] + body[end + 1..]);
  }

  lemma InToken(ps: seq<Piece>, body: bytes, end: nat)
    requires end < |body| && body[end] == QUOTE && LiteralText(ps, []) <= body && EndsAt(ps, 0, end)
    ensures Spells(ps, body[..end])
  {
    hide LiteralText;
    assert body[..end] + [QUOTE] == body[..end + 1];
  }

  /** Every literal made of legal pieces is accepted, and decodes to the concatenation of its raw
      bytes and the UTF-8 encodings of its escapes, whatever input follows it. */
  lemma {:induction false} LiteralParses(ps: seq<Piece>, rest: bytes)
    requires AllLegal(ps)
    ensures ParseLiteral([QUOTE] + LiteralText(ps, [QUOTE] + rest)) == Literal(LiteralBytes(ps), rest)
  {
    hide ParseLiteral, LiteralText, Closed;
    var token := LiteralText(ps, []);
    LegalClosed(ps);
    LegalIsLoose(ps);
    assert Spells(ps, token);
    LooseParses(token, LiteralBytes(ps), rest);
    LiteralThen(ps, [QUOTE] + rest);
  }

  // ----- and back to code points -----

  function CodePoints(t: bytes): Option<seq<nat>> {
    if t == [] then Some([])
    else
      var first := FirstCodePoint(t);
      if first.None? then None
      else
        var more := CodePoints(t[first.value.1..]);
        if more.None? then None else Some([first.value.0] + more.value)
  }

  /** A character of a JSON text encoded in UTF-8 (section 8.1 of RFC 8259): written as itself, in one to
      four raw bytes, or escaped. */
  datatype Character = Plain(point: nat) | Escaped(escape: Piece)

  predicate LegalCharacter(c: Character) {
    match c
    case Plain(cp) => Scalar(cp) && cp != 0 && cp != QUOTE && cp != BACKSLASH
    case Escaped(p) => Legal(p) && !p.Raw?
  }

  predicate AllCharacters(cs: seq<Character>) {
    forall i :: 0 <= i < |cs| ==> LegalCharacter(cs[i])
  }

  function CharacterCode(c: Character): nat
    requires LegalCharacter(c)
  {
    if c.Plain? then c.point else PieceCode(c.escape)
  }

  function RawPieces(t: bytes): (ps: seq<Piece>)
    ensures |ps| == |t| && forall i :: 0 <= i < |ps| ==> ps[i] == Raw(t[i])
  {
    seq(|t|, i requires 0 <= i < |t| => Raw(t[i]))
  }

  function CharacterPieces(c: Character): (ps: seq<Piece>)
    requires LegalCharacter(c)
    ensures AllLegal(ps)
  {
    if c.Plain? then RawPieces(Utf8(c.point)) else [c.escape]
  }

  function Spelled(cs: seq<Character>): (ps: seq<Piece>)
    requires AllCharacters(cs)
    ensures AllLegal(ps)
  {
    if cs == [] then [] else CharacterPieces(cs[0]) + Spelled(cs[1..])
  }

  function Codes(cs: seq<Character>): seq<nat>
    requires AllCharacters(cs)
  {
    if cs == [] then [] else [CharacterCode(cs[0])] + Codes(cs[1..])
  }

  lemma {:induction false} LiteralBytesConcat(a: seq<Piece>, b: seq<Piece>)
    requires AllLegal(a) && AllLegal(b)
    ensures LiteralBytes(a + b) == LiteralBytes(a) + LiteralBytes(b)
  {
    hide Legal, PieceBytes;
    if a == [] {
      assert a + b == b;
    } else {
      assert (a + b)[1..] == a[1..] + b;
      LiteralBytesConcat(a[1..], b);
    }
  }

  lemma {:induction false} RawBytes(t: bytes)
    requires AllLegal(RawPieces(t))
    ensures LiteralBytes(RawPieces(t)) == t
  {
    if t == [] {
    } else {
      assert RawPieces(t)[1..] == RawPieces(t[1..]);
      RawBytes(t[1..]);
    }
  }

  lemma CharacterBytes(c: Character)
    requires LegalCharacter(c)
    ensures LiteralBytes(CharacterPieces(c)) == Utf8(CharacterCode(c)) && Scalar(CharacterCode(c))
  {
    hide PieceCode, Utf8;
    if c.Plain? {
      assert CharacterPieces(c) == RawPieces(Utf8(c.point));
      RawBytes(Utf8(c.point));
    } else {
      assert [c.escape][1..] == [];
    }
  }

  /** The strict UTF-8 decoder recovers from the stored string exactly the code points of the characters
      the literal was written with, escaped or not. */
  lemma {:induction false} CodePointsRecovered(cs: seq<Character>, rest: bytes)
    requires AllCharacters(cs)
    ensures var literal := ParseLiteral([QUOTE] + LiteralText(Spelled(cs), [QUOTE] + rest));
            literal.Literal? && literal.rest == rest && CodePoints(literal.text) == Some(Codes(cs))
  {
    LiteralParses(Spelled(cs), rest);
    SpelledCodes(cs);
  }

  lemma {:induction false} SpelledCodes(cs: seq<Character>)
    requires AllCharacters(cs)
    ensures CodePoints(LiteralBytes(Spelled(cs))) == Some(Codes(cs))
  {
    hide LegalCharacter, CharacterCode, CharacterPieces, FirstCodePoint, LiteralBytes, Utf8, Legal;
    if cs == [] {
      NoCodePoints();
    } else {
      SpelledCodes(cs[1..]);
      LegalIsLoose(Spelled(cs[1..]));
      var cp, more := CharacterCode(cs[0]), LiteralBytes(Spelled(cs[1..]));
      LiteralBytesConcat(CharacterPieces(cs[0]), Spelled(cs[1..]));
      CharacterBytes(cs[0]);
      Utf8Recoverable(cp, more);
      assert (Utf8(cp) + more)[|Utf8(cp)|..] == more;
    }
  }

  lemma NoCodePoints()
    ensures LiteralBytes(Spelled([])) == [] && CodePoints([]) == Some([])
  {
  }

  // ----- escapes, by their digits -----

  const SMALL_DIGITS: string := "0123456789abcdef"
  const CAPITAL_DIGITS: string := "0123456789ABCDEF"

  predicate IsDigit(c: byte, k: nat) {
    k < 16 && c as char in {SMALL_DIGITS[k], CAPITAL_DIGITS[k]}
  }

  lemma DigitReads(c: byte, k: nat)
    requires IsDigit(c, k)
    ensures IsHex(c) && HexValue(c) == k
  {
  }

  /** Four hexadecimal digits, small or capital, are read with the most significant one first. */
  lemma {:induction false} DigitsRead(d: bytes, a: nat, b: nat, c: nat, e: nat)
    requires |d| == 4 && IsDigit(d[0], a) && IsDigit(d[1], b) && IsDigit(d[2], c) && IsDigit(d[3], e)
    ensures FourDigits(d) && Hex4(d) == 4096 * a + 256 * b + 16 * c + e
  {
    hide IsDigit;
    DigitReads(d[0], a);
    DigitReads(d[1], b);
    DigitReads(d[2], c);
    DigitReads(d[3], e);
  }

  /** Anything else stands for the code point zero. */
  lemma {:induction false} MalformedIsZero(d: bytes, i: nat)
    requires |d| == 4 && i < 4 && forall k: nat :: !IsDigit(d[i], k)
    ensures Hex4(d) == 0
  {
    if IsHex(d[i]) {
      DigitOf(d[i]);
    }
  }

  lemma DigitOf(c: byte)
    requires IsHex(c)
    ensures IsDigit(c, HexValue(c))
  {
  }

  /** The surrogates of a code point beyond U+FFFF, after section 3.9 of the Unicode standard, are joined to that
      code point. */
  lemma SurrogatesJoin(cp: nat)
    requires 0x10000 <= cp <= 0x10FFFF
    ensures var high, low := 0xD7C0 + cp / 0x400, 0xDC00 + cp % 0x400;
            HighSurrogate(high) && LowSurrogate(low) && JoinSurrogates(high, low) == cp
  {
  }

  lemma OnePieceParses(p: Piece, rest: bytes)
    requires Legal(p)
    ensures ParseLiteral([QUOTE] + (PieceText(p) + ([QUOTE] + rest))) == Literal(PieceBytes(p), rest)
  {
    hide ParseLiteral, PieceText, PieceBytes, Legal;
    var ps := [p];
    LegalIsLoose(ps);
    assert Loose(ps[0]);
    assert ps[1..] == [];
    LiteralParses(ps, rest);
    assert PieceBytes(p) + [] == PieceBytes(p);
  }

  lemma ClefText()
    ensures PieceText(Pair(Ascii("D834"), Ascii("DD1E"))) == Ascii("\\uD834\\uDD1E")
    ensures Utf8(0x1D11E) == [0xF0, 0x9D, 0x84, 0x9E]
  {
  }

  /** The example of section 7 of RFC 8259: the G clef. */
  lemma ClefReads(rest: bytes)
    ensures ParseLiteral([QUOTE] + (Ascii("\\uD834\\uDD1E") + ([QUOTE] + rest))) ==
            Literal([0xF0, 0x9D, 0x84, 0x9E], rest)
  {
    hide ParseLiteral, PieceText, Utf8, Hex4;
    DigitsRead(Ascii("D834"), 13, 8, 3, 4);
    DigitsRead(Ascii("DD1E"), 13, 13, 1, 14);
    SurrogatesJoin(0x1D11E);
    ClefText();
    OnePieceParses(Pair(Ascii("D834"), Ascii("DD1E")), rest);
  }
}

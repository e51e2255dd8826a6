/** The two escapers, `print_string_ptr` of cJSON.c and `escape_json` of ollama.c, are undone by the
    parser. */
module Escapers {
  import opened Bytes
  import opened Utf
  import opened JsonText
  import opened StringLiteral
  import opened Literals

  // ----- print_string_ptr -----

  function PrintedPiece(c: byte): (p: Piece)
    requires c != 0
    ensures Legal(p) && PieceText(p) == EscapeByte(c) && PieceBytes(p) == [c]
  {
    match c
    case 0x22 => Short(QUOTE)
    case 0x5c => Short(BACKSLASH)
    case 0x08 => Short(0x62)
    case 0x0c => Short(0x66)
    case 0x0a => Short(0x6e)
    case 0x0d => Short(0x72)
    case 0x09 => Short(0x74)
    case _ =>
      if c < 32 then
        var digits := [0x30, 0x30, HexDigit(c / 16), HexDigit(c % 16)];
        assert HexValue(digits[2]) == c / 16 && HexValue(digits[3]) == c % 16;
        assert [BACKSLASH, 0x75] + digits == EscapeByte(c);
        Unit(digits)
      else
        Raw(c)
  }

  function PrintedPieces(s: bytes): (ps: seq<Piece>)
    requires NoNul(s)
    ensures AllLegal(ps)
  {
    if s == [] then [] else [PrintedPiece(s[0])] + PrintedPieces(s[1..])
  }

  lemma {:induction false} PrintedIsLiteral(s: bytes, rest: bytes)
    requires NoNul(s)
    ensures Escape(s, rest) == LiteralText(PrintedPieces(s), rest)
    ensures LiteralBytes(PrintedPieces(s)) == s
  {
    hide PrintedPiece, PieceText, PieceBytes, EscapeByte, Legal;
    if s == [] {
    } else {
      PrintedIsLiteral(s[1..], rest);
      var ps := PrintedPieces(s);
      assert ps[0] == PrintedPiece(s[0]) && ps[1..] == PrintedPieces(s[1..]);
    }
  }

  /** Whatever follows, `parse_string` reads back the string that `print_string_ptr` printed. */
  lemma {:induction false} PrintedParses(s: bytes, rest: bytes)
    requires NoNul(s)
    ensures ParseLiteral(Quoted(s, rest)) == Literal(s, rest)
  {
    PrintedIsLiteral(s, [QUOTE] + rest);
    LiteralParses(PrintedPieces(s), rest);
  }

  // ----- escape_json -----

  /** One byte as `escape_json` writes it: other control bytes stay as they are. */
  function PromptPiece(c: byte): (p: Piece)
    requires c != 0
    ensures Legal(p) && PieceBytes(p) == [c] && 1 <= |PieceText(p)| <= 2
  {
    match c
    case 0x22 => Short(QUOTE)
    case 0x5c => Short(BACKSLASH)
    case 0x0a => Short(0x6e)
    case 0x0d => Short(0x72)
    case 0x09 => Short(0x74)
    case _ => Raw(c)
  }

  function PromptPieces(s: bytes): (ps: seq<Piece>)
    requires NoNul(s)
    ensures AllLegal(ps)
  {
    if s == [] then [] else [PromptPiece(s[0])] + PromptPieces(s[1..])
  }

  lemma {:induction false} PromptBytes(s: bytes)
    requires NoNul(s)
    ensures LiteralBytes(PromptPieces(s)) == s
  {
    hide Legal, PromptPiece, PieceBytes;
    if s == [] {
    } else {
      assert PromptPieces(s)[1..] == PromptPieces(s[1..]);
      PromptBytes(s[1..]);
    }
  }

  /** `escape_json`: the block of twice the length and one byte always suffices. There is no result
      exactly when there is no input or no memory. */
  method EscapeJson(input: Option<bytes>, granted: bool) returns (buf: array?<byte>, length: nat)
    requires input.Some? ==> NoNul(input.value)
    ensures buf == null <==> input.None? || !granted
    ensures buf != null ==> fresh(buf) && buf.Length == 2 * |input.value| + 1
    ensures buf != null ==> length < buf.Length && buf[length] == 0
    ensures buf != null ==> buf[..length] == LiteralText(PromptPieces(input.value), [])
  {
    hide PieceText, PromptPiece, Legal, LiteralText, PromptPieces;
    buf, length := null, 0;
    if input.None? || !granted {
      return;
    }
    buf, length := EscapeBytes(input.value);
  }

  /** The loop of `escape_json`. */
  method EscapeBytes(input: bytes) returns (buf: array<byte>, length: nat)
    requires NoNul(input)
    ensures fresh(buf) && buf.Length == 2 * |input| + 1
    ensures length < buf.Length && buf[length] == 0
    ensures buf[..length] == LiteralText(PromptPieces(input), [])
  {
    hide PieceText, PromptPiece, Legal, LiteralText, PromptPieces;
    PromptNothing();
    buf := new byte[|input| * 2 + 1];
    length := 0;
    var i := 0;
    assert input[0..] == input;
    while i < |input|
      invariant 0 <= i <= |input| && length <= 2 * i
      invariant buf[..length] + LiteralText(PromptPieces(input[i..]), []) ==
                LiteralText(PromptPieces(input), [])
    {
      length := EscapeRound(buf, length, input, i);
      i := i + 1;
    }
    assert input[i..] == [] && buf[..length] + [] == buf[..length];
    buf[length] := 0;
  }

  /** One round of the loop. */
  method EscapeRound(buf: array<byte>, at: nat, input: bytes, i: nat) returns (end: nat)
    requires NoNul(input) && i < |input| && at + 2 < buf.Length
    modifies buf
    ensures at < end <= at + 2
    ensures buf[..end] + LiteralText(PromptPieces(input[i + 1..]), []) ==
            old(buf[..at]) + LiteralText(PromptPieces(input[i..]), [])
  {
    hide PieceText, PromptPiece, Legal, LiteralText, PromptPieces;
    PromptStep(input[i..]);
    assert input[i..][1..] == input[i + 1..];
    ghost var before, rest := buf[..at], LiteralText(PromptPieces(input[i + 1..]), []);
    ghost var text := PieceText(PromptPiece(input[i]));
    assert before + (text + rest) == (before + text) + rest;
    end := PutPromptByte(buf, at, input[i]);
  }

  lemma PromptNothing()
    ensures LiteralText(PromptPieces([]), []) == []
  {
  }

  lemma PromptStep(s: bytes)
    requires NoNul(s) && s != []
    ensures LiteralText(PromptPieces(s), []) ==
            PieceText(PromptPiece(s[0])) + LiteralText(PromptPieces(s[1..]), [])
  {
  }

  method PutPromptByte(buf: array<byte>, at: nat, c: byte) returns (end: nat)
    requires c != 0 && at + 2 < buf.Length
    modifies buf
    ensures at < end <= at + 2
    ensures buf[..end] == old(buf[..at]) + PieceText(PromptPiece(c))
  {
    end := at + 2;
    match c {
      case 0x22 => buf[at], buf[at + 1] := BACKSLASH, QUOTE;
      case 0x5c => buf[at], buf[at + 1] := BACKSLASH, BACKSLASH;
      case 0x0a => buf[at], buf[at + 1] := BACKSLASH, 0x6e;
      case 0x0d => buf[at], buf[at + 1] := BACKSLASH, 0x72;
      case 0x09 => buf[at], buf[at + 1] := BACKSLASH, 0x74;
      case _ =>
        buf[at] := c;
        end := at + 1;
    }
    assert buf[..end] == old(buf[..at]) + buf[at..end];
    assert buf[at..end] == PieceText(PromptPiece(c));
  }

  /** A prompt escaped by `escape_json` and put between quotes, as `build_json_payload` does, is
      read back unchanged. */
  lemma {:induction false} EscapedPromptParses(s: bytes, rest: bytes)
    requires NoNul(s)
    ensures ParseLiteral([QUOTE] + (LiteralText(PromptPieces(s), []) + ([QUOTE] + rest))) == Literal(s, rest)
  {
    hide ParseLiteral, LiteralText;
    PromptBytes(s);
    LiteralThen(PromptPieces(s), [QUOTE] + rest);
    LiteralParses(PromptPieces(s), rest);
  }

  // ----- which bytes they write -----

  /** Section 7 of RFC 8259 allows no control byte between the quotes of a string. */
  predicate NoControl(t: bytes) {
    forall i :: 0 <= i < |t| ==> t[i] >= 32
  }

  lemma NoControlConcat(a: bytes, b: bytes)
    ensures NoControl(a + b) <==> NoControl(a) && NoControl(b)
  {
    var t := a + b;
    if NoControl(t) {
      assert forall i :: 0 <= i < |a| ==> a[i] == t[i];
      assert forall i :: 0 <= i < |b| ==> b[i] == t[|a| + i];
    }
  }

  /** `print_string_ptr` never writes one. */
  lemma {:induction false} PrintedNoControl(s: bytes)
    ensures NoControl(Escape(s, []))
  {
    if s == [] {
    } else {
      PrintedNoControl(s[1..]);
      EscapeByteNoControl(s[0]);
      hide EscapeByte;
      NoControlConcat(EscapeByte(s[0]), Escape(s[1..], []));
    }
  }

  lemma EscapeByteNoControl(c: byte)
    ensures NoControl(EscapeByte(c))
  {
  }

  /** `escape_json` writes none exactly if the input holds no other control bytes than newline, carriage
      return and tab. */
  lemma {:induction false} PromptNoControl(s: bytes)
    requires NoNul(s)
    ensures NoControl(LiteralText(PromptPieces(s), [])) <==>
            forall i :: 0 <= i < |s| ==> s[i] >= 32 || s[i] in {0x09, 0x0a, 0x0d}
  {
    if s == [] {
      PromptNothing();
    } else {
      PromptNoControl(s[1..]);
      PromptStep(s);
      PromptPieceNoControl(s[0]);
      hide PromptPiece, PieceText, LiteralText, PromptPieces;
      NoControlConcat(PieceText(PromptPiece(s[0])), LiteralText(PromptPieces(s[1..]), []));
      assert s == [s[0]] + s[1..];
    }
  }

  lemma PromptPieceNoControl(c: byte)
    requires c != 0
    ensures NoControl(PieceText(PromptPiece(c))) <==> c >= 32 || c in {0x09, 0x0a, 0x0d}
  {
    var t := PieceText(PromptPiece(c));
    if c == 0x0a || c == 0x0d || c == 0x09 || c == QUOTE || c == BACKSLASH {
      assert |t| == 2 && t[0] == BACKSLASH;
    } else {
      assert t == [c] && t[0] == c;
    }
  }

  /** How long the two make a byte: with the reading back, this leaves no choice of escape but the case of digits. */
  lemma EscapeLengths(c: byte)
    ensures |EscapeByte(c)| == if c in {0x22, 0x5c, 0x08, 0x09, 0x0a, 0x0c, 0x0d} then 2 else if c < 32 then 6 else 1
    ensures c != 0 ==> |PieceText(PromptPiece(c))| == if c in {0x22, 0x5c, 0x09, 0x0a, 0x0d} then 2 else 1
  {
  }

  lemma EscapeExamples()
    ensures EscapeByte(0x22) == Ascii("\\\"") && EscapeByte(0x5c) == Ascii("\\\\") && EscapeByte(0x0a) == Ascii("\\n")
    ensures EscapeByte(0x1b) == Ascii("\\u001b") && EscapeByte(0x2f) == Ascii("/")
  {
  }
}

/** The parser accepts every JSON text of RFC 8259 whose numbers are 32-bit integers. */
module Acceptance {
  import opened Bytes
  import opened JsonValue
  import opened JsonText
  import opened JsonGrammar
  import opened StringLiteral
  import opened Literals
  import opened Escapers
  import opened ParseSpec

  // ----- legal texts -----

  /** A string of section 7: legal pieces, and what they stand for. */
  ghost predicate IsLiteral(token: bytes, text: bytes) {
    exists ps :: AllLegal(ps) && token == LiteralText(ps, []) && text == LiteralBytes(ps)
  }

  /** A number of section 6 that `strtod` reads as `n`. */
  predicate IsFigure(strtod: Strtod, token: bytes, n: int) {
    && token != [] && (token[0] == MINUS || 0x30 <= token[0] <= 0x39)
    && (forall i :: 0 <= i < |token| ==> FigureByte(token[i]))
    && strtod(token) == NumberScan(|token|, n)
  }

  ghost function Figures(strtod: Strtod): (bytes, int) -> bool {
    (token, n) => IsFigure(strtod, token, n)
  }

  ghost predicate Proper(strtod: Strtod, s: Spelling) {
    Tokens(s, Figures(strtod), IsLiteral) && Filled(s, White)
  }

  ghost predicate ProperItems(strtod: Strtod, e: Items) {
    ItemTokens(e, Figures(strtod), IsLiteral) && ItemsFilled(e, White)
  }

  ghost predicate ProperFields(strtod: Strtod, f: Fields) {
    FieldTokens(f, Figures(strtod), IsLiteral) && FieldsFilled(f, White)
  }

  // ----- what the parser takes as well -----

  /** Every byte up to the space is skipped between tokens. */
  predicate Blank(s: bytes) {
    forall i :: 0 <= i < |s| ==> s[i] <= 32
  }

  /** A text with the laxer rules of the parser for strings and for what stands between tokens. */
  ghost predicate Lenient(strtod: Strtod, s: Spelling) {
    Tokens(s, Figures(strtod), LooseLiteral) && Filled(s, Blank)
  }

  ghost predicate LenientItems(strtod: Strtod, e: Items) {
    ItemTokens(e, Figures(strtod), LooseLiteral) && ItemsFilled(e, Blank)
  }

  ghost predicate LenientFields(strtod: Strtod, f: Fields) {
    FieldTokens(f, Figures(strtod), LooseLiteral) && FieldsFilled(f, Blank)
  }

  lemma LiteralIsLoose(token: bytes, text: bytes)
    requires IsLiteral(token, text)
    ensures LooseLiteral(token, text)
  {
    hide Closed, LiteralText, LiteralBytes;
    var ps :| AllLegal(ps) && token == LiteralText(ps, []) && text == LiteralBytes(ps);
    LegalClosed(ps);
    LegalIsLoose(ps);
    assert Spells(ps, token);
  }

  lemma WhiteIsBlank(f: bytes)
    requires White(f)
    ensures Blank(f)
  {
  }

  lemma {:induction false} ProperIsLenient(strtod: Strtod, s: Spelling)
    requires Proper(strtod, s)
    ensures Lenient(strtod, s)
    decreases s
  {
    hide IsLiteral, LooseLiteral, IsFigure, White, Blank;
    match s
    case Characters(token, text) => LiteralIsLoose(token, text);
    case List(filler, items) =>
      WhiteIsBlank(filler);
      ProperItemsLenient(strtod, items);
    case Record(filler, fields) =>
      WhiteIsBlank(filler);
      ProperFieldsLenient(strtod, fields);
    case _ =>
  }

  lemma {:induction false} ProperItemsLenient(strtod: Strtod, e: Items)
    requires ProperItems(strtod, e)
    ensures LenientItems(strtod, e)
    decreases e
  {
    hide IsLiteral, LooseLiteral, IsFigure, White, Blank;
    if e.OneItem? {
      WhiteIsBlank(e.before);
      WhiteIsBlank(e.after);
      ProperIsLenient(strtod, e.value);
      ProperItemsLenient(strtod, e.next);
    }
  }

  lemma {:induction false} ProperFieldsLenient(strtod: Strtod, f: Fields)
    requires ProperFields(strtod, f)
    ensures LenientFields(strtod, f)
    decreases f
  {
    hide IsLiteral, LooseLiteral, IsFigure, White, Blank;
    if f.OneField? {
      LiteralIsLoose(f.token, f.name);
      WhiteIsBlank(f.before);
      WhiteIsBlank(f.gap);
      WhiteIsBlank(f.lead);
      WhiteIsBlank(f.after);
      ProperIsLenient(strtod, f.value);
      ProperFieldsLenient(strtod, f.next);
    }
  }

  // ----- white space -----

  /** Where a token starts. */
  predicate Solid(t: bytes) {
    t != [] && t[0] > 32
  }

  lemma {:induction false} SkipBlank(s: bytes, t: bytes)
    requires Blank(s) && Solid(t)
    ensures SkipWhitespace(s + t) == t
  {
    if s == [] {
      assert s + t == t;
    } else {
      assert (s + t)[1..] == s[1..] + t;
      SkipBlank(s[1..], t);
    }
  }

  /** The last byte is left even when it is blank. */
  lemma {:induction false} SkipToLast(s: bytes, c: byte)
    requires Blank(s)
    ensures SkipWhitespace(s + [c]) == [c]
  {
    if s == [] {
      assert s + [c] == [c];
    } else {
      assert (s + [c])[1..] == s[1..] + [c];
      SkipToLast(s[1..], c);
    }
  }

  lemma SkipNothing(t: bytes)
    requires Solid(t)
    ensures SkipWhitespace(t) == t
  {
  }

  // ----- how texts begin and what ends a number -----

  /** The first byte of a value is one that only a value starts with. */
  predicate ValueStart(c: byte) {
    c == 0x6e || c == 0x66 || c == 0x74 || c == QUOTE || c == MINUS || 0x30 <= c <= 0x39
    || c == LBRACKET || c == LBRACE
  }

  lemma SpellStart(strtod: Strtod, s: Spelling, rest: bytes)
    requires Lenient(strtod, s)
    ensures var t := Spell(s, rest); t != [] && ValueStart(t[0])
  {
  }

  predicate EndsNumber(t: bytes) {
    t != [] && !NumberByte(t[0])
  }

  lemma FigureBytes(token: bytes)
    requires forall i :: 0 <= i < |token| ==> FigureByte(token[i])
    ensures forall i :: 0 <= i < |token| ==> NumberByte(token[i])
  {
  }

  lemma {:induction false} RunOf(digits: bytes, rest: bytes)
    requires forall i :: 0 <= i < |digits| ==> NumberByte(digits[i])
    requires EndsNumber(rest)
    ensures NumberRun(digits + rest) == |digits|
  {
    if digits == [] {
      assert digits + rest == rest;
    } else {
      assert (digits + rest)[1..] == digits[1..] + rest;
      RunOf(digits[1..], rest);
    }
  }

  // ----- values -----

  lemma KeywordParses(strtod: Strtod, v: Json, depth: nat, rest: bytes)
    requires v.Null? || v.False? || v.True?
    ensures ParseValue(strtod, KeywordText(v) + rest, depth) == Parsed(v, rest)
  {
    var t := KeywordText(v) + rest;
    assert t[|KeywordText(v)|..] == rest;
    assert KeywordText(v) == match v case Null => NULL_TEXT case False => FALSE_TEXT case _ => TRUE_TEXT;
    assert KeywordText(v) <= t && t[0] == KeywordText(v)[0];
  }

  lemma FigureParses(strtod: Strtod, token: bytes, n: int, depth: nat, rest: bytes)
    requires IsFigure(strtod, token, n) && EndsNumber(rest)
    ensures ParseValue(strtod, token + rest, depth) == Parsed(Number(n), rest)
  {
    hide ParseValue, ParseArray, ParseObject, ParseLiteral, NumberRun, FigureByte;
    var t := token + rest;
    assert t[0] == token[0];
    ByFirstByte(strtod, t, depth);
    FigureBytes(token);
    RunOf(token, rest);
    assert t[..|token|] == token && t[|token|..] == rest;
  }

  lemma TokenParses(token: bytes, text: bytes, rest: bytes)
    requires LooseLiteral(token, text)
    ensures ParseLiteral(InQuotes(token, rest)) == Literal(text, rest)
  {
    LooseParses(token, text, rest);
  }

  lemma StringParses(strtod: Strtod, token: bytes, text: bytes, depth: nat, rest: bytes)
    requires LooseLiteral(token, text)
    ensures ParseValue(strtod, InQuotes(token, rest), depth) == Parsed(String(text), rest)
  {
    hide ParseValue, ParseArray, ParseObject, ParseLiteral, ParseNumber, LooseLiteral;
    TokenParses(token, text, rest);
    ByFirstByte(strtod, InQuotes(token, rest), depth);
  }

  /** A value as written is read, and nothing more; what follows a number must end it. */
  lemma {:induction false} SpellingParses(strtod: Strtod, s: Spelling, depth: nat, rest: bytes)
    requires Lenient(strtod, s) && depth + Nesting(ValueOf(s)) <= NESTING_LIMIT && (s.Figure? ==> EndsNumber(rest))
    ensures ParseValue(strtod, Spell(s, rest), depth) == Parsed(ValueOf(s), rest)
    decreases s, 1
  {
    hide ParseValue, LooseLiteral, IsFigure, InQuotes;
    match s
    case Keyword(v) => KeywordParses(strtod, v, depth, rest);
    case Figure(token, n) => FigureParses(strtod, token, n, depth, rest);
    case Characters(token, text) => StringParses(strtod, token, text, depth, rest);
    case List(filler, items) => ListParses(strtod, filler, items, depth, rest);
    case Record(filler, fields) => RecordParses(strtod, filler, fields, depth, rest);
  }

  // ----- arrays -----

  lemma {:induction false} ListParses(strtod: Strtod, filler: bytes, items: Items, depth: nat, rest: bytes)
    requires Blank(filler) && LenientItems(strtod, items)
    requires depth + 1 + NestingElements(ValuesOf(items)) <= NESTING_LIMIT
    ensures ParseValue(strtod, Spell(List(filler, items), rest), depth) == Parsed(Array(ValuesOf(items)), rest)
    decreases items, 2
  {
    hide ParseValue, ParseElements, SkipWhitespace, Blank, LenientItems, SpellItems, NestingElements, ValuesOf;
    var t := Spell(List(filler, items), rest);
    var body := SpellItems(items, [RBRACKET] + rest);
    ByFirstByte(strtod, t, depth);
    assert t[1..] == filler + body;
    NoItems(strtod, items, [RBRACKET] + rest);
    if items.NoItem? {
      SkipBlank(filler, body);
      assert body[1..] == rest;
    } else {
      var blank, u := ItemsStart(strtod, items, [RBRACKET] + rest);
      BlankConcat(filler, blank);
      SkipBlank(filler + blank, u);
      assert (filler + blank) + u == filler + body;
      ItemsParse(strtod, items, depth + 1, rest);
      SkipBlank(blank, u);
      SkipNothing(u);
      SameElements(strtod, u, body, depth + 1);
    }
  }

  lemma BlankConcat(a: bytes, b: bytes)
    requires Blank(a) && Blank(b)
    ensures Blank(a + b)
  {
  }

  lemma NoItems(strtod: Strtod, items: Items, rest: bytes)
    ensures items.NoItem? ==> SpellItems(items, rest) == rest && ValuesOf(items) == NoElement
  {
  }

  /** A list that is not empty starts with blanks and a value. */
  lemma ItemsStart(strtod: Strtod, items: Items, rest: bytes) returns (blank: bytes, u: bytes)
    requires items.OneItem? && LenientItems(strtod, items)
    ensures Blank(blank) && Solid(u) && ValueStart(u[0]) && SpellItems(items, rest) == blank + u
  {
    hide Spell;
    var after := items.after + if items.next.NoItem? then rest else [COMMA] + SpellItems(items.next, rest);
    blank, u := items.before, Spell(items.value, after);
    SpellStart(strtod, items.value, after);
  }

  lemma SameElements(strtod: Strtod, t: bytes, u: bytes, depth: nat)
    requires SkipWhitespace(t) == SkipWhitespace(u)
    ensures ParseElements(strtod, t, depth) == ParseElements(strtod, u, depth)
  {
  }

  /** The loop reads a list as written, to its bracket. */
  lemma {:induction false} ItemsParse(strtod: Strtod, items: Items, depth: nat, rest: bytes)
    requires items.OneItem? && LenientItems(strtod, items)
    requires depth + NestingElements(ValuesOf(items)) <= NESTING_LIMIT
    ensures ParseElements(strtod, SpellItems(items, [RBRACKET] + rest), depth) == Parsed(ValuesOf(items), rest)
    decreases items, 1
  {
    hide ParseValue, SkipWhitespace, Blank, Spell, Tokens, Filled;
    var last := items.next.NoItem?;
    var tail := if last then [RBRACKET] + rest else [COMMA] + SpellItems(items.next, [RBRACKET] + rest);
    var after := items.after + tail;
    SpellStart(strtod, items.value, after);
    SkipBlank(items.before, Spell(items.value, after));
    BlankEndsNumber(items.after, tail);
    SpellingParses(strtod, items.value, depth, after);
    SkipBlank(items.after, tail);
    if last {
      assert tail[1..] == rest;
    } else {
      assert tail[1..] == SpellItems(items.next, [RBRACKET] + rest);
      ItemsParse(strtod, items.next, depth, rest);
    }
  }

  /** Neither blanks nor a comma or bracket continue a number. */
  lemma BlankEndsNumber(blank: bytes, tail: bytes)
    requires Blank(blank) && tail != [] && tail[0] in {COMMA, RBRACKET, RBRACE, 0}
    ensures EndsNumber(blank + tail)
  {
  }

  // ----- objects -----

  lemma {:induction false} RecordParses(strtod: Strtod, filler: bytes, fields: Fields, depth: nat, rest: bytes)
    requires Blank(filler) && LenientFields(strtod, fields)
    requires depth + 1 + NestingMembers(MembersOf(fields)) <= NESTING_LIMIT
    ensures ParseValue(strtod, Spell(Record(filler, fields), rest), depth) == Parsed(Object(MembersOf(fields)), rest)
    decreases fields, 2
  {
    hide ParseValue, ParseMembers, SkipWhitespace, Blank, LenientFields, SpellFields, NestingMembers, MembersOf;
    var t := Spell(Record(filler, fields), rest);
    var body := SpellFields(fields, [RBRACE] + rest);
    ByFirstByte(strtod, t, depth);
    assert t[1..] == filler + body;
    NoFields(fields, [RBRACE] + rest);
    if fields.NoField? {
      SkipBlank(filler, body);
      assert body[1..] == rest;
    } else {
      var blank, u := FieldsStart(strtod, fields, [RBRACE] + rest);
      BlankConcat(filler, blank);
      SkipBlank(filler + blank, u);
      assert (filler + blank) + u == filler + body;
      FieldsParse(strtod, fields, depth + 1, rest);
      SkipBlank(blank, u);
      SkipNothing(u);
      SameMembers(strtod, u, body, depth + 1);
    }
  }

  lemma NoFields(fields: Fields, rest: bytes)
    ensures fields.NoField? ==> SpellFields(fields, rest) == rest && MembersOf(fields) == NoMember
  {
  }

  lemma FieldsStart(strtod: Strtod, fields: Fields, rest: bytes) returns (blank: bytes, u: bytes)
    requires fields.OneField? && LenientFields(strtod, fields)
    ensures Blank(blank) && Solid(u) && u[0] == QUOTE && SpellFields(fields, rest) == blank + u
  {
    hide Spell;
    var after := fields.after + if fields.next.NoField? then rest else [COMMA] + SpellFields(fields.next, rest);
    var value := fields.lead + Spell(fields.value, after);
    blank, u := fields.before, InQuotes(fields.token, fields.gap + ([COLON] + value));
  }

  lemma SameMembers(strtod: Strtod, t: bytes, u: bytes, depth: nat)
    requires SkipWhitespace(t) == SkipWhitespace(u)
    ensures ParseMembers(strtod, t, depth) == ParseMembers(strtod, u, depth)
  {
  }

  /** A key, blanks and all, up to its colon. */
  lemma KeyParses(before: bytes, token: bytes, name: bytes, gap: bytes, rest: bytes)
    requires Blank(before) && LooseLiteral(token, name) && Blank(gap)
    ensures ParseKey(before + InQuotes(token, gap + ([COLON] + rest))) == Key(name, rest)
  {
    hide Blank, SkipWhitespace, ParseLiteral, LooseLiteral;
    var t := InQuotes(token, gap + ([COLON] + rest));
    SkipBlank(before, t);
    TokenParses(token, name, gap + ([COLON] + rest));
    SkipBlank(gap, [COLON] + rest);
    assert ([COLON] + rest)[1..] == rest;
  }

  /** The loop reads the members as written, to the closing brace. */
  lemma {:induction false} FieldsParse(strtod: Strtod, fields: Fields, depth: nat, rest: bytes)
    requires fields.OneField? && LenientFields(strtod, fields)
    requires depth + NestingMembers(MembersOf(fields)) <= NESTING_LIMIT
    ensures ParseMembers(strtod, SpellFields(fields, [RBRACE] + rest), depth) == Parsed(MembersOf(fields), rest)
    decreases fields, 1
  {
    hide ParseValue, SkipWhitespace, Blank, Spell, Tokens, Filled, LooseLiteral, InQuotes, ParseKey;
    var last := fields.next.NoField?;
    var tail := if last then [RBRACE] + rest else [COMMA] + SpellFields(fields.next, [RBRACE] + rest);
    var after := fields.after + tail;
    var value := Spell(fields.value, after);
    KeyParses(fields.before, fields.token, fields.name, fields.gap, fields.lead + value);
    SpellStart(strtod, fields.value, after);
    SkipBlank(fields.lead, value);
    BlankEndsNumber(fields.after, tail);
    SpellingParses(strtod, fields.value, depth, after);
    SkipBlank(fields.after, tail);
    if last {
      assert tail[1..] == rest;
    } else {
      assert tail[1..] == SpellFields(fields.next, [RBRACE] + rest);
      FieldsParse(strtod, fields.next, depth, rest);
    }
  }

  // ----- documents -----

  /** `U+FEFF` in UTF-8, which a text may start with. */
  const MARK: bytes := [0xEF, 0xBB, 0xBF]

  /** A text of the laxer rules, with or without a byte order mark, is read as its value. */
  lemma {:induction false} LenientTextParses(
      strtod: Strtod, s: Spelling, marked: bool, before: bytes, after: bytes, requireNul: bool)
    requires Lenient(strtod, s) && Nesting(ValueOf(s)) <= NESTING_LIMIT && Blank(before) && Blank(after)
    ensures var text := (if marked then MARK else []) + (before + Spell(s, after + [0]));
            ParseDocument(strtod, text, requireNul) == Some(ValueOf(s))
  {
    hide ParseValue, Spell, SkipWhitespace, Lenient, Blank;
    var value := Spell(s, after + [0]);
    var body := before + value;
    var text := (if marked then MARK else []) + body;
    SpellStart(strtod, s, after + [0]);
    SkipBlank(before, value);
    BlankEndsNumber(after, [0]);
    SpellingParses(strtod, s, 0, after + [0]);
    SkipToLast(after, 0);
    NoMark(before, value);
    if marked {
      assert text[3..] == body;
    } else {
      assert text == body;
    }
  }

  /** Every JSON text, with or without a byte order mark, is read as its value: whatever blanks stand
      between its tokens, however its strings are escaped, and with the demand for a terminator or not. */
  lemma {:induction false} EveryTextParses(
      strtod: Strtod, s: Spelling, marked: bool, before: bytes, after: bytes, requireNul: bool)
    requires Proper(strtod, s) && Nesting(ValueOf(s)) <= 1000 && White(before) && White(after)
    ensures var text := (if marked then MARK else []) + (before + Spell(s, after + [0]));
            ParseDocument(strtod, text, requireNul) == Some(ValueOf(s))
  {
    ProperIsLenient(strtod, s);
    LenientTextParses(strtod, s, marked, before, after, requireNul);
  }

  /** A text does not start with the mark by itself. */
  lemma NoMark(before: bytes, value: bytes)
    requires Blank(before) && value != [] && ValueStart(value[0])
    ensures !(BYTE_ORDER_MARK <= before + value)
  {
    var t := before + value;
    assert t[0] == if before == [] then value[0] else before[0];
  }

  /** What follows the value matters exactly if a terminator is asked for. */
  lemma TrailingText(
      strtod: Strtod, s: Spelling, before: bytes, after: bytes, c: byte, more: bytes, requireNul: bool)
    requires Lenient(strtod, s) && Nesting(ValueOf(s)) <= NESTING_LIMIT && Blank(before) && Blank(after)
    requires c > 32 && (after == [] ==> !NumberByte(c))
    ensures ParseDocument(strtod, before + Spell(s, after + ([c] + more)), requireNul) ==
            if requireNul then None else Some(ValueOf(s))
  {
    hide ParseValue, Spell, SkipWhitespace, Lenient, Blank;
    var tail := [c] + more;
    var value := Spell(s, after + tail);
    SpellStart(strtod, s, after + tail);
    SkipBlank(before, value);
    TrailEndsNumber(after, tail);
    SpellingParses(strtod, s, 0, after + tail);
    SkipBlank(after, tail);
    NoMark(before, value);
  }

  lemma TrailEndsNumber(blank: bytes, tail: bytes)
    requires Blank(blank) && tail != [] && (blank == [] ==> !NumberByte(tail[0]))
    ensures EndsNumber(blank + tail)
  {
  }
}

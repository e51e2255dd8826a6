/** `cJSON_Minify` on texts with comments: what it leaves is the text without anything between its tokens. */
module Commented {
  import opened Bytes
  import opened JsonValue
  import opened JsonGrammar
  import opened Literals
  import opened ParseSpec
  import opened Acceptance
  import opened Minify

  // ----- comments -----

  /** What may stand between tokens: white space and comments to the end of the line or up to a star and slash. */
  datatype Gap = Space(b: byte) | LineComment(body: bytes) | BlockComment(body: bytes)

  /** No star of the comment stands before a slash. */
  predicate Unclosed(body: bytes) {
    forall i :: 0 <= i < |body| - 1 ==> !(body[i] == STAR && body[i + 1] == SLASH)
  }

  predicate IsGap(g: Gap) {
    match g
    case Space(b) => b in {0x20, 0x09, 0x0a, 0x0d}
    case LineComment(body) => LF !in body
    case BlockComment(body) => Unclosed(body)
  }

  function GapText(g: Gap): bytes {
    match g
    case Space(b) => [b]
    case LineComment(body) => [SLASH, SLASH] + (body + [LF])
    case BlockComment(body) => [SLASH, STAR] + (body + [STAR, SLASH])
  }

  function GapsText(gs: seq<Gap>): bytes {
    if gs == [] then [] else GapText(gs[0]) + GapsText(gs[1..])
  }

  ghost predicate Commentary(f: bytes) {
    exists gs: seq<Gap> :: (forall i :: 0 <= i < |gs| ==> IsGap(gs[i])) && f == GapsText(gs)
  }

  // ----- comments are dropped -----

  lemma {:induction false} LineDropped(body: bytes, rest: bytes)
    requires LF !in body
    ensures AfterLine(body + ([LF] + rest)) == rest && AfterLine(body) == []
  {
    if body == [] {
      assert body + ([LF] + rest) == [LF] + rest;
    } else {
      assert (body + ([LF] + rest))[1..] == body[1..] + ([LF] + rest);
      assert body[0] in body && forall c :: c in body[1..] ==> c in body;
      LineDropped(body[1..], rest);
    }
  }

  lemma {:induction false} BlockDropped(body: bytes, rest: bytes)
    requires Unclosed(body)
    ensures AfterBlock(body + ([STAR, SLASH] + rest)) == rest && AfterBlock(body) == []
  {
    var t := body + ([STAR, SLASH] + rest);
    if body == [] {
      assert t[2..] == rest;
    } else {
      assert t[1..] == body[1..] + ([STAR, SLASH] + rest);
      assert t[1] == if |body| > 1 then body[1] else STAR;
      assert Unclosed(body[1..]);
      BlockDropped(body[1..], rest);
    }
  }

  lemma SpaceDropped(b: byte, rest: bytes)
    requires b in {0x20, 0x09, 0x0a, 0x0d}
    ensures Minified([b] + rest) == Minified(rest)
  {
    assert ([b] + rest)[1..] == rest;
  }

  lemma CommentStep(mark: byte, rest: bytes)
    requires mark in {SLASH, STAR}
    ensures Minified([SLASH, mark] + rest) == Minified(if mark == SLASH then AfterLine(rest) else AfterBlock(rest))
  {
    hide AfterLine, AfterBlock;
    assert ([SLASH, mark] + rest)[2..] == rest;
  }

  lemma GapDropped(g: Gap, rest: bytes)
    requires IsGap(g)
    ensures Minified(GapText(g) + rest) == Minified(rest)
  {
    hide Minified, AfterLine, AfterBlock, Unclosed;
    match g
    case Space(b) => SpaceDropped(b, rest);
    case LineComment(body) =>
      assert GapText(g) + rest == [SLASH, SLASH] + (body + ([LF] + rest));
      CommentStep(SLASH, body + ([LF] + rest));
      LineDropped(body, rest);
    case BlockComment(body) =>
      assert GapText(g) + rest == [SLASH, STAR] + (body + ([STAR, SLASH] + rest));
      CommentStep(STAR, body + ([STAR, SLASH] + rest));
      BlockDropped(body, rest);
  }

  lemma {:induction false} GapsDropped(gs: seq<Gap>, rest: bytes)
    requires forall i :: 0 <= i < |gs| ==> IsGap(gs[i])
    ensures Minified(GapsText(gs) + rest) == Minified(rest)
  {
    hide Minified, IsGap, GapText;
    if gs == [] {
      assert [] + rest == rest;
    } else {
      var more := GapsText(gs[1..]);
      assert (GapText(gs[0]) + more) + rest == GapText(gs[0]) + (more + rest);
      GapDropped(gs[0], more + rest);
      GapsDropped(gs[1..], rest);
    }
  }

  lemma CommentaryDropped(f: bytes, rest: bytes)
    requires Commentary(f)
    ensures Minified(f + rest) == Minified(rest)
  {
    hide Minified, IsGap, GapsText;
    var gs: seq<Gap> :| (forall i :: 0 <= i < |gs| ==> IsGap(gs[i])) && f == GapsText(gs);
    GapsDropped(gs, rest);
  }

  // ----- tokens are kept -----

  /** A byte outside strings that stays. */
  predicate Kept(c: byte) {
    c !in {0x20, 0x09, 0x0a, 0x0d, SLASH, QUOTE}
  }

  lemma {:induction false} KeptStay(token: bytes, rest: bytes)
    requires forall i :: 0 <= i < |token| ==> Kept(token[i])
    ensures Minified(token + rest) == token + Minified(rest)
  {
    if token == [] {
      assert token + rest == rest;
    } else {
      assert (token + rest)[1..] == token[1..] + rest;
      KeptStay(token[1..], rest);
      assert token == [token[0]] + token[1..];
    }
  }

  lemma OneStays(c: byte, rest: bytes)
    requires Kept(c)
    ensures Minified([c] + rest) == [c] + Minified(rest)
  {
    KeptStay([c], rest);
  }

  lemma StringByteStays(c: byte, rest: bytes)
    requires c != QUOTE && (c == BACKSLASH ==> rest != [] && rest[0] != QUOTE)
    ensures MinifiedString([c] + rest) == [c] + MinifiedString(rest)
  {
    assert ([c] + rest)[1..] == rest;
  }

  lemma EscapedQuoteStays(rest: bytes)
    ensures MinifiedString([BACKSLASH, QUOTE] + rest) == [BACKSLASH, QUOTE] + MinifiedString(rest)
  {
    assert ([BACKSLASH, QUOTE] + rest)[2..] == rest;
  }

  lemma EscapeStays(c: byte, rest: bytes)
    requires rest != [] && (c == BACKSLASH ==> rest[0] != QUOTE)
    ensures MinifiedString([BACKSLASH, c] + rest) == [BACKSLASH, c] + MinifiedString(rest)
  {
    hide MinifiedString;
    if c == QUOTE {
      EscapedQuoteStays(rest);
    } else {
      StringByteStays(c, rest);
      StringByteStays(BACKSLASH, [c] + rest);
      assert [BACKSLASH, c] + rest == [BACKSLASH] + ([c] + rest);
      assert [BACKSLASH] + ([c] + MinifiedString(rest)) == [BACKSLASH, c] + MinifiedString(rest);
    }
  }

  lemma StringEnds(rest: bytes)
    ensures MinifiedString([] + ([QUOTE] + rest)) == [] + ([QUOTE] + Minified(rest))
  {
    hide Minified;
    assert [] + ([QUOTE] + rest) == [QUOTE] + rest && ([QUOTE] + rest)[1..] == rest;
  }

  lemma Rest(token: bytes, n: nat, rest: bytes)
    requires n <= |token|
    ensures token + rest == token[..n] + (token[n..] + rest)
  {
  }

  /** A string stays, whose token does not end in a backslash. */
  lemma {:induction false} StringStays(token: bytes, rest: bytes)
    requires Closed(token) && (token != [] ==> token[|token| - 1] != BACKSLASH)
    ensures MinifiedString(token + ([QUOTE] + rest)) == token + ([QUOTE] + Minified(rest))
    decreases |token|
  {
    hide Minified, MinifiedString;
    if token == [] {
      StringEnds(rest);
    } else {
      var n := if token[0] == BACKSLASH then 2 else 1;
      var more := token[n..] + ([QUOTE] + rest);
      Rest(token, n, [QUOTE] + rest);
      Rest(token, n, [QUOTE] + Minified(rest));
      StringStays(token[n..], rest);
      if n == 2 {
        assert token[..n] == [BACKSLASH, token[1]];
        EscapeStays(token[1], more);
      } else {
        assert token[..n] == [token[0]];
        StringByteStays(token[0], more);
      }
    }
  }

  // ----- whole texts -----

  /** A string of the grammar whose last character is not an escaped backslash. */
  ghost predicate PlainEnd(token: bytes, text: bytes) {
    IsLiteral(token, text) && (token != [] ==> token[|token| - 1] != BACKSLASH)
  }

  ghost predicate Annotated(strtod: Strtod, s: Spelling) {
    Tokens(s, Figures(strtod), PlainEnd) && Filled(s, Commentary)
  }

  ghost predicate AnnotatedItems(strtod: Strtod, e: Items) {
    ItemTokens(e, Figures(strtod), PlainEnd) && ItemsFilled(e, Commentary)
  }

  ghost predicate AnnotatedFields(strtod: Strtod, f: Fields) {
    FieldTokens(f, Figures(strtod), PlainEnd) && FieldsFilled(f, Commentary)
  }

  /** The same text with nothing between its tokens. */
  function Compact(s: Spelling): Spelling {
    match s
    case List(_, items) => List([], CompactItems(items))
    case Record(_, fields) => Record([], CompactFields(fields))
    case _ => s
  }

  function CompactItems(e: Items): Items {
    if e.NoItem? then NoItem else OneItem([], Compact(e.value), [], CompactItems(e.next))
  }

  function CompactFields(f: Fields): Fields {
    if f.NoField? then NoField
    else OneField([], f.token, f.name, [], [], Compact(f.value), [], CompactFields(f.next))
  }

  lemma KeywordKept(v: Json)
    ensures var t := KeywordText(v); forall i :: 0 <= i < |t| ==> Kept(t[i])
  {
  }

  lemma FigureKept(strtod: Strtod, token: bytes, n: int)
    requires IsFigure(strtod, token, n)
    ensures forall i :: 0 <= i < |token| ==> Kept(token[i])
  {
  }

  lemma QuotedStays(token: bytes, text: bytes, rest: bytes)
    requires PlainEnd(token, text)
    ensures Minified(InQuotes(token, rest)) == InQuotes(token, Minified(rest))
  {
    LiteralIsLoose(token, text);
    StringStays(token, rest);
    var t := InQuotes(token, rest);
    assert t[1..] == token + ([QUOTE] + rest);
  }

  /** Minifying a text with comments gives the compact text, and then goes on. */
  lemma {:induction false} MinifySpelling(strtod: Strtod, s: Spelling, rest: bytes)
    requires Annotated(strtod, s)
    ensures Minified(Spell(s, rest)) == Spell(Compact(s), Minified(rest))
    decreases s
  {
    hide Minified, Commentary, PlainEnd, IsFigure, Kept, InQuotes, SpellItems, SpellFields;
    match s
    case Keyword(v) =>
      KeywordKept(v);
      KeptStay(KeywordText(v), rest);
    case Figure(token, n) =>
      FigureKept(strtod, token, n);
      KeptStay(token, rest);
    case Characters(token, text) => QuotedStays(token, text, rest);
    case List(filler, items) =>
      Opened(LBRACKET, filler, SpellItems(items, [RBRACKET] + rest));
      MinifyItems(strtod, items, [RBRACKET] + rest);
      Closes(rest);
      NothingBefore(SpellItems(CompactItems(items), [RBRACKET] + Minified(rest)));
    case Record(filler, fields) =>
      Opened(LBRACE, filler, SpellFields(fields, [RBRACE] + rest));
      MinifyFields(strtod, fields, [RBRACE] + rest);
      Closes(rest);
      NothingBefore(SpellFields(CompactFields(fields), [RBRACE] + Minified(rest)));
  }

  lemma Opened(open: byte, filler: bytes, rest: bytes)
    requires Kept(open) && Commentary(filler)
    ensures Minified([open] + (filler + rest)) == [open] + Minified(rest)
  {
    OneStays(open, filler + rest);
    CommentaryDropped(filler, rest);
  }

  lemma Closes(rest: bytes)
    ensures Kept(LBRACKET) && Kept(LBRACE) && Kept(COMMA) && Kept(COLON)
    ensures Minified([RBRACKET] + rest) == [RBRACKET] + Minified(rest)
    ensures Minified([RBRACE] + rest) == [RBRACE] + Minified(rest)
    ensures Minified([COMMA] + rest) == [COMMA] + Minified(rest)
  {
    OneStays(RBRACKET, rest);
    OneStays(RBRACE, rest);
    OneStays(COMMA, rest);
  }

  lemma {:induction false} MinifyItems(strtod: Strtod, e: Items, rest: bytes)
    requires AnnotatedItems(strtod, e)
    ensures Minified(SpellItems(e, rest)) == SpellItems(CompactItems(e), Minified(rest))
    decreases e
  {
    hide Minified, Commentary, PlainEnd, IsFigure, Kept, Spell, SpellItems;
    if e.NoItem? {
      EmptyList(rest);
      EmptyList(Minified(rest));
    } else {
      var tail := if e.next.NoItem? then rest else [COMMA] + SpellItems(e.next, rest);
      SpellItemsStep(e, rest);
      SpellItemsStep(CompactItems(e), Minified(rest));
      MinifyItems(strtod, e.next, rest);
      Closes(SpellItems(e.next, rest));
      CommentaryDropped(e.after, tail);
      MinifySpelling(strtod, e.value, e.after + tail);
      CommentaryDropped(e.before, Spell(e.value, e.after + tail));
      NothingBefore(Minified(tail));
      NothingBefore(Spell(Compact(e.value), Minified(tail)));
    }
  }

  lemma EmptyList(rest: bytes)
    ensures SpellItems(NoItem, rest) == rest && SpellFields(NoField, rest) == rest
  {
  }

  lemma {:induction false} MinifyFields(strtod: Strtod, f: Fields, rest: bytes)
    requires AnnotatedFields(strtod, f)
    ensures Minified(SpellFields(f, rest)) == SpellFields(CompactFields(f), Minified(rest))
    decreases f
  {
    hide Minified, Commentary, PlainEnd, IsFigure, Kept, Spell, SpellFields, InQuotes;
    if f.NoField? {
      EmptyList(rest);
      EmptyList(Minified(rest));
    } else {
      var tail := if f.next.NoField? then rest else [COMMA] + SpellFields(f.next, rest);
      var value := Spell(f.value, f.after + tail);
      SpellFieldsStep(f, rest);
      SpellFieldsStep(CompactFields(f), Minified(rest));
      MinifyFields(strtod, f.next, rest);
      Closes(SpellFields(f.next, rest));
      CommentaryDropped(f.after, tail);
      MinifySpelling(strtod, f.value, f.after + tail);
      ColonStays(f.gap, f.lead, value);
      QuotedStays(f.token, f.name, f.gap + ([COLON] + (f.lead + value)));
      CommentaryDropped(f.before, InQuotes(f.token, f.gap + ([COLON] + (f.lead + value))));
      NothingBefore(Minified(tail));
      NothingBefore(Minified(value));
      NothingBefore([COLON] + Minified(value));
      NothingBefore(InQuotes(f.token, [COLON] + Minified(value)));
    }
  }

  lemma ColonStays(gap: bytes, lead: bytes, value: bytes)
    requires Commentary(gap) && Commentary(lead)
    ensures Minified(gap + ([COLON] + (lead + value))) == [COLON] + Minified(value)
  {
    hide Minified, Commentary;
    CommentaryDropped(gap, [COLON] + (lead + value));
    OneStays(COLON, lead + value);
    CommentaryDropped(lead, value);
  }

  // ----- documents -----

  /** What may stand behind the value: also a comment that is not closed. */
  ghost predicate Trailing(f: bytes) {
    exists c, body ::
      && f == c + body && Commentary(c)
      && (body == [] || (|body| >= 2 && body[..2] == [SLASH, SLASH] && LF !in body)
          || (|body| >= 2 && body[..2] == [SLASH, STAR] && Unclosed(body[2..])))
  }

  lemma TrailingDropped(f: bytes)
    requires Trailing(f)
    ensures Minified(f) == []
  {
    hide Commentary, AfterLine, AfterBlock, Unclosed;
    var c, body :|
      && f == c + body && Commentary(c)
      && (body == [] || (|body| >= 2 && body[..2] == [SLASH, SLASH] && LF !in body)
          || (|body| >= 2 && body[..2] == [SLASH, STAR] && Unclosed(body[2..])));
    CommentaryDropped(c, body);
    if body != [] {
      assert body[0] == body[..2][0] && body[1] == body[..2][1];
      if body[1] == SLASH {
        LineDropped(body[2..], []);
      } else {
        BlockDropped(body[2..], []);
      }
    }
  }

  lemma {:induction false} CompactMeans(strtod: Strtod, s: Spelling)
    requires Annotated(strtod, s)
    ensures Proper(strtod, Compact(s)) && ValueOf(Compact(s)) == ValueOf(s)
    decreases s
  {
    hide Commentary, PlainEnd, IsFigure, IsLiteral;
    match s
    case Characters(token, text) => PlainLiteral(token, text);
    case List(_, items) => CompactItemsMean(strtod, items);
    case Record(_, fields) => CompactFieldsMean(strtod, fields);
    case _ =>
  }

  lemma PlainLiteral(token: bytes, text: bytes)
    requires PlainEnd(token, text)
    ensures IsLiteral(token, text)
  {
  }

  lemma {:induction false} CompactItemsMean(strtod: Strtod, e: Items)
    requires AnnotatedItems(strtod, e)
    ensures ProperItems(strtod, CompactItems(e)) && ValuesOf(CompactItems(e)) == ValuesOf(e)
    decreases e
  {
    hide Commentary, PlainEnd, IsFigure, IsLiteral;
    if e.OneItem? {
      CompactMeans(strtod, e.value);
      CompactItemsMean(strtod, e.next);
    }
  }

  lemma {:induction false} CompactFieldsMean(strtod: Strtod, f: Fields)
    requires AnnotatedFields(strtod, f)
    ensures ProperFields(strtod, CompactFields(f)) && MembersOf(CompactFields(f)) == MembersOf(f)
    decreases f
  {
    hide Commentary, PlainEnd, IsFigure, IsLiteral;
    if f.OneField? {
      PlainLiteral(f.token, f.name);
      CompactMeans(strtod, f.value);
      CompactFieldsMean(strtod, f.next);
    }
  }

  /** A JSON text with white space and comments anywhere between its tokens is minified to its tokens, and is then
      read as its value. */
  lemma {:induction false} CommentedTextParses(
      strtod: Strtod, s: Spelling, before: bytes, after: bytes, requireNul: bool)
    requires Annotated(strtod, s) && Commentary(before) && Trailing(after)
    requires Nesting(ValueOf(s)) <= NESTING_LIMIT
    ensures Minified(before + Spell(s, after)) == Spell(Compact(s), [])
    ensures ParseDocument(strtod, Minified(before + Spell(s, after)) + [0], requireNul) == Some(ValueOf(s))
  {
    hide Minified, Commentary, Annotated, Proper, Spell, Trailing, ParseDocument;
    CommentaryDropped(before, Spell(s, after));
    MinifySpelling(strtod, s, after);
    TrailingDropped(after);
    CompactMeans(strtod, s);
    SpellThen(Compact(s), [0]);
    NothingBefore([0]);
    NothingBefore(Spell(Compact(s), [0]));
    NothingBefore([] + Spell(Compact(s), [0]));
    EveryTextParses(strtod, Compact(s), false, [], [], requireNul);
  }
}

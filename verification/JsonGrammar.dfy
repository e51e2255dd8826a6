/** JSON texts after the grammar of RFC 8259, as trees of what was written: tokens and what stands between
    them. Nothing here refers to the parser or the printers. */
module JsonGrammar {
  import opened Bytes
  import opened JsonValue

  /** A value as written. `token` is what stands between the quotes of a string, or the digits of a number;
      the other byte strings are what stands between tokens. */
  datatype Spelling =
    | Keyword(value: Json)
    | Figure(token: bytes, number: int)
    | Characters(token: bytes, text: bytes)
    | List(filler: bytes, items: Items)
    | Record(filler: bytes, fields: Fields)

  datatype Items = NoItem | OneItem(before: bytes, value: Spelling, after: bytes, next: Items)

  datatype Fields =
    | NoField
    | OneField(
        before: bytes, token: bytes, name: bytes, gap: bytes, lead: bytes, value: Spelling, after: bytes,
        next: Fields)

  // ----- the text -----

  function KeywordText(v: Json): bytes {
    match v
    case Null => Ascii("null")
    case False => Ascii("false")
    case True => Ascii("true")
    case _ => []
  }

  /** The text, followed by `rest`. */
  function Spell(s: Spelling, rest: bytes): bytes
    decreases s
  {
    match s
    case Keyword(v) => KeywordText(v) + rest
    case Figure(token, _) => token + rest
    case Characters(token, _) => InQuotes(token, rest)
    case List(filler, items) => [LBRACKET] + (filler + SpellItems(items, [RBRACKET] + rest))
    case Record(filler, fields) => [LBRACE] + (filler + SpellFields(fields, [RBRACE] + rest))
  }

  function InQuotes(token: bytes, rest: bytes): bytes {
    [QUOTE] + (token + ([QUOTE] + rest))
  }

  /** The items of an array, with commas between them. */
  function SpellItems(e: Items, rest: bytes): bytes
    decreases e
  {
    match e
    case NoItem => rest
    case OneItem(before, value, after, NoItem) => before + Spell(value, after + rest)
    case OneItem(before, value, after, next) =>
      before + Spell(value, after + ([COMMA] + SpellItems(next, rest)))
  }

  /** The members of an object, with commas between them. */
  function SpellFields(f: Fields, rest: bytes): bytes
    decreases f
  {
    match f
    case NoField => rest
    case OneField(before, token, _, gap, lead, value, after, NoField) =>
      before + InQuotes(token, gap + ([COLON] + (lead + Spell(value, after + rest))))
    case OneField(before, token, _, gap, lead, value, after, next) =>
      before + InQuotes(token, gap + ([COLON] + (lead + Spell(value, after + ([COMMA] + SpellFields(next, rest))))))
  }

  // ----- the value -----

  function ValueOf(s: Spelling): Json {
    match s
    case Keyword(v) => v
    case Figure(_, n) => Number(n)
    case Characters(_, text) => String(text)
    case List(_, items) => Array(ValuesOf(items))
    case Record(_, fields) => Object(MembersOf(fields))
  }

  function ValuesOf(e: Items): Elements {
    if e.NoItem? then NoElement else Element(ValueOf(e.value), ValuesOf(e.next))
  }

  function MembersOf(f: Fields): Members {
    if f.NoField? then NoMember else Member(f.name, ValueOf(f.value), MembersOf(f.next))
  }

  // ----- which tokens and which fillers -----

  /** What is asked of keywords, numbers and strings: `figure(token, n)` and `quoted(token, text)` tell which
      tokens stand for what. */
  ghost predicate Tokens(s: Spelling, figure: (bytes, int) -> bool, quoted: (bytes, bytes) -> bool)
    decreases s
  {
    match s
    case Keyword(v) => v.Null? || v.False? || v.True?
    case Figure(token, n) => figure(token, n)
    case Characters(token, text) => quoted(token, text)
    case List(_, items) => ItemTokens(items, figure, quoted)
    case Record(_, fields) => FieldTokens(fields, figure, quoted)
  }

  ghost predicate ItemTokens(e: Items, figure: (bytes, int) -> bool, quoted: (bytes, bytes) -> bool)
    decreases e
  {
    e.OneItem? ==> Tokens(e.value, figure, quoted) && ItemTokens(e.next, figure, quoted)
  }

  ghost predicate FieldTokens(f: Fields, figure: (bytes, int) -> bool, quoted: (bytes, bytes) -> bool)
    decreases f
  {
    f.OneField? ==> quoted(f.token, f.name) && Tokens(f.value, figure, quoted) && FieldTokens(f.next, figure, quoted)
  }

  /** What stands between tokens satisfies `filler`. */
  ghost predicate Filled(s: Spelling, filler: bytes -> bool)
    decreases s
  {
    match s
    case List(f, items) => filler(f) && ItemsFilled(items, filler)
    case Record(f, fields) => filler(f) && FieldsFilled(fields, filler)
    case _ => true
  }

  ghost predicate ItemsFilled(e: Items, filler: bytes -> bool)
    decreases e
  {
    e.OneItem? ==> filler(e.before) && Filled(e.value, filler) && filler(e.after) && ItemsFilled(e.next, filler)
  }

  ghost predicate FieldsFilled(f: Fields, filler: bytes -> bool)
    decreases f
  {
    f.OneField? ==>
      && filler(f.before) && filler(f.gap) && filler(f.lead) && Filled(f.value, filler) && filler(f.after)
      && FieldsFilled(f.next, filler)
  }

  /** White space of RFC 8259, section 2. */
  predicate White(f: bytes) {
    forall i :: 0 <= i < |f| ==> f[i] in {0x20, 0x09, 0x0a, 0x0d}
  }

  /** The bytes a number may be made of (section 6): digits, signs, a point and an exponent mark. */
  predicate FigureByte(c: byte) {
    0x30 <= c <= 0x39 || c in {0x2b, 0x2d, 0x2e, 0x45, 0x65}
  }

  lemma SpellItemsStep(e: Items, rest: bytes)
    requires e.OneItem?
    ensures SpellItems(e, rest) ==
            e.before + Spell(e.value, e.after + if e.next.NoItem? then rest else [COMMA] + SpellItems(e.next, rest))
  {
  }

  lemma SpellFieldsStep(f: Fields, rest: bytes)
    requires f.OneField?
    ensures var tail := if f.next.NoField? then rest else [COMMA] + SpellFields(f.next, rest);
            SpellFields(f, rest) ==
            f.before + InQuotes(f.token, f.gap + ([COLON] + (f.lead + Spell(f.value, f.after + tail))))
  {
  }

  // ----- what follows a text does not change it -----

  lemma NothingBefore(t: bytes)
    ensures [] + t == t
  {
  }

  lemma {:induction false} SpellThen(s: Spelling, rest: bytes)
    ensures Spell(s, rest) == Spell(s, []) + rest
    decreases s
  {
    hide SpellItems, SpellFields;
    match s
    case Keyword(v) => Assoc2(KeywordText(v), [], rest);
    case Figure(token, _) => Assoc2(token, [], rest);
    case Characters(token, _) => QuotesThen(token, rest);
    case List(filler, items) =>
      ItemsThen(items, [RBRACKET] + rest);
      ItemsThen(items, [RBRACKET] + []);
      ClosedThen(LBRACKET, filler, SpellItems(items, []), RBRACKET, rest);
    case Record(filler, fields) =>
      FieldsThen(fields, [RBRACE] + rest);
      FieldsThen(fields, [RBRACE] + []);
      ClosedThen(LBRACE, filler, SpellFields(fields, []), RBRACE, rest);
  }

  lemma Assoc3(a: bytes, b: bytes, c: bytes, d: bytes)
    ensures a + (b + (c + d)) == (a + (b + c)) + d
  {
  }

  lemma Assoc2(a: bytes, b: bytes, c: bytes)
    ensures a + (b + c) == (a + b) + c && a + c == (a + []) + c
  {
  }

  lemma QuotesThen(token: bytes, rest: bytes)
    ensures InQuotes(token, rest) == InQuotes(token, []) + rest
  {
  }

  lemma ClosedThen(open: byte, filler: bytes, middle: bytes, close: byte, rest: bytes)
    ensures [open] + (filler + (middle + ([close] + rest))) ==
            ([open] + (filler + (middle + ([close] + [])))) + rest
  {
  }

  lemma {:induction false} ItemsThen(e: Items, rest: bytes)
    ensures SpellItems(e, rest) == SpellItems(e, []) + rest
    decreases e
  {
    hide Spell, SpellItems;
    if e.NoItem? {
      EmptyLists(rest);
    } else {
      var tail := if e.next.NoItem? then [] else [COMMA] + SpellItems(e.next, []);
      SpellItemsStep(e, rest);
      SpellItemsStep(e, []);
      ItemsThen(e.next, rest);
      SpellThen(e.value, e.after + (tail + rest));
      SpellThen(e.value, e.after + tail);
      assert (if e.next.NoItem? then rest else [COMMA] + SpellItems(e.next, rest)) == tail + rest;
      Assoc3(Spell(e.value, []), e.after, tail, rest);
      Assoc2(e.before, Spell(e.value, []) + (e.after + tail), rest);
    }
  }

  lemma EmptyLists(rest: bytes)
    ensures SpellItems(NoItem, rest) == SpellItems(NoItem, []) + rest
    ensures SpellFields(NoField, rest) == SpellFields(NoField, []) + rest
  {
  }

  lemma {:induction false} FieldsThen(f: Fields, rest: bytes)
    ensures SpellFields(f, rest) == SpellFields(f, []) + rest
    decreases f
  {
    hide Spell, SpellFields, InQuotes;
    if f.NoField? {
      EmptyLists(rest);
    } else {
      var tail := if f.next.NoField? then [] else [COMMA] + SpellFields(f.next, []);
      SpellFieldsStep(f, rest);
      SpellFieldsStep(f, []);
      FieldsThen(f.next, rest);
      assert (if f.next.NoField? then rest else [COMMA] + SpellFields(f.next, rest)) == tail + rest;
      SpellThen(f.value, f.after + (tail + rest));
      SpellThen(f.value, f.after + tail);
      Assoc3(Spell(f.value, []), f.after, tail, rest);
      FieldThen(f, Spell(f.value, []) + (f.after + tail), rest);
    }
  }

  lemma FieldThen(f: Fields, value: bytes, rest: bytes)
    requires f.OneField?
    ensures f.before + InQuotes(f.token, f.gap + ([COLON] + (f.lead + (value + rest)))) ==
            (f.before + InQuotes(f.token, f.gap + ([COLON] + (f.lead + value)))) + rest
  {
    hide InQuotes;
    var key := f.gap + ([COLON] + (f.lead + value));
    assert f.gap + ([COLON] + (f.lead + (value + rest))) == key + rest;
    QuotesThen(f.token, key + rest);
    QuotesThen(f.token, key);
    Assoc2(InQuotes(f.token, []), key, rest);
    Assoc2(f.before, InQuotes(f.token, []) + key, rest);
  }
}

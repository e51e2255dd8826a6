/** The parser accepts nothing but the texts of the grammar, with its laxer rules for strings and for what stands
    between tokens. */
module Soundness {
  import opened Bytes
  import opened JsonValue
  import opened JsonText
  import opened JsonGrammar
  import opened StringLiteral
  import opened Literals
  import opened ParseSpec
  import opened Acceptance

  // ----- tokens -----

  /** `strtod` reads `token` off the number bytes in front of it, and leaves the others. */
  predicate LeadingFigure(strtod: Strtod, token: bytes, n: int, rest: bytes) {
    && token != [] && (token[0] == MINUS || 0x30 <= token[0] <= 0x39)
    && (forall i :: 0 <= i < |token| ==> FigureByte(token[i]))
    && strtod(token + rest[..NumberRun(rest)]) == NumberScan(|token|, n)
  }

  /** The text `s` stands before `rest`. */
  ghost predicate Leads(strtod: Strtod, s: Spelling, rest: bytes) {
    if s.Figure? then LeadingFigure(strtod, s.token, s.number, rest) else Lenient(strtod, s)
  }

  lemma LeadingEnds(strtod: Strtod, s: Spelling, rest: bytes)
    requires Leads(strtod, s, rest) && (rest == [] || !NumberByte(rest[0]))
    ensures Lenient(strtod, s)
  {
    hide FigureByte;
    if s.Figure? {
      assert s.token + rest[..NumberRun(rest)] == s.token;
    }
  }

  lemma {:induction false} SkippedBlank(t: bytes) returns (blank: bytes)
    ensures Blank(blank) && t == blank + SkipWhitespace(t)
  {
    if |t| > 1 && t[0] <= 32 {
      var more := SkippedBlank(t[1..]);
      blank := [t[0]] + more;
      assert t == [t[0]] + t[1..];
    } else {
      blank := [];
    }
  }

  lemma {:induction false} RunSplits(t: bytes, n: nat)
    requires n <= NumberRun(t)
    ensures NumberRun(t[n..]) == NumberRun(t) - n
    ensures forall i :: 0 <= i < n ==> NumberByte(t[i])
  {
    if n == 0 {
      assert t[0..] == t;
    } else {
      RunSplits(t[1..], n - 1);
      assert t[1..][n - 1..] == t[n..];
      assert forall i :: 1 <= i < n ==> t[i] == t[1..][i - 1];
    }
  }

  lemma FigureRead(strtod: Strtod, t: bytes, depth: nat) returns (s: Spelling)
    requires t != [] && (t[0] == MINUS || 0x30 <= t[0] <= 0x39) && ParseNumber(strtod, t).Parsed?
    ensures var r := ParseNumber(strtod, t);
            s.Figure? && t == s.token + r.rest && Number(s.number) == r.value
            && LeadingFigure(strtod, s.token, s.number, r.rest)
  {
    var scan := strtod(t[..NumberRun(t)]);
    var rest := t[scan.consumed..];
    s := Figure(t[..scan.consumed], scan.value);
    RunSplits(t, scan.consumed);
    assert s.token + rest[..NumberRun(rest)] == t[..NumberRun(t)];
  }

  // ----- values -----

  /** What is read is the text of its value. */
  lemma {:induction false} ValueSpelled(strtod: Strtod, t: bytes, depth: nat) returns (s: Spelling)
    requires ParseValue(strtod, t, depth).Parsed?
    ensures var r := ParseValue(strtod, t, depth);
            t == Spell(s, r.rest) && ValueOf(s) == r.value && Leads(strtod, s, r.rest)
    decreases |t|, 2
  {
    hide ParseValue, ParseNumber, ParseArray, ParseObject, ParseLiteral, LooseLiteral, LeadingFigure;
    NothingParses(strtod, depth);
    ByFirstByte(strtod, t, depth);
    if t[0] == QUOTE {
      var token := AcceptedIsLoose(t);
      s := Characters(token, ParseLiteral(t).text);
    } else if t[0] == MINUS || 0x30 <= t[0] <= 0x39 {
      s := FigureRead(strtod, t, depth);
    } else if t[0] == LBRACKET {
      s := ArraySpelled(strtod, t, depth);
    } else if t[0] == LBRACE {
      s := ObjectSpelled(strtod, t, depth);
    } else {
      s := KeywordRead(strtod, t, depth);
    }
  }

  lemma KeywordRead(strtod: Strtod, t: bytes, depth: nat) returns (s: Spelling)
    requires NULL_TEXT <= t || FALSE_TEXT <= t || TRUE_TEXT <= t
    ensures var r := ParseValue(strtod, t, depth);
            r.Parsed? && t == Spell(s, r.rest) && ValueOf(s) == r.value && Lenient(strtod, s) && s.Keyword?
  {
    s := Keyword(if NULL_TEXT <= t then Null else if FALSE_TEXT <= t then False else True);
    var text := KeywordText(s.value);
    assert text == match s.value case Null => NULL_TEXT case False => FALSE_TEXT case _ => TRUE_TEXT;
    assert t == text + t[|text|..];
  }

  lemma {:induction false} ArraySpelled(strtod: Strtod, t: bytes, depth: nat) returns (s: Spelling)
    requires t != [] && t[0] == LBRACKET && ParseArray(strtod, t, depth).Parsed?
    ensures var r := ParseArray(strtod, t, depth);
            t == Spell(s, r.rest) && ValueOf(s) == r.value && Lenient(strtod, s) && s.List?
    decreases |t|, 1
  {
    hide SkipWhitespace, Blank, ParseElements, LooseLiteral;
    var filler := SkippedBlank(t[1..]);
    var u := SkipWhitespace(t[1..]);
    assert t == [LBRACKET] + (filler + u);
    if u[0] == RBRACKET {
      s := List(filler, NoItem);
      assert u == [RBRACKET] + u[1..];
      NoItemsLenient(strtod);
    } else {
      var items := ElementsSpelled(strtod, u, depth + 1);
      s := List(filler, items);
    }
  }

  lemma NoItemsLenient(strtod: Strtod)
    ensures LenientItems(strtod, NoItem) && LenientFields(strtod, NoField)
  {
  }

  lemma {:induction false} ElementsSpelled(strtod: Strtod, t: bytes, depth: nat) returns (items: Items)
    requires ParseElements(strtod, t, depth).Parsed?
    ensures var r := ParseElements(strtod, t, depth);
            t == SpellItems(items, [RBRACKET] + r.rest) && ValuesOf(items) == r.value
            && LenientItems(strtod, items) && items.OneItem?
    decreases |t|, 3
  {
    hide SkipWhitespace, Blank, ParseValue, Leads, Lenient, LenientItems, LooseLiteral, Spell, SpellItems;
    hide Tokens, Filled;
    var before := SkippedBlank(t);
    var u := SkipWhitespace(t);
    var v := ParseValue(strtod, u, depth);
    var value := ValueSpelled(strtod, u, depth);
    var after := SkippedBlank(v.rest);
    var w := SkipWhitespace(v.rest);
    assert w == [w[0]] + w[1..];
    BlankOrEnd(after, w);
    LeadingEnds(strtod, value, v.rest);
    var next := NoItem;
    if w[0] == COMMA {
      next := ElementsSpelled(strtod, w[1..], depth);
    } else {
      NoItemsLenient(strtod);
    }
    items := OneItem(before, value, after, next);
    SpellItemsStep(items, [RBRACKET] + ParseElements(strtod, t, depth).rest);
    OneItemLenient(strtod, items);
  }

  lemma BlankOrEnd(blank: bytes, w: bytes)
    requires Blank(blank) && w != [] && w[0] in {COMMA, RBRACKET, RBRACE, COLON}
    ensures !NumberByte((blank + w)[0])
  {
  }

  lemma OneItemLenient(strtod: Strtod, items: Items)
    requires items.OneItem? && Blank(items.before) && Lenient(strtod, items.value) && Blank(items.after)
    requires LenientItems(strtod, items.next)
    ensures LenientItems(strtod, items)
  {
    hide Blank, Tokens, Filled;
  }

  lemma {:induction false} ObjectSpelled(strtod: Strtod, t: bytes, depth: nat) returns (s: Spelling)
    requires t != [] && t[0] == LBRACE && ParseObject(strtod, t, depth).Parsed?
    ensures var r := ParseObject(strtod, t, depth);
            t == Spell(s, r.rest) && ValueOf(s) == r.value && Lenient(strtod, s) && s.Record?
    decreases |t|, 1
  {
    hide SkipWhitespace, Blank, ParseMembers, LooseLiteral;
    var filler := SkippedBlank(t[1..]);
    var u := SkipWhitespace(t[1..]);
    assert t == [LBRACE] + (filler + u);
    if u[0] == RBRACE {
      s := Record(filler, NoField);
      assert u == [RBRACE] + u[1..];
      NoItemsLenient(strtod);
    } else {
      var fields := MembersSpelled(strtod, u, depth + 1);
      s := Record(filler, fields);
    }
  }

  /** A key, from the blanks before it to its colon. */
  lemma KeySpelled(t: bytes) returns (before: bytes, token: bytes, gap: bytes)
    requires ParseKey(t).Key?
    ensures var r := ParseKey(t);
            t == before + InQuotes(token, gap + ([COLON] + r.rest)) && LooseLiteral(token, r.name)
            && Blank(before) && Blank(gap)
  {
    hide SkipWhitespace, Blank, ParseLiteral, LooseLiteral;
    before := SkippedBlank(t);
    var u := SkipWhitespace(t);
    token := AcceptedIsLoose(u);
    var rest := ParseLiteral(u).rest;
    gap := SkippedBlank(rest);
    var w := SkipWhitespace(rest);
    assert w == [COLON] + w[1..];
  }

  lemma {:induction false} MembersSpelled(strtod: Strtod, t: bytes, depth: nat) returns (fields: Fields)
    requires ParseMembers(strtod, t, depth).Parsed?
    ensures var r := ParseMembers(strtod, t, depth);
            t == SpellFields(fields, [RBRACE] + r.rest) && MembersOf(fields) == r.value
            && LenientFields(strtod, fields) && fields.OneField?
    decreases |t|, 3
  {
    hide SkipWhitespace, Blank, ParseValue, ParseKey, Leads, Lenient, LenientFields, LooseLiteral, Spell, SpellFields;
    hide Tokens, Filled, InQuotes;
    var key := ParseKey(t);
    var before, token, gap := KeySpelled(t);
    var lead := SkippedBlank(key.rest);
    var u := SkipWhitespace(key.rest);
    var v := ParseValue(strtod, u, depth);
    var value := ValueSpelled(strtod, u, depth);
    var after := SkippedBlank(v.rest);
    var w := SkipWhitespace(v.rest);
    assert w == [w[0]] + w[1..];
    BlankOrEnd(after, w);
    LeadingEnds(strtod, value, v.rest);
    var next := NoField;
    if w[0] == COMMA {
      next := MembersSpelled(strtod, w[1..], depth);
    } else {
      NoItemsLenient(strtod);
    }
    fields := OneField(before, token, key.name, gap, lead, value, after, next);
    SpellFieldsStep(fields, [RBRACE] + ParseMembers(strtod, t, depth).rest);
    OneFieldLenient(strtod, fields);
  }

  lemma OneFieldLenient(strtod: Strtod, f: Fields)
    requires f.OneField? && Blank(f.before) && LooseLiteral(f.token, f.name) && Blank(f.gap) && Blank(f.lead)
    requires Lenient(strtod, f.value) && Blank(f.after) && LenientFields(strtod, f.next)
    ensures LenientFields(strtod, f)
  {
    hide Blank, Tokens, Filled, LooseLiteral;
  }

  // ----- documents -----

  function Written(marked: bool, before: bytes, s: Spelling, rest: bytes): bytes {
    (if marked then MARK else []) + (before + Spell(s, rest))
  }

  /** Blanks, a value and blanks up to a NUL that is the last byte. */
  ghost predicate IsDocument(strtod: Strtod, t: bytes, s: Spelling) {
    exists marked, before, rest ::
      && t == Written(marked, before, s, rest) && Blank(before) && Lenient(strtod, s)
      && Blank(rest) && rest != [] && rest[|rest| - 1] == 0
  }

  /** Blanks, a value and anything behind it. A byte order mark does not count in a text of four bytes. */
  ghost predicate BeginsDocument(strtod: Strtod, t: bytes, s: Spelling) {
    exists marked, before, rest ::
      t == Written(marked, before, s, rest) && Blank(before) && Leads(strtod, s, rest) && (marked ==> |t| > 4)
  }

  /** What stands behind the value, when the check for the terminator succeeds. */
  lemma {:induction false} EndsInNul(t: bytes)
    requires t != []
    ensures SkipWhitespace(t)[0] == 0 <==> Blank(t) && t[|t| - 1] == 0
  {
    if |t| > 1 && t[0] <= 32 {
      EndsInNul(t[1..]);
      assert t == [t[0]] + t[1..];
    }
  }

  lemma DocumentParts(strtod: Strtod, t: bytes) returns (marked: bool, before: bytes, s: Spelling, rest: bytes)
    requires ParseDocument(strtod, t, false).Some?
    ensures Blank(before) && Leads(strtod, s, rest) && ParseDocument(strtod, t, false) == Some(ValueOf(s))
    ensures t == Written(marked, before, s, rest) && (marked ==> |t| > 4)
    ensures ParseDocument(strtod, t, true).Some? <==> rest != [] && SkipWhitespace(rest)[0] == 0
  {
    hide SkipWhitespace, Blank, ParseValue, Leads, Spell;
    var body := SkipByteOrderMark(t);
    marked := body != t;
    before := SkippedBlank(body);
    s := ValueSpelled(strtod, SkipWhitespace(body), 0);
    rest := ParseValue(strtod, SkipWhitespace(body), 0).rest;
    assert marked ==> t == MARK + body;
    assert !marked ==> t == [] + body;
    NothingSkipped();
  }

  lemma NothingSkipped()
    ensures SkipWhitespace([]) == []
  {
  }

  lemma WithoutDemand(strtod: Strtod, t: bytes)
    requires ParseDocument(strtod, t, true).Some?
    ensures ParseDocument(strtod, t, false) == ParseDocument(strtod, t, true)
  {
  }

  /** What is accepted with the demand for a terminator, and as what: exactly the texts of the grammar with the
      laxer rules, nested at most 1000 deep. */
  lemma {:induction false} AcceptedExactly(strtod: Strtod, t: bytes, v: Json)
    requires Lawful(strtod)
    ensures ParseDocument(strtod, t, true) == Some(v) <==>
            Nesting(v) <= 1000 && exists s :: IsDocument(strtod, t, s) && ValueOf(s) == v
  {
    hide ParseDocument, Blank, Lenient, SkipWhitespace, Leads, Lawful, Written;
    if ParseDocument(strtod, t, true) == Some(v) {
      WithoutDemand(strtod, t);
      AcceptedBounded(strtod, t, true);
      var marked, before, s, rest := DocumentParts(strtod, t);
      EndsInNul(rest);
      LeadsBlank(strtod, s, rest);
      assert IsDocument(strtod, t, s);
    } else if s :| Nesting(v) <= NESTING_LIMIT && IsDocument(strtod, t, s) && ValueOf(s) == v {
      var marked, before, rest :| t == Written(marked, before, s, rest) && Blank(before) && Lenient(strtod, s)
        && Blank(rest) && rest != [] && rest[|rest| - 1] == 0;
      DocumentParses(strtod, marked, before, s, rest);
    }
  }

  lemma LeadsBlank(strtod: Strtod, s: Spelling, rest: bytes)
    requires Leads(strtod, s, rest) && Blank(rest)
    ensures Lenient(strtod, s)
  {
    LeadingEnds(strtod, s, rest);
  }

  lemma DocumentParses(strtod: Strtod, marked: bool, before: bytes, s: Spelling, rest: bytes)
    requires Nesting(ValueOf(s)) <= NESTING_LIMIT && Blank(before) && Lenient(strtod, s)
    requires Blank(rest) && rest != [] && rest[|rest| - 1] == 0
    ensures ParseDocument(strtod, Written(marked, before, s, rest), true) == Some(ValueOf(s))
  {
    hide ParseDocument, Lenient, Spell;
    var after := rest[..|rest| - 1];
    assert rest == after + [0];
    LenientTextParses(strtod, s, marked, before, after, true);
  }

  // ----- without the demand -----

  lemma {:induction false} RunJoins(token: bytes, rest: bytes)
    requires forall i :: 0 <= i < |token| ==> NumberByte(token[i])
    ensures NumberRun(token + rest) == |token| + NumberRun(rest)
  {
    if token == [] {
      assert token + rest == rest;
    } else {
      assert (token + rest)[1..] == token[1..] + rest;
      RunJoins(token[1..], rest);
    }
  }

  lemma LeadingParses(strtod: Strtod, s: Spelling, depth: nat, rest: bytes)
    requires Leads(strtod, s, rest) && depth + Nesting(ValueOf(s)) <= NESTING_LIMIT
    ensures ParseValue(strtod, Spell(s, rest), depth) == Parsed(ValueOf(s), rest)
    ensures var t := Spell(s, rest); t != [] && ValueStart(t[0])
  {
    hide ParseValue, ParseArray, ParseObject, ParseLiteral, NumberRun, FigureByte, Lenient;
    if s.Figure? {
      var t := s.token + rest;
      assert t[0] == s.token[0];
      ByFirstByte(strtod, t, depth);
      FigureBytes(s.token);
      RunJoins(s.token, rest);
      assert t[..NumberRun(t)] == s.token + rest[..NumberRun(rest)] && t[|s.token|..] == rest;
    } else {
      SpellingParses(strtod, s, depth, rest);
      SpellStart(strtod, s, rest);
    }
  }

  /** What is accepted without that demand: exactly what begins with such a text. A number may then be followed
      by number bytes that `strtod` leaves. */
  lemma {:induction false} PrefixAcceptedExactly(strtod: Strtod, t: bytes, v: Json)
    requires Lawful(strtod)
    ensures ParseDocument(strtod, t, false) == Some(v) <==>
            Nesting(v) <= 1000 && exists s :: BeginsDocument(strtod, t, s) && ValueOf(s) == v
  {
    hide ParseDocument, Blank, SkipWhitespace, Leads, Lawful, Written;
    if ParseDocument(strtod, t, false) == Some(v) {
      AcceptedBounded(strtod, t, false);
      var marked, before, s, rest := DocumentParts(strtod, t);
      assert BeginsDocument(strtod, t, s);
    } else if s :| Nesting(v) <= NESTING_LIMIT && BeginsDocument(strtod, t, s) && ValueOf(s) == v {
      var marked, before, rest :|
        t == Written(marked, before, s, rest) && Blank(before) && Leads(strtod, s, rest) && (marked ==> |t| > 4);
      PrefixParses(strtod, marked, before, s, rest);
    }
  }

  lemma PrefixParses(strtod: Strtod, marked: bool, before: bytes, s: Spelling, rest: bytes)
    requires Nesting(ValueOf(s)) <= NESTING_LIMIT && Blank(before) && Leads(strtod, s, rest)
    requires marked ==> |Written(marked, before, s, rest)| > 4
    ensures ParseDocument(strtod, Written(marked, before, s, rest), false) == Some(ValueOf(s))
  {
    hide ParseValue, Spell, SkipWhitespace, Leads, Blank;
    var value := Spell(s, rest);
    var body, t := before + value, Written(marked, before, s, rest);
    LeadingParses(strtod, s, 0, rest);
    SkipBlank(before, value);
    NoMark(before, value);
    if marked {
      assert t[3..] == body;
    } else {
      assert t == body;
    }
  }
}

/** How the printers lay a tree out: which text of the grammar they write. */
module Layout {
  import opened Bytes
  import opened JsonValue
  import opened JsonText
  import opened JsonGrammar
  import opened Literals
  import opened Escapers
  import opened ParseSpec
  import opened Acceptance

  // ----- the layout -----

  /** A new line, indented by one tab for every array and object around it. */
  function NewLine(depth: nat): bytes {
    [0x0a] + seq(depth, _ => 0x09)
  }

  /** The formatted text: every member on a line of its own, a tab behind its colon, a space behind the commas
      of arrays, and the closing brace on a line of its own. The unformatted text has nothing between its
      tokens. `depth` counts the arrays and objects around the value. */
  function Laid(v: Json, fmt: bool, depth: nat): Spelling
    decreases v
  {
    match v
    case Number(n) => Figure(IntText(n), n)
    case String(s) => Characters(Escape(s, []), s)
    case Array(e) => List([], LaidItems(e, fmt, depth + 1, []))
    case Object(m) =>
      Record(if fmt && m.NoMember? then NewLine(depth) else [], LaidFields(m, fmt, depth + 1))
    case _ => Keyword(v)
  }

  function LaidItems(e: Elements, fmt: bool, depth: nat, before: bytes): Items
    decreases e
  {
    if e.NoElement? then NoItem
    else
      OneItem(before, Laid(e.value, fmt, depth), [], LaidItems(e.next, fmt, depth, if fmt then [0x20] else []))
  }

  function LaidFields(m: Members, fmt: bool, depth: nat): Fields
    requires depth > 0
    decreases m
  {
    if m.NoMember? then NoField
    else
      OneField(
        if fmt then NewLine(depth) else [], Escape(m.key, []), m.key, [], if fmt then [0x09] else [],
        Laid(m.value, fmt, depth), if fmt && m.next.NoMember? then NewLine(depth - 1) else [],
        LaidFields(m.next, fmt, depth))
  }

  // ----- the printers write it -----

  lemma {:induction false} RenderIsLaid(v: Json, fmt: bool, depth: nat, rest: bytes)
    ensures Render(v, fmt, depth, rest) == Spell(Laid(v, fmt, depth), rest)
    decreases v, 1
  {
    hide Escape, IntText, RenderElements, RenderMembers, LaidItems, LaidFields, SpellItems, SpellFields;
    match v
    case String(s) => EscapeThen(s, [QUOTE] + rest);
    case Array(e) =>
      ElementsAreLaid(e, fmt, depth + 1, [], [RBRACKET] + rest);
      NothingBefore(RenderElements(e, fmt, depth + 1, [RBRACKET] + rest));
    case Object(m) => ObjectIsLaid(m, fmt, depth, rest);
    case _ =>
  }

  lemma RenderElementsStep(e: Elements, fmt: bool, depth: nat, rest: bytes)
    requires e.Element?
    ensures RenderElements(e, fmt, depth, rest) ==
            Render(e.value, fmt, depth,
              if e.next.NoElement? then rest else ElementGap(fmt) + RenderElements(e.next, fmt, depth, rest))
  {
    hide Render, ElementGap;
  }

  lemma LaidItemsStep(e: Elements, fmt: bool, depth: nat, before: bytes)
    ensures e.NoElement? ==> LaidItems(e, fmt, depth, before) == NoItem
    ensures e.Element? ==>
              LaidItems(e, fmt, depth, before) ==
              OneItem(before, Laid(e.value, fmt, depth), [], LaidItems(e.next, fmt, depth, if fmt then [0x20] else []))
  {
    hide Laid;
  }

  lemma {:induction false} ElementsAreLaid(e: Elements, fmt: bool, depth: nat, before: bytes, rest: bytes)
    requires e.NoElement? ==> before == []
    ensures before + RenderElements(e, fmt, depth, rest) == SpellItems(LaidItems(e, fmt, depth, before), rest)
    decreases e, 0
  {
    hide Render, RenderElements, Spell, SpellItems, Laid, LaidItems;
    var gap := if fmt then [0x20] else [];
    LaidItemsStep(e, fmt, depth, before);
    if e.NoElement? {
      EmptyElements(fmt, depth, rest);
    } else {
      LaidItemsStep(e.next, fmt, depth, gap);
      RenderElementsStep(e, fmt, depth, rest);
      SpellItemsStep(LaidItems(e, fmt, depth, before), rest);
      if e.next.NoElement? {
        NothingBefore(rest);
        RenderIsLaid(e.value, fmt, depth, rest);
      } else {
        var more := RenderElements(e.next, fmt, depth, rest);
        var tail := [COMMA] + (gap + more);
        ElementsAreLaid(e.next, fmt, depth, gap, rest);
        assert ElementGap(fmt) + more == tail;
        NothingBefore(tail);
        RenderIsLaid(e.value, fmt, depth, tail);
      }
    }
  }

  lemma EmptyElements(fmt: bool, depth: nat, rest: bytes)
    ensures RenderElements(NoElement, fmt, depth, rest) == rest && SpellItems(NoItem, rest) == rest
    ensures [] + rest == rest
  {
  }

  function Line(fmt: bool): bytes {
    if fmt then [0x0a] else []
  }

  /** The members, each with the line it stands on. */
  lemma {:induction false} ObjectIsLaid(m: Members, fmt: bool, depth: nat, rest: bytes)
    ensures Render(Object(m), fmt, depth, rest) == Spell(Laid(Object(m), fmt, depth), rest)
    decreases m, 1
  {
    hide RenderMembers, SpellFields, LaidFields;
    var close := Indent(fmt, depth) + ([RBRACE] + rest);
    var body := RenderMembers(m, fmt, depth + 1, close);
    assert OpenObject(fmt) + body == [LBRACE] + (Line(fmt) + body);
    if m.NoMember? {
      EmptyMembers(fmt, depth + 1, close, [RBRACE] + rest);
      LinesAre(fmt, depth);
      assert Line(fmt) + close == (if fmt then NewLine(depth) else []) + ([RBRACE] + rest);
    } else {
      MembersAreLaid(m, fmt, depth + 1, rest);
      NothingBefore(Line(fmt) + body);
    }
  }

  lemma EmptyMembers(fmt: bool, depth: nat, rest: bytes, more: bytes)
    requires depth > 0
    ensures RenderMembers(NoMember, fmt, depth, rest) == rest
    ensures SpellFields(LaidFields(NoMember, fmt, depth), more) == more
  {
  }

  lemma LinesAre(fmt: bool, depth: nat)
    ensures Line(fmt) + Indent(fmt, depth) == if fmt then NewLine(depth) else []
  {
  }

  lemma RenderMembersStep(m: Members, fmt: bool, depth: nat, rest: bytes)
    requires m.Member?
    ensures RenderMembers(m, fmt, depth, rest) ==
            Indent(fmt, depth) + Quoted(m.key, KeyGap(fmt) +
              Render(m.value, fmt, depth, MemberEnd(fmt, m.next.Member?) + RenderMembers(m.next, fmt, depth, rest)))
    ensures m.next.NoMember? ==> RenderMembers(m.next, fmt, depth, rest) == rest
  {
    hide Render, Indent, Quoted, KeyGap, MemberEnd;
  }

  lemma LaidFieldsStep(m: Members, fmt: bool, depth: nat)
    requires m.Member? && depth > 0
    ensures LaidFields(m, fmt, depth) ==
            OneField(
              if fmt then NewLine(depth) else [], Escape(m.key, []), m.key, [], if fmt then [0x09] else [],
              Laid(m.value, fmt, depth), if fmt && m.next.NoMember? then NewLine(depth - 1) else [],
              LaidFields(m.next, fmt, depth))
    ensures m.next.NoMember? <==> LaidFields(m.next, fmt, depth).NoField?
  {
    hide Laid, NewLine, Escape;
  }

  lemma {:induction false} MembersAreLaid(m: Members, fmt: bool, depth: nat, rest: bytes)
    requires m.Member? && depth > 0
    ensures Line(fmt) + RenderMembers(m, fmt, depth, Indent(fmt, depth - 1) + ([RBRACE] + rest)) ==
            SpellFields(LaidFields(m, fmt, depth), [RBRACE] + rest)
    decreases m, 0
  {
    hide Render, RenderMembers, Spell, SpellFields, Laid, LaidFields, Quoted, InQuotes, Indent, NewLine, Line;
    hide KeyGap, MemberEnd;
    var laid, close := LaidFields(m, fmt, depth), Indent(fmt, depth - 1) + ([RBRACE] + rest);
    var tail := RenderMembers(m.next, fmt, depth, close);
    var after := MemberEnd(fmt, m.next.Member?) + tail;
    RenderMembersStep(m, fmt, depth, close);
    LaidFieldsStep(m, fmt, depth);
    SpellFieldsStep(laid, [RBRACE] + rest);
    if m.next.NoMember? {
      LastEnds(fmt, depth, rest);
    } else {
      MembersAreLaid(m.next, fmt, depth, rest);
      MoreFollow(fmt, tail);
    }
    RenderIsLaid(m.value, fmt, depth, after);
    MemberLaid(m.key, fmt, depth, Render(m.value, fmt, depth, after));
  }

  /** The last member ends in the line of the closing brace. */
  lemma LastEnds(fmt: bool, depth: nat, rest: bytes)
    requires depth > 0
    ensures MemberEnd(fmt, false) + (Indent(fmt, depth - 1) + ([RBRACE] + rest)) ==
            (if fmt then NewLine(depth - 1) else []) + ([RBRACE] + rest)
  {
    assert (if fmt then [LF] else []) + Indent(fmt, depth - 1) == if fmt then NewLine(depth - 1) else [];
  }

  lemma MoreFollow(fmt: bool, tail: bytes)
    ensures MemberEnd(fmt, true) + tail == [] + ([COMMA] + (Line(fmt) + tail))
  {
  }

  /** Line, key, colon and what follows it. */
  lemma MemberLaid(key: bytes, fmt: bool, depth: nat, value: bytes)
    ensures Line(fmt) + (Indent(fmt, depth) + Quoted(key, KeyGap(fmt) + value)) ==
            (if fmt then NewLine(depth) else [])
            + InQuotes(Escape(key, []), [] + ([COLON] + ((if fmt then [0x09] else []) + value)))
  {
    hide Escape, Indent, NewLine, Line;
    var tail := KeyGap(fmt) + value;
    EscapeThen(key, [QUOTE] + tail);
    assert tail == [] + ([COLON] + ((if fmt then [0x09] else []) + value));
    LinesAre(fmt, depth);
    assert Line(fmt) + (Indent(fmt, depth) + Quoted(key, tail)) == (Line(fmt) + Indent(fmt, depth)) + Quoted(key, tail);
  }

  // ----- it is a JSON text of the tree -----

  lemma {:induction false} LaidValue(v: Json, fmt: bool, depth: nat)
    ensures ValueOf(Laid(v, fmt, depth)) == v
    decreases v
  {
    match v
    case Array(e) => LaidElements(e, fmt, depth + 1, []);
    case Object(m) => LaidMembers(m, fmt, depth + 1);
    case _ =>
  }

  lemma {:induction false} LaidElements(e: Elements, fmt: bool, depth: nat, before: bytes)
    ensures ValuesOf(LaidItems(e, fmt, depth, before)) == e
    decreases e
  {
    if e.NoElement? {
    } else {
      LaidValue(e.value, fmt, depth);
      LaidElements(e.next, fmt, depth, if fmt then [0x20] else []);
    }
  }

  lemma {:induction false} LaidMembers(m: Members, fmt: bool, depth: nat)
    requires depth > 0
    ensures MembersOf(LaidFields(m, fmt, depth)) == m
    decreases m
  {
    if m.NoMember? {
    } else {
      LaidValue(m.value, fmt, depth);
      LaidMembers(m.next, fmt, depth);
    }
  }

  lemma IntegerFigure(strtod: Strtod, n: int)
    requires Lawful(strtod) && Int32(n)
    ensures IsFigure(strtod, IntText(n), n)
  {
  }

  lemma PrintedLiteral(s: bytes)
    requires NoNul(s)
    ensures IsLiteral(Escape(s, []), s)
  {
    PrintedIsLiteral(s, []);
  }

  lemma NewLineWhite(depth: nat)
    ensures White(NewLine(depth)) && White([]) && White([0x20]) && White([0x09])
  {
  }

  lemma {:induction false} LaidProper(strtod: Strtod, v: Json, fmt: bool, depth: nat)
    requires Lawful(strtod) && Storable(v)
    ensures Proper(strtod, Laid(v, fmt, depth))
    decreases v
  {
    hide Lawful, IsFigure, IsLiteral, White, NewLine;
    NewLineWhite(depth);
    match v
    case Number(n) => IntegerFigure(strtod, n);
    case String(s) => PrintedLiteral(s);
    case Array(e) => LaidItemsProper(strtod, e, fmt, depth + 1, []);
    case Object(m) => LaidFieldsProper(strtod, m, fmt, depth + 1);
    case _ =>
  }

  lemma {:induction false} LaidItemsProper(strtod: Strtod, e: Elements, fmt: bool, depth: nat, before: bytes)
    requires Lawful(strtod) && StorableElements(e) && White(before)
    ensures ProperItems(strtod, LaidItems(e, fmt, depth, before))
    decreases e
  {
    hide Lawful, IsFigure, IsLiteral, White;
    NewLineWhite(0);
    if e.NoElement? {
    } else {
      LaidProper(strtod, e.value, fmt, depth);
      LaidItemsProper(strtod, e.next, fmt, depth, if fmt then [0x20] else []);
    }
  }

  lemma {:induction false} LaidFieldsProper(strtod: Strtod, m: Members, fmt: bool, depth: nat)
    requires Lawful(strtod) && StorableMembers(m) && depth > 0
    ensures ProperFields(strtod, LaidFields(m, fmt, depth))
    decreases m
  {
    hide Lawful, IsFigure, IsLiteral, White, NewLine;
    NewLineWhite(depth);
    NewLineWhite(depth - 1);
    if m.NoMember? {
    } else {
      PrintedLiteral(m.key);
      LaidProper(strtod, m.value, fmt, depth);
      LaidFieldsProper(strtod, m.next, fmt, depth);
    }
  }
}

/** When does minifying the formatted text give the unformatted text?  `minify_string` takes any
    backslash before a quote for an escaped quote, also the second byte of an escaped backslash. */
module MinifyPrinted {
  import opened Bytes
  import opened JsonValue
  import opened JsonText
  import opened Minify

  predicate EndsInBackslash(s: bytes) {
    s != [] && s[|s| - 1] == BACKSLASH
  }

  // ----- which trees -----

  /** No string and no key ends in a backslash. */
  predicate Clean(v: Json) {
    match v
    case String(s) => !EndsInBackslash(s)
    case Array(e) => CleanElements(e)
    case Object(m) => CleanMembers(m)
    case _ => true
  }

  predicate CleanElements(e: Elements) {
    e.Element? ==> Clean(e.value) && CleanElements(e.next)
  }

  predicate CleanMembers(m: Members) {
    m.Member? ==> !EndsInBackslash(m.key) && Clean(m.value) && CleanMembers(m.next)
  }

  /** No string or key ends in a backslash, except perhaps the string that closes the whole text:
      the tree itself, or the last element of arrays that are themselves last. */
  predicate CleanButLast(v: Json) {
    match v
    case String(_) => true
    case Array(e) => CleanButLastElement(e)
    case _ => Clean(v)
  }

  predicate CleanButLastElement(e: Elements) {
    match e
    case NoElement => true
    case Element(v, NoElement) => CleanButLast(v)
    case Element(v, next) => Clean(v) && CleanButLastElement(next)
  }

  // ----- strings -----

  /** Where minifying stands behind a printed string: outside, or still inside it. */
  function Behind(inside: bool, rest: bytes): bytes {
    if inside then MinifiedString(rest) else Minified(rest)
  }

  lemma {:induction false} CopyPlain(p: bytes, t: bytes)
    requires forall i :: 0 <= i < |p| ==> p[i] != QUOTE
    requires forall i :: 0 <= i < |p| ==> p[i] == BACKSLASH ==> i + 1 < |p|
    ensures MinifiedString(p + t) == p + MinifiedString(t)
  {
    if p == [] {
      assert p + t == t;
    } else {
      assert (p + t)[1..] == p[1..] + t;
      CopyPlain(p[1..], t);
    }
  }

  lemma EscapeStart(s: bytes, rest: bytes)
    requires s != []
    ensures var t := Escape(s, rest); t != [] && t[0] != QUOTE
  {
  }

  /** The two bytes that need care are escaped by a backslash; every other escape is plain. */
  lemma EscapeByteShape(c: byte)
    ensures c == QUOTE ==> EscapeByte(c) == [BACKSLASH, QUOTE]
    ensures c == BACKSLASH ==> EscapeByte(c) == [BACKSLASH, BACKSLASH]
    ensures c != QUOTE && c != BACKSLASH ==>
              var p := EscapeByte(c);
              forall i :: 0 <= i < |p| ==> p[i] != QUOTE && (p[i] == BACKSLASH ==> i + 1 < |p|)
  {
  }

  lemma MinifyEscapeByte(c: byte, t: bytes)
    requires t != [] && (c == BACKSLASH ==> t[0] != QUOTE)
    ensures MinifiedString(EscapeByte(c) + t) == EscapeByte(c) + MinifiedString(t)
  {
    hide EscapeByte;
    EscapeByteShape(c);
    hide MinifiedString;
    if c == QUOTE {
      CopyEscapedQuote(t);
    } else if c == BACKSLASH {
      assert [BACKSLASH, BACKSLASH] + t == [BACKSLASH] + ([BACKSLASH] + t);
      CopyBackslash([BACKSLASH] + t);
      CopyBackslash(t);
      assert [BACKSLASH] + ([BACKSLASH] + MinifiedString(t)) == [BACKSLASH, BACKSLASH] + MinifiedString(t);
    } else {
      CopyPlain(EscapeByte(c), t);
    }
  }

  lemma CopyEscapedQuote(t: bytes)
    ensures MinifiedString([BACKSLASH, QUOTE] + t) == [BACKSLASH, QUOTE] + MinifiedString(t)
  {
    assert ([BACKSLASH, QUOTE] + t)[2..] == t;
  }

  lemma CopyBackslash(t: bytes)
    requires t != [] && t[0] != QUOTE
    ensures MinifiedString([BACKSLASH] + t) == [BACKSLASH] + MinifiedString(t)
  {
  }

  lemma MinifyLastBackslash(rest: bytes)
    ensures MinifiedString([BACKSLASH, BACKSLASH] + ([QUOTE] + rest)) ==
            [BACKSLASH, BACKSLASH] + ([QUOTE] + MinifiedString(rest))
  {
    var t := [BACKSLASH, BACKSLASH] + ([QUOTE] + rest);
    assert t[1..] == [BACKSLASH, QUOTE] + rest;
    assert ([BACKSLASH, QUOTE] + rest)[2..] == rest;
    assert MinifiedString(t) == [BACKSLASH] + ([BACKSLASH, QUOTE] + MinifiedString(rest));
  }

  /** Inside a string, escapes are copied; only a final backslash hides the closing quote. */
  lemma {:induction false} MinifyEscape(s: bytes, rest: bytes)
    ensures MinifiedString(Escape(s, [QUOTE] + rest)) ==
            Escape(s, [QUOTE] + Behind(EndsInBackslash(s), rest))
  {
    hide MinifiedString, Minified, EscapeByte;
    if s == [] {
      CloseString(rest);
    } else if s == [BACKSLASH] {
      EscapeByteShape(BACKSLASH);
      MinifyLastBackslash(rest);
    } else {
      MinifyEscape(s[1..], rest);
      if |s| > 1 {
        EscapeStart(s[1..], [QUOTE] + rest);
      }
      MinifyEscapeByte(s[0], Escape(s[1..], [QUOTE] + rest));
    }
  }

  lemma CloseString(rest: bytes)
    ensures MinifiedString([QUOTE] + rest) == [QUOTE] + Minified(rest)
  {
  }

  lemma MinifyQuoted(s: bytes, rest: bytes)
    ensures Minified(Quoted(s, rest)) == Quoted(s, Behind(EndsInBackslash(s), rest))
  {
    hide MinifiedString, Escape, Behind;
    MinifyEscape(s, rest);
    assert Quoted(s, rest)[1..] == Escape(s, [QUOTE] + rest);
  }

  // ----- tokens outside strings -----

  /** A byte that `cJSON_Minify` copies outside strings. */
  predicate Copied(c: byte) {
    !Dropped(c) && c != SLASH && c != QUOTE
  }

  lemma {:induction false} MinifyCopied(p: bytes, t: bytes)
    requires forall i :: 0 <= i < |p| ==> Copied(p[i])
    ensures Minified(p + t) == p + Minified(t)
  {
    if p == [] {
      assert p + t == t;
    } else {
      assert (p + t)[1..] == p[1..] + t;
      MinifyCopied(p[1..], t);
    }
  }

  lemma {:induction false} MinifyDropped(p: bytes, t: bytes)
    requires forall i :: 0 <= i < |p| ==> Dropped(p[i])
    ensures Minified(p + t) == Minified(t)
  {
    if p == [] {
      assert p + t == t;
    } else {
      assert (p + t)[1..] == p[1..] + t;
      MinifyDropped(p[1..], t);
    }
  }

  lemma MinifyElementGap(t: bytes)
    ensures Minified(ElementGap(true) + t) == ElementGap(false) + Minified(t)
  {
  }

  lemma MinifyKeyGap(t: bytes)
    ensures Minified(KeyGap(true) + t) == KeyGap(false) + Minified(t)
  {
  }

  lemma MinifyOpenObject(t: bytes)
    ensures Minified(OpenObject(true) + t) == OpenObject(false) + Minified(t)
  {
  }

  lemma MinifyMemberEnd(more: bool, t: bytes)
    ensures Minified(MemberEnd(true, more) + t) == MemberEnd(false, more) + Minified(t)
  {
  }

  lemma MinifyIndent(depth: nat, t: bytes)
    ensures Minified(Indent(true, depth) + t) == Indent(false, depth) + Minified(t)
  {
    MinifyDropped(Tabs(depth), t);
    assert Indent(false, depth) + Minified(t) == Minified(t);
  }

  // ----- clean trees -----

  lemma {:induction false} MinifyClean(v: Json, depth: nat, rest: bytes)
    requires Clean(v)
    ensures Minified(Render(v, true, depth, rest)) == Render(v, false, depth, Minified(rest))
    decreases v
  {
    hide Minified, MinifiedString, Escape, Digits, Indent, OpenObject;
    match v
    case Null => MinifyCopied(NULL_TEXT, rest);
    case False => MinifyCopied(FALSE_TEXT, rest);
    case True => MinifyCopied(TRUE_TEXT, rest);
    case Number(n) => MinifyCopied(IntText(n), rest);
    case String(s) => MinifyQuoted(s, rest);
    case Array(e) =>
      MinifyCopied([LBRACKET], RenderElements(e, true, depth + 1, [RBRACKET] + rest));
      MinifyCleanElements(e, depth + 1, [RBRACKET] + rest);
      MinifyCopied([RBRACKET], rest);
    case Object(m) =>
      var close := Indent(true, depth) + ([RBRACE] + rest);
      MinifyOpenObject(RenderMembers(m, true, depth + 1, close));
      MinifyCleanMembers(m, depth + 1, close);
      MinifyIndent(depth, [RBRACE] + rest);
      MinifyCopied([RBRACE], rest);
  }

  lemma {:induction false} MinifyCleanElements(e: Elements, depth: nat, rest: bytes)
    requires CleanElements(e)
    ensures Minified(RenderElements(e, true, depth, rest)) == RenderElements(e, false, depth, Minified(rest))
    decreases e
  {
    hide Minified, Render, ElementGap;
    match e
    case NoElement =>
    case Element(v, NoElement) => MinifyClean(v, depth, rest);
    case Element(v, next) =>
      var tail := RenderElements(next, true, depth, rest);
      MinifyClean(v, depth, ElementGap(true) + tail);
      MinifyElementGap(tail);
      MinifyCleanElements(next, depth, rest);
  }

  lemma {:induction false} MinifyCleanMembers(m: Members, depth: nat, rest: bytes)
    requires CleanMembers(m)
    ensures Minified(RenderMembers(m, true, depth, rest)) == RenderMembers(m, false, depth, Minified(rest))
    decreases m
  {
    hide Minified, Render, KeyGap, MemberEnd, Quoted, Indent, EndsInBackslash;
    if m.NoMember? {
    } else {
      var tail := RenderMembers(m.next, true, depth, rest);
      var value := Render(m.value, true, depth, MemberEnd(true, m.next.Member?) + tail);
      MinifyIndent(depth, Quoted(m.key, KeyGap(true) + value));
      MinifyQuoted(m.key, KeyGap(true) + value);
      MinifyKeyGap(value);
      MinifyClean(m.value, depth, MemberEnd(true, m.next.Member?) + tail);
      MinifyMemberEnd(m.next.Member?, tail);
      MinifyCleanMembers(m.next, depth, rest);
    }
  }

  // ----- a last string that ends in a backslash -----

  lemma InsideCopied(c: byte, rest: bytes)
    requires c != QUOTE && c != BACKSLASH
    ensures MinifiedString([c] + rest) == [c] + MinifiedString(rest)
  {
  }

  /** When only the closing string ends in a backslash, minifying goes well up to the end of the text
      and leaves it inside that string. */
  lemma {:induction false} MinifyLastDirty(v: Json, depth: nat, rest: bytes)
    requires CleanButLast(v) && !Clean(v)
    ensures Minified(Render(v, true, depth, rest)) == Render(v, false, depth, MinifiedString(rest))
    decreases v
  {
    hide Minified, MinifiedString, Escape, CleanElements;
    match v
    case String(s) => MinifyQuoted(s, rest);
    case Array(e) =>
      MinifyCopied([LBRACKET], RenderElements(e, true, depth + 1, [RBRACKET] + rest));
      MinifyLastDirtyElement(e, depth + 1, [RBRACKET] + rest);
      InsideCopied(RBRACKET, rest);
    case _ =>
  }

  lemma {:induction false} MinifyLastDirtyElement(e: Elements, depth: nat, rest: bytes)
    requires CleanButLastElement(e) && !CleanElements(e)
    ensures Minified(RenderElements(e, true, depth, rest)) ==
            RenderElements(e, false, depth, MinifiedString(rest))
    decreases e
  {
    hide Minified, MinifiedString, Render, ElementGap, Clean, CleanButLast;
    match e
    case Element(v, NoElement) => MinifyLastDirty(v, depth, rest);
    case Element(v, next) =>
      var tail := RenderElements(next, true, depth, rest);
      MinifyClean(v, depth, ElementGap(true) + tail);
      MinifyElementGap(tail);
      MinifyLastDirtyElement(next, depth, rest);
  }

  // ----- anything else goes wrong -----

  /** The two texts differ at a position they both have. */
  ghost predicate Differ(a: bytes, b: bytes) {
    exists k :: 0 <= k < |a| && k < |b| && a[k] != b[k]
  }

  lemma DifferBehind(p: bytes, a: bytes, b: bytes)
    requires Differ(a, b)
    ensures Differ(p + a, p + b)
  {
    var k :| 0 <= k < |a| && k < |b| && a[k] != b[k];
    assert (p + a)[|p| + k] != (p + b)[|p| + k];
  }

  lemma DifferFirst(a: bytes, b: bytes)
    requires a != [] && b != [] && a[0] != b[0]
    ensures Differ(a, b)
  {
  }

  lemma RenderDiffer(v: Json, depth: nat, a: bytes, b: bytes)
    requires Differ(a, b)
    ensures Differ(Render(v, false, depth, a), Render(v, false, depth, b))
  {
    hide Render, Differ, Text;
    RenderThen(v, false, depth, a);
    RenderThen(v, false, depth, b);
    DifferBehind(Text(v, false, depth), a, b);
  }

  lemma QuotedDiffer(s: bytes, a: bytes, b: bytes)
    requires Differ(a, b)
    ensures Differ(Quoted(s, a), Quoted(s, b))
  {
    hide Quoted, Differ;
    QuotedThen(s, a);
    QuotedThen(s, b);
    DifferBehind(Quoted(s, []), a, b);
  }

  /** A blank left standing where the unformatted text goes on at once. */
  lemma BlankStays(c: byte, blank: byte, t: bytes, u: bytes)
    requires Copied(c) && c != BACKSLASH && Dropped(blank) && u != [] && !Dropped(u[0])
    ensures Differ(MinifiedString([c, blank] + t), [c] + u)
  {
    hide MinifiedString, Differ;
    assert [c, blank] + t == [c] + ([blank] + t);
    InsideCopied(c, [blank] + t);
    InsideCopied(blank, t);
    DifferFirst([blank] + MinifiedString(t), u);
    DifferBehind([c], [blank] + MinifiedString(t), u);
  }

  lemma RenderSolid(v: Json, depth: nat, rest: bytes)
    ensures var t := Render(v, false, depth, rest); t != [] && !Dropped(t[0])
  {
  }

  lemma ElementsSolid(e: Elements, depth: nat, rest: bytes)
    requires e.Element?
    ensures var t := RenderElements(e, false, depth, rest); t != [] && !Dropped(t[0])
  {
  }

  lemma MembersSolid(m: Members, depth: nat, rest: bytes)
    requires m.Member?
    ensures var t := RenderMembers(m, false, depth, rest); t != [] && !Dropped(t[0])
  {
  }

  lemma {:induction false} DirtyDiffers(v: Json, depth: nat, rest: bytes, rest': bytes)
    requires !CleanButLast(v)
    ensures Differ(Minified(Render(v, true, depth, rest)), Render(v, false, depth, rest'))
    decreases v
  {
    hide Minified, Differ, Indent, OpenObject, CleanButLastElement, CleanMembers;
    match v
    case Array(e) =>
      var t := RenderElements(e, true, depth + 1, [RBRACKET] + rest);
      MinifyCopied([LBRACKET], t);
      DirtyElementsDiffer(e, depth + 1, [RBRACKET] + rest, [RBRACKET] + rest');
      DifferBehind([LBRACKET], Minified(t), RenderElements(e, false, depth + 1, [RBRACKET] + rest'));
    case Object(m) =>
      var close, close' := Indent(true, depth) + ([RBRACE] + rest), Indent(false, depth) + ([RBRACE] + rest');
      var t := RenderMembers(m, true, depth + 1, close);
      NoIndent(depth, [RBRACE] + rest');
      MinifyOpenObject(t);
      DirtyMembersDiffer(m, depth + 1, close, close');
      DifferBehind(OpenObject(false), Minified(t), RenderMembers(m, false, depth + 1, close'));
    case _ =>
  }

  lemma NoIndent(depth: nat, t: bytes)
    ensures Indent(false, depth) + t == t
  {
  }

  lemma {:induction false} DirtyElementsDiffer(e: Elements, depth: nat, rest: bytes, rest': bytes)
    requires !CleanButLastElement(e)
    ensures Differ(Minified(RenderElements(e, true, depth, rest)), RenderElements(e, false, depth, rest'))
    decreases e
  {
    hide Minified, MinifiedString, Differ, Render, Clean, CleanButLast;
    match e
    case Element(v, NoElement) => DirtyDiffers(v, depth, rest, rest');
    case Element(v, next) =>
      var t, t' := RenderElements(next, true, depth, rest), RenderElements(next, false, depth, rest');
      if !CleanButLast(v) {
        DirtyDiffers(v, depth, ElementGap(true) + t, ElementGap(false) + t');
      } else if Clean(v) {
        MinifyClean(v, depth, ElementGap(true) + t);
        MinifyElementGap(t);
        DirtyElementsDiffer(next, depth, rest, rest');
        DifferBehind(ElementGap(false), Minified(t), t');
        RenderDiffer(v, depth, ElementGap(false) + Minified(t), ElementGap(false) + t');
      } else {
        MinifyLastDirty(v, depth, ElementGap(true) + t);
        ElementsSolid(next, depth, rest');
        BlankStays(COMMA, SPACE, t, t');
        RenderDiffer(v, depth, MinifiedString(ElementGap(true) + t), ElementGap(false) + t');
      }
  }

  /** The value of a member, or what follows it, is misread. */
  lemma {:induction false} DirtyValueDiffers(m: Members, depth: nat, rest: bytes, rest': bytes)
    requires m.Member? && !(Clean(m.value) && CleanMembers(m.next))
    requires rest' != [] && !Dropped(rest'[0])
    ensures var more := m.next.Member?;
            Differ(
              Minified(Render(m.value, true, depth, MemberEnd(true, more) + RenderMembers(m.next, true, depth, rest))),
              Render(m.value, false, depth, MemberEnd(false, more) + RenderMembers(m.next, false, depth, rest')))
    decreases m, 0
  {
    hide Minified, MinifiedString, Differ, Render, Clean, CleanButLast, MemberEnd, RenderMembers;
    var v, more := m.value, m.next.Member?;
    var t, t' := RenderMembers(m.next, true, depth, rest), RenderMembers(m.next, false, depth, rest');
    if !CleanButLast(v) {
      DirtyDiffers(v, depth, MemberEnd(true, more) + t, MemberEnd(false, more) + t');
    } else if Clean(v) {
      MinifyClean(v, depth, MemberEnd(true, more) + t);
      MinifyMemberEnd(more, t);
      DirtyMembersDiffer(m.next, depth, rest, rest');
      DifferBehind(MemberEnd(false, more), Minified(t), t');
      RenderDiffer(v, depth, MemberEnd(false, more) + Minified(t), MemberEnd(false, more) + t');
    } else {
      MinifyLastDirty(v, depth, MemberEnd(true, more) + t);
      LineStays(m.next, depth, rest', t);
      RenderDiffer(v, depth, MinifiedString(MemberEnd(true, more) + t), MemberEnd(false, more) + t');
    }
  }

  lemma LineStays(m: Members, depth: nat, rest': bytes, t: bytes)
    requires rest' != [] && !Dropped(rest'[0])
    ensures var more := m.Member?;
            Differ(MinifiedString(MemberEnd(true, more) + t),
                   MemberEnd(false, more) + RenderMembers(m, false, depth, rest'))
  {
    hide MinifiedString, Differ, Render, Quoted;
    var t' := RenderMembers(m, false, depth, rest');
    if m.Member? {
      MembersSolid(m, depth, rest');
      assert MemberEnd(true, true) == [COMMA, LF] && MemberEnd(false, true) == [COMMA];
      BlankStays(COMMA, LF, t, t');
    } else {
      InsideCopied(LF, t);
      assert MemberEnd(true, false) == [LF];
      assert MemberEnd(false, false) + t' == t' == rest';
      DifferFirst([LF] + MinifiedString(t), t');
    }
  }

  lemma {:induction false} DirtyMembersDiffer(m: Members, depth: nat, rest: bytes, rest': bytes)
    requires !CleanMembers(m) && rest' != [] && !Dropped(rest'[0])
    ensures Differ(Minified(RenderMembers(m, true, depth, rest)), RenderMembers(m, false, depth, rest'))
    decreases m, 1
  {
    hide Minified, MinifiedString, Differ, Render, Clean, Quoted, Indent, MemberEnd, EndsInBackslash, CleanMembers;
    assert m.Member? && (EndsInBackslash(m.key) || !(Clean(m.value) && CleanMembers(m.next))) by {
      DirtyMember(m);
    }
    var more := m.next.Member?;
    var t := Render(m.value, true, depth, MemberEnd(true, more) + RenderMembers(m.next, true, depth, rest));
    var t' := Render(m.value, false, depth, MemberEnd(false, more) + RenderMembers(m.next, false, depth, rest'));
    MinifyIndent(depth, Quoted(m.key, KeyGap(true) + t));
    MinifyQuoted(m.key, KeyGap(true) + t);
    if EndsInBackslash(m.key) {
      RenderSolid(m.value, depth, MemberEnd(false, more) + RenderMembers(m.next, false, depth, rest'));
      BlankStays(COLON, TAB, t, t');
      QuotedDiffer(m.key, MinifiedString(KeyGap(true) + t), KeyGap(false) + t');
    } else {
      DirtyValueDiffers(m, depth, rest, rest');
      MinifyKeyGap(t);
      DifferBehind(KeyGap(false), Minified(t), t');
      QuotedDiffer(m.key, KeyGap(false) + Minified(t), KeyGap(false) + t');
    }
    NoIndent(depth, Minified(Quoted(m.key, KeyGap(true) + t)));
    NoIndent(depth, Quoted(m.key, KeyGap(false) + t'));
  }

  lemma DirtyMember(m: Members)
    requires !CleanMembers(m)
    ensures m.Member? && (EndsInBackslash(m.key) || !(Clean(m.value) && CleanMembers(m.next)))
  {
  }

  // ----- the exact condition -----

  /** Minifying the formatted text gives the unformatted text exactly when no string or key ends in a
      backslash, save possibly the string whose quote ends the text. */
  lemma {:induction false} MinifyGivesUnformatted(v: Json)
    ensures Minified(Text(v, true, 0)) == Text(v, false, 0) <==> CleanButLast(v)
  {
    hide Minified, MinifiedString, Render, Clean, CleanButLast;
    if Clean(v) {
      MinifyClean(v, 0, []);
      EmptyMinified();
      CleanIsCleanButLast(v);
    } else if CleanButLast(v) {
      MinifyLastDirty(v, 0, []);
      EmptyMinified();
    } else {
      DirtyDiffers(v, 0, [], []);
    }
  }

  lemma {:induction false} CleanIsCleanButLast(v: Json)
    requires Clean(v)
    ensures CleanButLast(v)
  {
    if v.Array? {
      CleanElementsButLast(v.elements);
    }
  }

  lemma {:induction false} CleanElementsButLast(e: Elements)
    requires CleanElements(e)
    ensures CleanButLastElement(e)
  {
    match e
    case NoElement =>
    case Element(v, NoElement) => CleanIsCleanButLast(v);
    case Element(v, next) => CleanElementsButLast(next);
  }

  /** The smallest kind of failure: the list of a backslash and null keeps the blank after its comma. */
  lemma MinifyMisreadsBackslash()
    ensures var v := Array(Element(String([BACKSLASH]), Element(Null, NoElement)));
            Minified(Text(v, true, 0)) != Text(v, false, 0)
  {
    var v := Array(Element(String([BACKSLASH]), Element(Null, NoElement)));
    MinifyGivesUnformatted(v);
    assert !Clean(String([BACKSLASH]));
  }
}

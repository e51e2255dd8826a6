/** The text both cJSON printers produce, as a pure function. */
module JsonText {
  import opened Bytes
  import opened JsonValue

  const NULL_TEXT: bytes := [0x6e, 0x75, 0x6c, 0x6c]
  const FALSE_TEXT: bytes := [0x66, 0x61, 0x6c, 0x73, 0x65]
  const TRUE_TEXT: bytes := [0x74, 0x72, 0x75, 0x65]

  // ----- numbers: the "%d" conversion -----

  function Digits(n: nat): (r: bytes)
    ensures |r| > 0
    ensures forall i :: 0 <= i < |r| ==> 0x30 <= r[i] <= 0x39
  {
    if n < 10 then [0x30 + n] else Digits(n / 10) + [0x30 + n % 10]
  }

  function IntText(n: int): (r: bytes)
    ensures |r| > 0
    ensures r[0] == MINUS || 0x30 <= r[0] <= 0x39
    ensures forall i :: 0 <= i < |r| ==> r[i] == MINUS || 0x30 <= r[i] <= 0x39
  {
    if n < 0 then [MINUS] + Digits(-n) else Digits(n)
  }

  // ----- strings -----

  function HexDigit(n: nat): byte
    requires n < 16
  {
    if n < 10 then 0x30 + n else 0x61 + n - 10
  }

  /** One byte of a string as `print_string_ptr` writes it. */
  function EscapeByte(c: byte): (r: bytes)
    ensures |r| > 0 && r[0] >= 0x20
    ensures NoNul(r)
  {
    match c
    case 0x22 => [BACKSLASH, QUOTE]
    case 0x5c => [BACKSLASH, BACKSLASH]
    case 0x08 => [BACKSLASH, 0x62]
    case 0x0c => [BACKSLASH, 0x66]
    case 0x0a => [BACKSLASH, 0x6e]
    case 0x0d => [BACKSLASH, 0x72]
    case 0x09 => [BACKSLASH, 0x74]
    case _ =>
      if c < 32 then [BACKSLASH, 0x75, 0x30, 0x30, HexDigit(c / 16), HexDigit(c % 16)] else [c]
  }

  /** The escaped bytes of `s`, followed by `rest`. */
  function Escape(s: bytes, rest: bytes): bytes {
    if s == [] then rest else EscapeByte(s[0]) + Escape(s[1..], rest)
  }

  function Quoted(s: bytes, rest: bytes): bytes {
    [QUOTE] + Escape(s, [QUOTE] + rest)
  }

  // ----- layout -----

  function Tabs(n: nat): (r: bytes)
    ensures |r| == n
    ensures forall i :: 0 <= i < n ==> r[i] == TAB
  {
    seq(n, _ => TAB)
  }

  function Indent(fmt: bool, depth: nat): bytes {
    if fmt then Tabs(depth) else []
  }

  function OpenObject(fmt: bool): bytes {
    if fmt then [LBRACE, LF] else [LBRACE]
  }

  function ElementGap(fmt: bool): bytes {
    if fmt then [COMMA, SPACE] else [COMMA]
  }

  function KeyGap(fmt: bool): bytes {
    if fmt then [COLON, TAB] else [COLON]
  }

  function MemberEnd(fmt: bool, more: bool): bytes {
    (if more then [COMMA] else []) + (if fmt then [LF] else [])
  }

  // ----- values -----

  /** The text of `v` printed at nesting `depth`, followed by `rest`. */
  function Render(v: Json, fmt: bool, depth: nat, rest: bytes): bytes
    decreases v
  {
    match v
    case Null => NULL_TEXT + rest
    case False => FALSE_TEXT + rest
    case True => TRUE_TEXT + rest
    case Number(n) => IntText(n) + rest
    case String(s) => Quoted(s, rest)
    case Array(e) => [LBRACKET] + RenderElements(e, fmt, depth + 1, [RBRACKET] + rest)
    case Object(m) =>
      OpenObject(fmt) + RenderMembers(m, fmt, depth + 1, Indent(fmt, depth) + ([RBRACE] + rest))
  }

  function RenderElements(e: Elements, fmt: bool, depth: nat, rest: bytes): bytes
    decreases e
  {
    match e
    case NoElement => rest
    case Element(v, NoElement) => Render(v, fmt, depth, rest)
    case Element(v, next) =>
      Render(v, fmt, depth, ElementGap(fmt) + RenderElements(next, fmt, depth, rest))
  }

  function RenderMembers(m: Members, fmt: bool, depth: nat, rest: bytes): bytes
    decreases m
  {
    match m
    case NoMember => rest
    case Member(k, v, next) =>
      Indent(fmt, depth) +
      Quoted(k, KeyGap(fmt) +
        Render(v, fmt, depth, MemberEnd(fmt, next.Member?) + RenderMembers(next, fmt, depth, rest)))
  }

  /** The text of `v` on its own. */
  function Text(v: Json, fmt: bool, depth: nat): bytes {
    Render(v, fmt, depth, [])
  }

  function ElementsText(e: Elements, fmt: bool, depth: nat): bytes {
    RenderElements(e, fmt, depth, [])
  }

  function MembersText(m: Members, fmt: bool, depth: nat): bytes {
    RenderMembers(m, fmt, depth, [])
  }

  // ----- what follows a text does not change it -----

  lemma {:induction false} EscapeThen(s: bytes, rest: bytes)
    ensures Escape(s, rest) == Escape(s, []) + rest
  {
    if s == [] {
    } else {
      hide EscapeByte;
      EscapeThen(s[1..], rest);
      var first, more := EscapeByte(s[0]), Escape(s[1..], []);
      assert first + (more + rest) == (first + more) + rest;
    }
  }

  lemma QuotedThen(s: bytes, rest: bytes)
    ensures Quoted(s, rest) == Quoted(s, []) + rest
  {
    EscapeThen(s, [QUOTE] + rest);
    EscapeThen(s, [QUOTE]);
    assert [QUOTE] + [] == [QUOTE];
  }

  lemma {:induction false} RenderThen(v: Json, fmt: bool, depth: nat, rest: bytes)
    ensures Render(v, fmt, depth, rest) == Text(v, fmt, depth) + rest
    decreases v
  {
    match v
    case String(s) => QuotedThen(s, rest);
    case Array(e) =>
      RenderElementsThen(e, fmt, depth + 1, [RBRACKET] + rest);
      RenderElementsThen(e, fmt, depth + 1, [RBRACKET] + []);
      Assoc3([LBRACKET], ElementsText(e, fmt, depth + 1), [RBRACKET], rest);
    case Object(m) =>
      var close := Indent(fmt, depth);
      RenderMembersThen(m, fmt, depth + 1, close + ([RBRACE] + rest));
      RenderMembersThen(m, fmt, depth + 1, close + ([RBRACE] + []));
      CloseThen(OpenObject(fmt), MembersText(m, fmt, depth + 1), close, rest);
    case _ =>
  }

  lemma CloseThen(open: bytes, members: bytes, close: bytes, rest: bytes)
    ensures open + (members + (close + ([RBRACE] + rest))) ==
            (open + (members + (close + ([RBRACE] + [])))) + rest
  {
    assert close + ([RBRACE] + rest) == (close + [RBRACE]) + rest;
    assert close + ([RBRACE] + []) == close + [RBRACE];
    Assoc3(open, members, close + [RBRACE], rest);
  }

  lemma Assoc3(a: bytes, b: bytes, c: bytes, d: bytes)
    ensures a + (b + (c + d)) == (a + (b + c)) + d
  {
  }

  lemma Assoc4(a: bytes, b: bytes, c: bytes, d: bytes, e: bytes)
    ensures a + (b + (c + (d + e))) == (a + (b + (c + d))) + e
  {
  }

  lemma {:induction false} RenderElementsThen(e: Elements, fmt: bool, depth: nat, rest: bytes)
    ensures RenderElements(e, fmt, depth, rest) == ElementsText(e, fmt, depth) + rest
    decreases e
  {
    match e
    case NoElement =>
    case Element(v, NoElement) => RenderThen(v, fmt, depth, rest);
    case Element(v, next) =>
      RenderElementsThen(next, fmt, depth, rest);
      var gap := ElementGap(fmt);
      var tail := ElementsText(next, fmt, depth);
      RenderThen(v, fmt, depth, gap + (tail + rest));
      RenderThen(v, fmt, depth, gap + tail);
  }

  lemma {:induction false} RenderMembersThen(m: Members, fmt: bool, depth: nat, rest: bytes)
    ensures RenderMembers(m, fmt, depth, rest) == MembersText(m, fmt, depth) + rest
    decreases m
  {
    match m
    case NoMember =>
    case Member(k, v, next) =>
      RenderMembersThen(next, fmt, depth, rest);
      var end := MemberEnd(fmt, next.Member?);
      var tail := MembersText(next, fmt, depth);
      RenderThen(v, fmt, depth, end + (tail + rest));
      RenderThen(v, fmt, depth, end + tail);
      var value := Text(v, fmt, depth);
      var key := Quoted(k, []);
      QuotedThen(k, KeyGap(fmt) + (value + (end + (tail + rest))));
      QuotedThen(k, KeyGap(fmt) + (value + (end + tail)));
      Assoc4(KeyGap(fmt), value, end, tail, rest);
      Assoc3(Indent(fmt, depth), key, KeyGap(fmt) + (value + (end + tail)), rest);
  }

  // ----- printed text holds no NUL -----

  lemma {:induction false} EscapeNoNul(s: bytes, rest: bytes)
    requires NoNul(rest)
    ensures NoNul(Escape(s, rest))
  {
    if s == [] {
    } else {
      EscapeNoNul(s[1..], rest);
    }
  }

  lemma {:induction false} RenderNoNul(v: Json, fmt: bool, depth: nat, rest: bytes)
    requires NoNul(rest)
    ensures NoNul(Render(v, fmt, depth, rest))
    decreases v
  {
    match v
    case String(s) => EscapeNoNul(s, [QUOTE] + rest);
    case Array(e) => RenderElementsNoNul(e, fmt, depth + 1, [RBRACKET] + rest);
    case Object(m) => RenderMembersNoNul(m, fmt, depth + 1, Indent(fmt, depth) + ([RBRACE] + rest));
    case _ =>
  }

  lemma {:induction false} RenderElementsNoNul(e: Elements, fmt: bool, depth: nat, rest: bytes)
    requires NoNul(rest)
    ensures NoNul(RenderElements(e, fmt, depth, rest))
    decreases e
  {
    match e
    case NoElement =>
    case Element(v, NoElement) => RenderNoNul(v, fmt, depth, rest);
    case Element(v, next) =>
      RenderElementsNoNul(next, fmt, depth, rest);
      RenderNoNul(v, fmt, depth, ElementGap(fmt) + RenderElements(next, fmt, depth, rest));
  }

  lemma {:induction false} RenderMembersNoNul(m: Members, fmt: bool, depth: nat, rest: bytes)
    requires NoNul(rest)
    ensures NoNul(RenderMembers(m, fmt, depth, rest))
    decreases m
  {
    match m
    case NoMember =>
    case Member(k, v, next) =>
      RenderMembersNoNul(next, fmt, depth, rest);
      var tail := MemberEnd(fmt, next.Member?) + RenderMembers(next, fmt, depth, rest);
      RenderNoNul(v, fmt, depth, tail);
      EscapeNoNul(k, [QUOTE] + (KeyGap(fmt) + Render(v, fmt, depth, tail)));
  }
}

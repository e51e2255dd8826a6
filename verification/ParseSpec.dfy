/** The recursive-descent parser of cJSON.c as functions of the input that is left. */
module ParseSpec {
  import opened Bytes
  import opened JsonValue
  import opened JsonText
  import opened StringLiteral

  const NESTING_LIMIT: nat := 1000

  /** What `strtod`, and the saturating conversion after it, make of the collected characters. */
  datatype NumberScan = NumberScan(consumed: nat, value: int)

  type Strtod = bytes -> NumberScan

  /** All the parser assumes of `strtod`: it stays inside its input, the stored integer has 32 bits,
      and a decimal 32-bit integer is read as itself. */
  ghost predicate Lawful(strtod: Strtod) {
    && (forall t: bytes {:trigger strtod(t)} :: strtod(t).consumed <= |t| && Int32(strtod(t).value))
    && (forall n: int {:trigger IntText(n)} :: Int32(n) ==> strtod(IntText(n)) == NumberScan(|IntText(n)|, n))
  }

  lemma LawfulScan(strtod: Strtod, t: bytes)
    requires Lawful(strtod)
    ensures strtod(t).consumed <= |t| && Int32(strtod(t).value)
  {
  }

  datatype Parsed<+T> = Fail | Parsed(value: T, rest: bytes)

  /** `buffer_skip_whitespace`: one byte is always left, because at the end it steps back. */
  function SkipWhitespace(t: bytes): (r: bytes)
    ensures |r| <= |t|
    ensures t != [] ==> r != []
  {
    if |t| > 1 && t[0] <= 32 then SkipWhitespace(t[1..]) else t
  }

  predicate NumberByte(c: byte) {
    0x30 <= c <= 0x39 || c == 0x2b || c == MINUS || c == 0x2e || c == 0x65 || c == 0x45
  }

  /** How many leading bytes `parse_number` collects. */
  function NumberRun(t: bytes): (n: nat)
    ensures n <= |t|
  {
    if t == [] || !NumberByte(t[0]) then 0 else 1 + NumberRun(t[1..])
  }

  /** `parse_number`; a lawful `strtod` never consumes more than it was given. */
  function ParseNumber(strtod: Strtod, t: bytes): (r: Parsed<Json>)
    ensures r.Parsed? ==> |r.rest| < |t|
  {
    var scan := strtod(t[..NumberRun(t)]);
    if scan.consumed == 0 || scan.consumed > NumberRun(t) then Fail
    else Parsed(Number(scan.value), t[scan.consumed..])
  }

  function ParseValue(strtod: Strtod, t: bytes, depth: nat): (r: Parsed<Json>)
    ensures r.Parsed? ==> |r.rest| < |t|
    decreases |t|, 2
  {
    if NULL_TEXT <= t then Parsed(Null, t[4..])
    else if FALSE_TEXT <= t then Parsed(False, t[5..])
    else if TRUE_TEXT <= t then Parsed(True, t[4..])
    else if t == [] then Fail
    else if t[0] == QUOTE then
      var literal := ParseLiteral(t);
      if literal.NoLiteral? then Fail else Parsed(String(literal.text), literal.rest)
    else if t[0] == MINUS || 0x30 <= t[0] <= 0x39 then ParseNumber(strtod, t)
    else if t[0] == LBRACKET then ParseArray(strtod, t, depth)
    else if t[0] == LBRACE then ParseObject(strtod, t, depth)
    else Fail
  }

  function ParseArray(strtod: Strtod, t: bytes, depth: nat): (r: Parsed<Json>)
    requires t != [] && t[0] == LBRACKET
    ensures r.Parsed? ==> |r.rest| < |t|
    decreases |t|, 1
  {
    var u := SkipWhitespace(t[1..]);
    if depth >= NESTING_LIMIT || u == [] then Fail
    else if u[0] == RBRACKET then Parsed(Array(NoElement), u[1..])
    else
      var elements := ParseElements(strtod, u, depth + 1);
      if elements.Fail? then Fail else Parsed(Array(elements.value), elements.rest)
  }

  /** The loop of `parse_array`, standing behind the bracket or a comma. */
  function ParseElements(strtod: Strtod, t: bytes, depth: nat): (r: Parsed<Elements>)
    ensures r.Parsed? ==> |r.rest| < |t|
    decreases |t|, 3
  {
    var v := ParseValue(strtod, SkipWhitespace(t), depth);
    if v.Fail? then Fail
    else
      var u := SkipWhitespace(v.rest);
      if u == [] then Fail
      else if u[0] == COMMA then
        var more := ParseElements(strtod, u[1..], depth);
        if more.Fail? then Fail else Parsed(Element(v.value, more.value), more.rest)
      else if u[0] == RBRACKET then Parsed(Element(v.value, NoElement), u[1..])
      else Fail
  }

  function ParseObject(strtod: Strtod, t: bytes, depth: nat): (r: Parsed<Json>)
    requires t != [] && t[0] == LBRACE
    ensures r.Parsed? ==> |r.rest| < |t|
    decreases |t|, 1
  {
    var u := SkipWhitespace(t[1..]);
    if depth >= NESTING_LIMIT || u == [] then Fail
    else if u[0] == RBRACE then Parsed(Object(NoMember), u[1..])
    else
      var members := ParseMembers(strtod, u, depth + 1);
      if members.Fail? then Fail else Parsed(Object(members.value), members.rest)
  }

  datatype Key = NoKey | Key(name: bytes, rest: bytes)

  /** The name of a member and its colon. */
  function ParseKey(t: bytes): (r: Key)
    ensures r.Key? ==> |r.rest| < |t|
  {
    var literal := ParseLiteral(SkipWhitespace(t));
    if literal.NoLiteral? then NoKey
    else
      var u := SkipWhitespace(literal.rest);
      if u == [] || u[0] != COLON then NoKey else Key(literal.text, u[1..])
  }

  /** The loop of `parse_object`, standing behind the brace or a comma. */
  function ParseMembers(strtod: Strtod, t: bytes, depth: nat): (r: Parsed<Members>)
    ensures r.Parsed? ==> |r.rest| < |t|
    decreases |t|, 3
  {
    var key := ParseKey(t);
    if key.NoKey? then Fail
    else
      var v := ParseValue(strtod, SkipWhitespace(key.rest), depth);
      if v.Fail? then Fail
      else
        var u := SkipWhitespace(v.rest);
        if u == [] then Fail
        else if u[0] == COMMA then
          var more := ParseMembers(strtod, u[1..], depth);
          if more.Fail? then Fail else Parsed(Member(key.name, v.value, more.value), more.rest)
        else if u[0] == RBRACE then Parsed(Member(key.name, v.value, NoMember), u[1..])
        else Fail
  }

  const BYTE_ORDER_MARK: bytes := [0xEF, 0xBB, 0xBF]

  function SkipByteOrderMark(t: bytes): bytes {
    if |t| > 4 && BYTE_ORDER_MARK <= t then t[3..] else t
  }

  /** `cJSON_ParseWithLengthOpts`. */
  function ParseDocument(strtod: Strtod, t: bytes, requireNul: bool): Option<Json> {
    if t == [] then None
    else
      var v := ParseValue(strtod, SkipWhitespace(SkipByteOrderMark(t)), 0);
      if v.Fail? then None
      else
        var u := SkipWhitespace(v.rest);
        if requireNul && (u == [] || u[0] != 0) then None else Some(v.value)
  }

  // ----- every accepted tree nests at most 1000 deep and fits the C structures -----

  /** Which parser a value goes to, by its first byte. */
  lemma ByFirstByte(strtod: Strtod, t: bytes, depth: nat)
    requires t != []
    ensures t[0] == QUOTE ==>
              ParseValue(strtod, t, depth) ==
              if ParseLiteral(t).NoLiteral? then Fail else Parsed(String(ParseLiteral(t).text), ParseLiteral(t).rest)
    ensures t[0] == MINUS || 0x30 <= t[0] <= 0x39 ==> ParseValue(strtod, t, depth) == ParseNumber(strtod, t)
    ensures t[0] == LBRACKET ==> ParseValue(strtod, t, depth) == ParseArray(strtod, t, depth)
    ensures t[0] == LBRACE ==> ParseValue(strtod, t, depth) == ParseObject(strtod, t, depth)
    ensures ParseValue(strtod, t, depth).Parsed? ==>
              t[0] in {QUOTE, MINUS, LBRACKET, LBRACE} || 0x30 <= t[0] <= 0x39
              || NULL_TEXT <= t || FALSE_TEXT <= t || TRUE_TEXT <= t
    ensures NULL_TEXT <= t || FALSE_TEXT <= t || TRUE_TEXT <= t ==>
              ParseValue(strtod, t, depth).Parsed? && ParseValue(strtod, t, depth).value in {Null, False, True}
  {
  }

  lemma NothingParses(strtod: Strtod, depth: nat)
    ensures ParseValue(strtod, [], depth).Fail?
  {
  }

  lemma NumberBounded(strtod: Strtod, t: bytes)
    requires Lawful(strtod) && ParseNumber(strtod, t).Parsed?
    ensures ParseNumber(strtod, t).value.Number? && Int32(ParseNumber(strtod, t).value.number)
  {
    LawfulScan(strtod, t[..NumberRun(t)]);
  }

  lemma {:induction false} ValueBounded(strtod: Strtod, t: bytes, depth: nat)
    requires Lawful(strtod) && depth <= NESTING_LIMIT && ParseValue(strtod, t, depth).Parsed?
    ensures depth + Nesting(ParseValue(strtod, t, depth).value) <= NESTING_LIMIT
    ensures Storable(ParseValue(strtod, t, depth).value)
    decreases |t|, 2
  {
    hide ParseValue, ParseLiteral, ParseNumber, ParseArray, ParseObject, Lawful;
    NothingParses(strtod, depth);
    ByFirstByte(strtod, t, depth);
    if t[0] == LBRACKET {
      ArrayBounded(strtod, t, depth);
    } else if t[0] == LBRACE {
      ObjectBounded(strtod, t, depth);
    } else if t[0] == MINUS || 0x30 <= t[0] <= 0x39 {
      NumberBounded(strtod, t);
    }
  }

  lemma {:induction false} ArrayBounded(strtod: Strtod, t: bytes, depth: nat)
    requires Lawful(strtod) && depth <= NESTING_LIMIT && t != [] && t[0] == LBRACKET
    requires ParseArray(strtod, t, depth).Parsed?
    ensures depth + Nesting(ParseArray(strtod, t, depth).value) <= NESTING_LIMIT
    ensures Storable(ParseArray(strtod, t, depth).value)
    decreases |t|, 1
  {
    hide SkipWhitespace, ParseElements, Lawful;
    var u := SkipWhitespace(t[1..]);
    if u[0] != RBRACKET {
      ElementsBounded(strtod, u, depth + 1);
    }
  }

  lemma {:induction false} ObjectBounded(strtod: Strtod, t: bytes, depth: nat)
    requires Lawful(strtod) && depth <= NESTING_LIMIT && t != [] && t[0] == LBRACE
    requires ParseObject(strtod, t, depth).Parsed?
    ensures depth + Nesting(ParseObject(strtod, t, depth).value) <= NESTING_LIMIT
    ensures Storable(ParseObject(strtod, t, depth).value)
    decreases |t|, 1
  {
    hide SkipWhitespace, ParseMembers, Lawful;
    var u := SkipWhitespace(t[1..]);
    if u[0] != RBRACE {
      MembersBounded(strtod, u, depth + 1);
    }
  }

  lemma {:induction false} ElementsBounded(strtod: Strtod, t: bytes, depth: nat)
    requires Lawful(strtod) && depth <= NESTING_LIMIT && ParseElements(strtod, t, depth).Parsed?
    ensures depth + NestingElements(ParseElements(strtod, t, depth).value) <= NESTING_LIMIT
    ensures StorableElements(ParseElements(strtod, t, depth).value)
    decreases |t|, 3
  {
    hide SkipWhitespace, ParseValue;
    var v := ParseValue(strtod, SkipWhitespace(t), depth);
    ValueBounded(strtod, SkipWhitespace(t), depth);
    var u := SkipWhitespace(v.rest);
    if u[0] == COMMA {
      ElementsBounded(strtod, u[1..], depth);
    }
  }

  lemma {:induction false} MembersBounded(strtod: Strtod, t: bytes, depth: nat)
    requires Lawful(strtod) && depth <= NESTING_LIMIT && ParseMembers(strtod, t, depth).Parsed?
    ensures depth + NestingMembers(ParseMembers(strtod, t, depth).value) <= NESTING_LIMIT
    ensures StorableMembers(ParseMembers(strtod, t, depth).value)
    decreases |t|, 3
  {
    hide SkipWhitespace, ParseValue, ParseLiteral;
    var key := ParseKey(t);
    var v := ParseValue(strtod, SkipWhitespace(key.rest), depth);
    ValueBounded(strtod, SkipWhitespace(key.rest), depth);
    var u := SkipWhitespace(v.rest);
    if u[0] == COMMA {
      MembersBounded(strtod, u[1..], depth);
    }
  }

  /** Whatever bytes come in, an accepted document nests at most 1000 deep and holds only 32-bit
      integers and NUL-free strings. */
  lemma AcceptedBounded(strtod: Strtod, t: bytes, requireNul: bool)
    requires Lawful(strtod) && ParseDocument(strtod, t, requireNul).Some?
    ensures Nesting(ParseDocument(strtod, t, requireNul).value) <= NESTING_LIMIT
    ensures Storable(ParseDocument(strtod, t, requireNul).value)
  {
    ValueBounded(strtod, SkipWhitespace(SkipByteOrderMark(t)), 0);
  }
}

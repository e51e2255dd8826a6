/** The parser of cJSON.c as it runs: a cursor and a nesting depth moved by mutually recursive
    procedures. `grants` answers the allocation requests. */
module Parser {
  import opened Bytes
  import opened JsonValue
  import opened JsonText
  import opened StringLiteral
  import opened ParseSpec
  import opened ChildList
  import opened Forest

  function AppendElement(e: Elements, v: Json): Elements {
    if e.NoElement? then Element(v, NoElement) else Element(e.value, AppendElement(e.next, v))
  }

  /** `e` followed by the outcome of parsing the rest of the list. */
  function ElementsThen(e: Elements, p: Parsed<Elements>): Parsed<Elements> {
    if p.Fail? || e.NoElement? then p
    else
      var q := ElementsThen(e.next, p);
      if q.Fail? then Fail else Parsed(Element(e.value, q.value), q.rest)
  }

  lemma {:induction false} AppendThen(e: Elements, v: Json, p: Parsed<Elements>)
    ensures ElementsThen(AppendElement(e, v), p) == ElementsThen(e, ElementsThen(Element(v, NoElement), p))
  {
    if e.NoElement? {
    } else {
      AppendThen(e.next, v, p);
    }
  }

  lemma {:induction false} AppendLast(e: Elements, v: Json, rest: bytes)
    ensures ElementsThen(e, Parsed(Element(v, NoElement), rest)) == Parsed(AppendElement(e, v), rest)
  {
    if e.NoElement? {
    } else {
      AppendLast(e.next, v, rest);
    }
  }

  function AppendMember(m: Members, key: bytes, v: Json): Members {
    if m.NoMember? then Member(key, v, NoMember) else Member(m.key, m.value, AppendMember(m.next, key, v))
  }

  function MembersThen(m: Members, p: Parsed<Members>): Parsed<Members> {
    if p.Fail? || m.NoMember? then p
    else
      var q := MembersThen(m.next, p);
      if q.Fail? then Fail else Parsed(Member(m.key, m.value, q.value), q.rest)
  }

  lemma {:induction false} AppendMemberThen(m: Members, key: bytes, v: Json, p: Parsed<Members>)
    ensures MembersThen(AppendMember(m, key, v), p) == MembersThen(m, MembersThen(Member(key, v, NoMember), p))
  {
    if m.NoMember? {
    } else {
      AppendMemberThen(m.next, key, v, p);
    }
  }

  lemma {:induction false} AppendLastMember(m: Members, key: bytes, v: Json, rest: bytes)
    ensures MembersThen(m, Parsed(Member(key, v, NoMember), rest)) == Parsed(AppendMember(m, key, v), rest)
  {
    if m.NoMember? {
    } else {
      AppendLastMember(m.next, key, v, rest);
    }
  }

  datatype Bracket = Refused | Empty | Inhabited

  class ParseBuffer {
    const content: bytes
    const strtod: Strtod
    const grants: Allocator
    var offset: nat
    var depth: nat
    var calls: nat

    ghost predicate Valid()
      reads this
    {
      offset <= |content|
    }

    /** The input that is left. */
    ghost function Rest(): bytes
      requires Valid()
      reads this
    {
      content[offset..]
    }

    constructor (text: bytes, numbers: Strtod, allocator: Allocator)
      ensures Valid() && offset == 0 && depth == 0
      ensures content == text && strtod == numbers && grants == allocator
    {
      content, strtod, grants, offset, depth, calls := text, numbers, allocator, 0, 0, 0;
    }

    method Allocate() returns (granted: bool)
      modifies `calls
      ensures NeverFails(grants) ==> granted
    {
      granted := grants(calls);
      calls := calls + 1;
    }

    /** `buffer_skip_whitespace`: it may step back over the last byte, yet never ends before it began. */
    method SkipBlanks()
      requires Valid()
      modifies `offset
      ensures Valid() && old(offset) <= offset
      ensures Rest() == SkipWhitespace(old(Rest()))
    {
      if offset >= |content| {
        return;
      }
      ghost var target := SkipWhitespace(content[offset..]);
      while offset < |content| && content[offset] <= 32
        invariant old(offset) <= offset <= |content|
        invariant offset < |content| ==> SkipWhitespace(content[offset..]) == target
        invariant offset == |content| ==> offset > old(offset) && target == content[offset - 1..]
      {
        assert content[offset..][1..] == content[offset + 1..];
        offset := offset + 1;
      }
      if offset == |content| {
        offset := offset - 1;
      }
    }

    /** The collecting loop of `parse_number`. */
    method CollectNumber() returns (n: nat)
      requires Valid()
      ensures n == NumberRun(content[offset..]) && offset + n <= |content|
    {
      n := 0;
      while offset + n < |content| && NumberByte(content[offset + n])
        invariant offset + n <= |content|
        invariant NumberRun(content[offset..]) == n + NumberRun(content[offset + n..])
      {
        assert content[offset + n..][1..] == content[offset + n + 1..];
        n := n + 1;
      }
    }

    /** `parse_number`. */
    method ParseNumberItem() returns (ok: bool, number: int)
      requires Valid() && Lawful(strtod)
      modifies `offset, `calls
      ensures Valid() && old(offset) <= offset
      ensures ok ==> ParseNumber(strtod, old(Rest())) == Parsed(Number(number), Rest())
      ensures !ok && NeverFails(grants) ==> ParseNumber(strtod, old(Rest())).Fail?
    {
      hide NumberRun, Lawful;
      var n := CollectNumber();
      number := 0;
      ok := Allocate();
      if !ok {
        return;
      }
      assert content[offset..][..n] == content[offset..offset + n];
      LawfulScan(strtod, content[offset..offset + n]);
      var scan := strtod(content[offset..offset + n]);
      if scan.consumed == 0 {
        return false, 0;
      }
      assert content[offset..][scan.consumed..] == content[offset + scan.consumed..];
      offset := offset + scan.consumed;
      number := scan.value;
    }

    /** `parse_string`: two passes over the literal, see `StringLiteral`. */
    method ParseStringItem() returns (ok: bool, text: bytes)
      requires Valid() && offset < |content|
      modifies `offset, `calls
      ensures Valid() && old(offset) <= offset
      ensures ok ==> ParseLiteral(old(Rest())) == Literal(text, Rest())
      ensures !ok && NeverFails(grants) ==> ParseLiteral(old(Rest())).NoLiteral?
    {
      hide CloseFrom, Decode, Escapes, Visited;
      ok, text := false, [];
      var start := offset + 1;
      var body := content[start..];
      assert content[offset..][0] == content[offset] && content[offset..][1..] == body;
      if content[offset] != QUOTE {
        offset := start;
        return;
      }
      var end, allocation := FindClose(body);
      if end.None? {
        offset := start;
        return;
      }
      var granted := Allocate();
      if !granted {
        offset := start;
        return;
      }
      var out, size, stop := DecodeInto(body, end.value, allocation);
      if out == null {
        offset := start + stop;
        return;
      }
      ok, text := true, CString(out[..size]);
      assert body[end.value + 1..] == content[start + end.value + 1..];
      offset := start + end.value + 1;
    }

    // ----- values -----

    /** `strncmp` with a literal at the cursor. */
    method Matches(literal: bytes) returns (yes: bool)
      requires Valid()
      ensures yes <==> literal <= Rest()
    {
      if offset + |literal| > |content| {
        return false;
      }
      yes := content[offset..offset + |literal|] == literal;
      assert content[offset..offset + |literal|] == Rest()[..|literal|];
    }

    /** `parse_value`: on success it has moved on, is at the depth it started from, and `item` is a tree
        of new items that represents the value. */
    method ParseItem(item: Item) returns (ok: bool)
      requires Valid() && Lawful(strtod) && Blank(item)
      modifies this, item`kind, item`number, item`text, item`child, item`kids, item`repr, item`model
      ensures Valid() && old(offset) <= offset
      ensures ok ==> item in item.repr && item.Tree() && fresh(item.repr - {item})
      ensures ok ==> ParseValue(strtod, old(Rest()), old(depth)) == Parsed(item.model, Rest())
      ensures ok ==> depth == old(depth) && old(offset) < offset
      ensures !ok && NeverFails(grants) ==> ParseValue(strtod, old(Rest()), old(depth)).Fail?
      decreases |content| - offset, 4
    {
      hide Lawful, ParseLiteral, ParseNumber, ParseArray, ParseObject, Item.Tree;
      var length: nat, kind, done := 0, KindNull, false;
      ghost var v := Null;
      ok := Matches(NULL_TEXT);
      if ok {
        length, done := 4, true;
      } else {
        ok := Matches(FALSE_TEXT);
        if ok {
          length, kind, v, done := 5, KindFalse, False, true;
        } else {
          ok := Matches(TRUE_TEXT);
          if ok {
            length, kind, v, done := 4, KindTrue, True, true;
          }
        }
      }
      if done {
        assert ParseValue(strtod, Rest(), depth) == Parsed(v, content[offset + length..]);
        SetLeaf(item, kind, item.number, item.text, v);
        offset := offset + length;
      } else if offset < |content| {
        ok := ParseByFirstByte(item);
      }
    }

    /** The part of `parse_value` that looks at one byte. */
    method ParseByFirstByte(item: Item) returns (ok: bool)
      requires Valid() && Lawful(strtod) && Blank(item) && offset < |content|
      requires !(NULL_TEXT <= Rest()) && !(FALSE_TEXT <= Rest()) && !(TRUE_TEXT <= Rest())
      modifies this, item`kind, item`number, item`text, item`child, item`kids, item`repr, item`model
      ensures Valid() && old(offset) <= offset
      ensures ok ==> item in item.repr && item.Tree() && fresh(item.repr - {item})
      ensures ok ==> ParseValue(strtod, old(Rest()), old(depth)) == Parsed(item.model, Rest())
      ensures ok ==> depth == old(depth)
      ensures !ok && NeverFails(grants) ==> ParseValue(strtod, old(Rest()), old(depth)).Fail?
      decreases |content| - offset, 3
    {
      hide Lawful, ParseValue, ParseLiteral, ParseNumber, ParseArray, ParseObject, Item.Tree;
      ghost var t := Rest();
      ByFirstByte(strtod, t, depth);
      assert t[0] == content[offset];
      ok := false;
      if content[offset] == QUOTE {
        var text;
        ok, text := ParseStringItem();
        if ok {
          SetLeaf(item, KindString, item.number, text, String(text));
        }
      } else if content[offset] == MINUS || 0x30 <= content[offset] <= 0x39 {
        var number;
        ok, number := ParseNumberItem();
        if ok {
          SetLeaf(item, KindNumber, number, item.text, Number(number));
        }
      } else if content[offset] == LBRACKET {
        ok := ParseArrayItem(item);
      } else if content[offset] == LBRACE {
        ok := ParseObjectItem(item);
      }
    }

    /** One round of the loop in `parse_array`, from the byte before the element: a new item, linked
        behind the last one, is filled. */
    method ParseElementRound(head: Item?, last: Item?, ghost s: seq<Item>, ghost foot: set<Item>)
      returns (ok: bool, item: Item?)
      requires Valid() && Lawful(strtod) && offset < |content| && Growing(head, last, s, foot)
      modifies this, Those(last)`next
      ensures Valid() && old(offset) <= offset
      ensures ok ==> depth == old(depth) && old(offset) < offset
      ensures ok ==> item != null && fresh(item.repr)
                     && Growing(if head == null then item else head, item, s + [item], foot + item.repr)
      ensures var p := ParseValue(strtod, SkipWhitespace(content[old(offset) + 1..]), old(depth));
              && (ok ==> p.Parsed? && p.value == item.model && Rest() == SkipWhitespace(p.rest))
              && (!ok && NeverFails(grants) ==> p.Fail?)
      decreases |content| - offset, 0
    {
      hide Lawful, ParseValue, SkipWhitespace, Item.Tree, Grove, Strung, Growing;
      item := null;
      ok := Allocate();
      if !ok {
        return;
      }
      item := NewLinked(head, last, s, foot);
      offset := offset + 1;
      SkipBlanks();
      ok := ParseItem(item);
      if ok {
        GrowOne(head, s, foot, item);
        SkipBlanks();
      }
    }

    /** The loop of `parse_array` and the closing bracket, from the byte before the first element. */
    method ParseElementLoop()
      returns (ok: bool, head: Item?, last: Item?, ghost e: Elements, ghost s: seq<Item>, ghost foot: set<Item>)
      requires Valid() && Lawful(strtod) && offset < |content|
      modifies this
      ensures Valid() && old(offset) <= offset
      ensures ok ==> depth == old(depth)
      ensures ok ==> fresh(foot) && Growing(head, last, s, foot) && ElementsMatch(e, s)
      ensures var p := ParseElements(strtod, content[old(offset) + 1..], old(depth));
              && (ok ==> p == Parsed(e, Rest()))
              && (!ok && NeverFails(grants) ==> p.Fail?)
      decreases |content| - offset, 1
    {
      hide Lawful, ParseValue, SkipWhitespace, ParseElements, ElementsThen, AppendElement;
      hide Item.Tree, Growing, ElementsMatch;
      ghost var target := ParseElements(strtod, content[offset + 1..], depth);
      ThenNothing(target);
      NothingGrown();
      head, last, e, s, foot := null, null, NoElement, [], {};
      while true
        invariant Valid() && old(offset) <= offset < |content| && depth == old(depth)
        invariant target == ElementsThen(e, ParseElements(strtod, content[offset + 1..], depth))
        invariant fresh(foot) && Growing(head, last, s, foot) && ElementsMatch(e, s)
        invariant last != null ==> fresh(last)
        decreases |content| - offset
      {
        ElementsRound(strtod, content[offset + 1..], depth, e);
        var item;
        ok, item := ParseElementRound(head, last, s, foot);
        if !ok || offset >= |content| {
          ok := false;
          return;
        }
        assert Rest()[0] == content[offset] && Rest()[1..] == content[offset + 1..];
        OneMoreElement(e, s, item);
        GrownInside(if head == null then item else head, item, s + [item], foot + item.repr);
        head, last := if head == null then item else head, item;
        e, s, foot := AppendElement(e, item.model), s + [item], foot + item.repr;
        if content[offset] != COMMA {
          ok := content[offset] == RBRACKET;
          if ok {
            offset := offset + 1;
          }
          return;
        }
      }
    }

    /** How `parse_array` and `parse_object` begin: the nesting limit, the bracket, and white space. If
        there is something between the brackets, the cursor ends right before it. */
    method Open(close: byte) returns (found: Bracket)
      requires Valid() && offset < |content|
      modifies `offset, `depth
      ensures Valid() && old(offset) <= offset
      ensures var u := SkipWhitespace(old(Rest())[1..]);
              && found == (if old(depth) >= NESTING_LIMIT || u == [] then Refused
                            else if u[0] == close then Empty else Inhabited)
              && (found == Empty ==> depth == old(depth) && Rest() == u[1..])
              && (found == Inhabited ==>
                    depth == old(depth) + 1 && offset < |content| && content[offset + 1..] == u)
    {
      hide SkipWhitespace;
      if depth >= NESTING_LIMIT {
        return Refused;
      }
      depth := depth + 1;
      assert Rest()[1..] == content[offset + 1..];
      offset := offset + 1;
      SkipBlanks();
      if offset < |content| && content[offset] == close {
        assert Rest()[0] == content[offset] && Rest()[1..] == content[offset + 1..];
        depth, offset := depth - 1, offset + 1;
        return Empty;
      }
      found := if offset >= |content| then Refused else Inhabited;
      assert offset < |content| ==> Rest()[0] == content[offset];
      ghost var u := Rest();
      offset := offset - 1;
      assert content[offset + 1..] == u;
    }

    /** `parse_array`. */
    method ParseArrayItem(item: Item) returns (ok: bool)
      requires Valid() && Lawful(strtod) && offset < |content| && content[offset] == LBRACKET && Blank(item)
      modifies this, item`kind, item`number, item`text, item`child, item`kids, item`repr, item`model
      ensures Valid() && old(offset) <= offset
      ensures ok ==> item in item.repr && item.Tree() && fresh(item.repr - {item})
      ensures ok ==> ParseArray(strtod, old(Rest()), old(depth)) == Parsed(item.model, Rest())
      ensures ok ==> depth == old(depth)
      ensures !ok && NeverFails(grants) ==> ParseArray(strtod, old(Rest()), old(depth)).Fail?
      decreases |content| - offset, 2
    {
      hide Lawful, ParseElements, SkipWhitespace, Item.Tree, Growing, ElementsMatch;
      ok := false;
      var found := Open(RBRACKET);
      if found == Refused {
        return;
      }
      if found == Empty {
        SetEmpty(item, KindArray, Array(NoElement));
        return true;
      }
      var head, last;
      ghost var e, s, foot;
      ok, head, last, e, s, foot := ParseElementLoop();
      if ok {
        depth := depth - 1;
        GrownInside(head, last, s, foot);
        AdoptChildren(item, KindArray, head, last, Array(e), s, foot);
      }
    }

    /** The name and colon of a member, from the byte before them. */
    method ParseKeyItem() returns (ok: bool, name: bytes)
      requires Valid() && offset < |content|
      modifies `offset, `calls
      ensures Valid() && old(offset) <= offset && (ok ==> old(offset) < offset)
      ensures ok ==> ParseKey(content[old(offset) + 1..]) == Key(name, Rest())
      ensures !ok && NeverFails(grants) ==> ParseKey(content[old(offset) + 1..]).NoKey?
    {
      hide ParseLiteral, SkipWhitespace;
      ok, name := false, [];
      if offset + 1 >= |content| {
        EmptyKey(content[offset + 1..]);
        return;
      }
      offset := offset + 1;
      SkipBlanks();
      ok, name := ParseStringItem();
      if !ok {
        return;
      }
      SkipBlanks();
      if offset >= |content| {
        return false, name;
      }
      assert Rest()[0] == content[offset] && Rest()[1..] == content[offset + 1..];
      ok := content[offset] == COLON;
      if ok {
        offset := offset + 1;
      }
    }

    /** A new item for a member, linked behind the last one, with its name read. */
    method NewMember(head: Item?, last: Item?, ghost s: seq<Item>, ghost foot: set<Item>)
      returns (ok: bool, name: bytes, item: Item?)
      requires Valid() && offset < |content| && Growing(head, last, s, foot)
      modifies `offset, `calls, Those(last)`next
      ensures Valid() && old(offset) <= offset && (ok ==> old(offset) < offset)
      ensures ok ==> item != null && fresh(item) && Blank(item) && item.name == Some(name)
      ensures ok ==> Strung(s + [item]) && Grove(s, foot) && if s == [] then head == null else head == s[0]
      ensures ok ==> ParseKey(content[old(offset) + 1..]) == Key(name, Rest())
      ensures !ok && NeverFails(grants) ==> ParseKey(content[old(offset) + 1..]).NoKey?
    {
      hide SkipWhitespace, ParseKey, Item.Tree, Grove, Strung, Growing;
      name, item := [], null;
      ok := Allocate();
      if ok {
        item := NewLinked(head, last, s, foot);
        ok, name := ParseKeyItem();
        if ok {
          item.name := Some(name);
        }
      }
    }

    /** One round of the loop in `parse_object`, from the byte before the member: a new item, linked
        behind the last one, is named and filled. */
    method ParseMemberRound(head: Item?, last: Item?, ghost s: seq<Item>, ghost foot: set<Item>)
      returns (ok: bool, name: bytes, item: Item?)
      requires Valid() && Lawful(strtod) && offset < |content| && Growing(head, last, s, foot)
      modifies this, Those(last)`next
      ensures Valid() && old(offset) <= offset
      ensures ok ==> depth == old(depth) && old(offset) < offset
      ensures ok ==> item != null && fresh(item.repr) && item.name == Some(name)
                     && Growing(if head == null then item else head, item, s + [item], foot + item.repr)
      ensures var key := ParseKey(content[old(offset) + 1..]);
              && (ok ==> key.Key? && key.name == name)
              && (key.Key? ==>
                    var p := ParseValue(strtod, SkipWhitespace(key.rest), old(depth));
                    && (ok ==> p.Parsed? && p.value == item.model && Rest() == SkipWhitespace(p.rest))
                    && (!ok && NeverFails(grants) ==> p.Fail?))
      decreases |content| - offset, 0
    {
      hide Lawful, ParseValue, SkipWhitespace, ParseKey, Item.Tree, Grove, Strung, Growing;
      ok, name, item := NewMember(head, last, s, foot);
      if !ok {
        return;
      }
      SkipBlanks();
      ok := ParseItem(item);
      if ok {
        GrowOne(head, s, foot, item);
        SkipBlanks();
      }
    }

    /** The loop of `parse_object` and the closing brace, from the byte before the first member. */
    method ParseMemberLoop()
      returns (ok: bool, head: Item?, last: Item?, ghost m: Members, ghost s: seq<Item>, ghost foot: set<Item>)
      requires Valid() && Lawful(strtod) && offset < |content|
      modifies this
      ensures Valid() && old(offset) <= offset
      ensures ok ==> depth == old(depth)
      ensures ok ==> fresh(foot) && Growing(head, last, s, foot) && MembersMatch(m, s)
      ensures var p := ParseMembers(strtod, content[old(offset) + 1..], old(depth));
              && (ok ==> p == Parsed(m, Rest()))
              && (!ok && NeverFails(grants) ==> p.Fail?)
      decreases |content| - offset, 1
    {
      hide Lawful, ParseValue, SkipWhitespace, ParseMembers, MembersThen, AppendMember, ParseKey;
      hide Item.Tree, Growing, MembersMatch;
      ghost var target := ParseMembers(strtod, content[offset + 1..], depth);
      ThenNoMembers(target);
      NothingGrown();
      head, last, m, s, foot := null, null, NoMember, [], {};
      while true
        invariant Valid() && old(offset) <= offset < |content| && depth == old(depth)
        invariant target == MembersThen(m, ParseMembers(strtod, content[offset + 1..], depth))
        invariant fresh(foot) && Growing(head, last, s, foot) && MembersMatch(m, s)
        invariant last != null ==> fresh(last)
        decreases |content| - offset
      {
        MembersRound(strtod, content[offset + 1..], depth, m);
        var name, item;
        ok, name, item := ParseMemberRound(head, last, s, foot);
        if !ok || offset >= |content| {
          ok := false;
          return;
        }
        assert Rest()[0] == content[offset] && Rest()[1..] == content[offset + 1..];
        OneMoreMember(m, s, name, item);
        GrownInside(if head == null then item else head, item, s + [item], foot + item.repr);
        head, last := if head == null then item else head, item;
        m, s, foot := AppendMember(m, name, item.model), s + [item], foot + item.repr;
        if content[offset] != COMMA {
          ok := content[offset] == RBRACE;
          if ok {
            offset := offset + 1;
          }
          return;
        }
      }
    }

    /** `parse_object`. */
    method ParseObjectItem(item: Item) returns (ok: bool)
      requires Valid() && Lawful(strtod) && offset < |content| && content[offset] == LBRACE && Blank(item)
      modifies this, item`kind, item`number, item`text, item`child, item`kids, item`repr, item`model
      ensures Valid() && old(offset) <= offset
      ensures ok ==> item in item.repr && item.Tree() && fresh(item.repr - {item})
      ensures ok ==> ParseObject(strtod, old(Rest()), old(depth)) == Parsed(item.model, Rest())
      ensures ok ==> depth == old(depth)
      ensures !ok && NeverFails(grants) ==> ParseObject(strtod, old(Rest()), old(depth)).Fail?
      decreases |content| - offset, 2
    {
      hide Lawful, ParseMembers, SkipWhitespace, Item.Tree, Growing, MembersMatch;
      ok := false;
      var found := Open(RBRACE);
      if found == Refused {
        return;
      }
      if found == Empty {
        SetEmpty(item, KindObject, Object(NoMember));
        return true;
      }
      var head, last;
      ghost var m, s, foot;
      ok, head, last, m, s, foot := ParseMemberLoop();
      if ok {
        depth := depth - 1;
        GrownInside(head, last, s, foot);
        AdoptChildren(item, KindObject, head, last, Object(m), s, foot);
      }
    }
  }

  /** A new item at the end of the list, not yet filled. */
  method NewLinked(head: Item?, last: Item?, ghost s: seq<Item>, ghost foot: set<Item>) returns (item: Item)
    requires Growing(head, last, s, foot)
    modifies Those(last)`next
    ensures fresh(item) && Blank(item) && item.next == null
    ensures Strung(s + [item]) && Grove(s, foot)
    ensures if s == [] then head == null else head == s[0]
  {
    hide Item.Tree, Grove, Strung;
    item := new Item();
    if last != null {
      LinkNext(last, item, s, foot);
    } else {
      StrungOne(item);
      assert s + [item] == [item];
    }
  }

  /** A filled item is one more tree of the list. */
  lemma GrowOne(head: Item?, s: seq<Item>, foot: set<Item>, item: Item)
    requires Strung(s + [item]) && Grove(s, foot) && (if s == [] then head == null else head == s[0])
    requires item in item.repr && item.Tree() && foot !! item.repr
    ensures Growing(if head == null then item else head, item, s + [item], foot + item.repr)
  {
    hide Item.Tree, Strung, Grove;
    GroveMore(s, foot, item);
  }

  /** An empty array or object. */
  method SetEmpty(item: Item, kind: Kind, ghost v: Json)
    requires Blank(item) && (v == Array(NoElement) || v == Object(NoMember)) && Shape(kind, item.number, item.text, v)
    modifies item`kind, item`number, item`text, item`model
    ensures Blank(item) && item.Tree() && item.model == v
  {
    SetLeaf(item, kind, item.number, item.text, v);
  }

  lemma NothingGrown()
    ensures Growing(null, null, [], {}) && ElementsMatch(NoElement, []) && MembersMatch(NoMember, [])
  {
  }

  lemma GrownInside(head: Item?, last: Item?, s: seq<Item>, foot: set<Item>)
    requires Growing(head, last, s, foot)
    ensures head != null ==> head in foot
    ensures last != null ==> last in foot
  {
  }

  lemma {:induction false} OneMoreElement(e: Elements, s: seq<Item>, item: Item)
    requires ElementsMatch(e, s)
    ensures ElementsMatch(AppendElement(e, item.model), s + [item])
    decreases |s|
  {
    var all := s + [item];
    if s == [] {
      assert all[1..] == [];
    } else {
      assert all[1..] == s[1..] + [item];
      OneMoreElement(e.next, s[1..], item);
    }
  }

  lemma {:induction false} OneMoreMember(m: Members, s: seq<Item>, name: bytes, item: Item)
    requires MembersMatch(m, s) && item.name == Some(name)
    ensures MembersMatch(AppendMember(m, name, item.model), s + [item])
    decreases |s|
  {
    var all := s + [item];
    if s == [] {
      assert all[1..] == [];
    } else {
      assert all[1..] == s[1..] + [item];
      OneMoreMember(m.next, s[1..], name, item);
    }
  }

  lemma EmptyKey(t: bytes)
    requires t == []
    ensures ParseKey(t).NoKey?
  {
  }

  lemma ThenNoMembers(p: Parsed<Members>)
    ensures MembersThen(NoMember, p) == p
  {
  }

  lemma {:induction false} MembersRound(strtod: Strtod, t: bytes, depth: nat, m: Members)
    ensures var p := MembersThen(m, ParseMembers(strtod, t, depth));
            var key := ParseKey(t);
            if key.NoKey? then p.Fail?
            else
              var v := ParseValue(strtod, SkipWhitespace(key.rest), depth);
              if v.Fail? || SkipWhitespace(v.rest) == [] then p.Fail?
              else
                var u := SkipWhitespace(v.rest);
                if u[0] == COMMA then
                  p == MembersThen(AppendMember(m, key.name, v.value), ParseMembers(strtod, u[1..], depth))
                else if u[0] == RBRACE then p == Parsed(AppendMember(m, key.name, v.value), u[1..])
                else p.Fail?
  {
    hide ParseValue, ParseKey, SkipWhitespace, AppendMember;
    var key := ParseKey(t);
    if key.Key? {
      var v := ParseValue(strtod, SkipWhitespace(key.rest), depth);
      if v.Parsed? && SkipWhitespace(v.rest) != [] {
        var u := SkipWhitespace(v.rest);
        AppendMemberThen(m, key.name, v.value, ParseMembers(strtod, u[1..], depth));
        AppendLastMember(m, key.name, v.value, u[1..]);
      }
    }
  }

  lemma ThenNothing(p: Parsed<Elements>)
    ensures ElementsThen(NoElement, p) == p
  {
  }

  /** How one round of the loop, with `e` read before, changes what remains to be parsed. */
  lemma {:induction false} ElementsRound(strtod: Strtod, t: bytes, depth: nat, e: Elements)
    ensures var p := ElementsThen(e, ParseElements(strtod, t, depth));
            var v := ParseValue(strtod, SkipWhitespace(t), depth);
            if v.Fail? || SkipWhitespace(v.rest) == [] then p.Fail?
            else
              var u := SkipWhitespace(v.rest);
              if u[0] == COMMA then
                p == ElementsThen(AppendElement(e, v.value), ParseElements(strtod, u[1..], depth))
              else if u[0] == RBRACKET then p == Parsed(AppendElement(e, v.value), u[1..])
              else p.Fail?
  {
    hide ParseValue, SkipWhitespace, AppendElement;
    var v := ParseValue(strtod, SkipWhitespace(t), depth);
    if v.Parsed? && SkipWhitespace(v.rest) != [] {
      var u := SkipWhitespace(v.rest);
      AppendThen(e, v.value, ParseElements(strtod, u[1..], depth));
      AppendLast(e, v.value, u[1..]);
    }
  }

  /** `cJSON_ParseWithLengthOpts`: a fresh tree of items that represents the document, if there is one. */
  method ParseWithLength(text: bytes, strtod: Strtod, requireNul: bool, grants: Allocator) returns (item: Item?)
    requires Lawful(strtod)
    ensures item != null ==> fresh(item.repr) && item in item.repr && item.Tree() && Detached(item)
    ensures item != null ==> ParseDocument(strtod, text, requireNul) == Some(item.model)
    ensures item == null && NeverFails(grants) ==> ParseDocument(strtod, text, requireNul).None?
  {
    hide Lawful, ParseValue, SkipWhitespace, Item.Tree;
    if text == [] {
      return null;
    }
    var buffer := new ParseBuffer(text, strtod, grants);
    var granted := buffer.Allocate();
    if !granted {
      return null;
    }
    item := new Item();
    if |text| > 4 && BYTE_ORDER_MARK <= text {
      buffer.offset := 3;
    }
    assert buffer.Rest() == SkipByteOrderMark(text);
    buffer.SkipBlanks();
    var ok := buffer.ParseItem(item);
    if !ok {
      return null;
    }
    if requireNul {
      buffer.SkipBlanks();
      if buffer.offset >= |text| || text[buffer.offset] != 0 {
        return null;
      }
    }
  }
}

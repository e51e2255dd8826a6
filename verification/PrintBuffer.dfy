/** The growing print buffer of cJSON.c and the printers that write into it. */
module PrintBuffer {
  import opened Bytes
  import opened JsonValue
  import opened JsonText

  // ----- sizes -----

  lemma {:induction false} EscapeGrows(s: bytes)
    ensures |Escape(s, [])| >= |s|
    ensures |Escape(s, [])| == |s| ==> Escape(s, []) == s
  {
    if s == [] {
    } else {
      EscapeGrows(s[1..]);
    }
  }

  function Pow10(k: nat): nat {
    if k == 0 then 1 else 10 * Pow10(k - 1)
  }

  lemma {:induction false} DigitsBound(n: nat, k: nat)
    requires 0 < k && n < Pow10(k)
    ensures |Digits(n)| <= k
  {
    if n < 10 {
    } else {
      DigitsBound(n / 10, k - 1);
    }
  }

  lemma IntTextBound(n: int)
    requires Int32(n)
    ensures |IntText(n)| <= 11
  {
    assert Pow10(10) == 10_000_000_000;
    DigitsBound(if n < 0 then -n else n, 10);
  }

  /** The letter of a two-byte escape, if the byte has one. */
  function EscapeLetter(c: byte): Option<byte> {
    match c
    case 0x5c => Some(BACKSLASH)
    case 0x22 => Some(QUOTE)
    case 0x08 => Some(0x62)
    case 0x0c => Some(0x66)
    case 0x0a => Some(0x6e)
    case 0x0d => Some(0x72)
    case 0x09 => Some(0x74)
    case _ => None
  }

  /** `u%04x` of a byte. */
  function UnicodeTail(c: byte): (r: bytes)
    ensures |r| == 5
  {
    [0x75, 0x30, 0x30, HexDigit(c / 16), HexDigit(c % 16)]
  }

  lemma EscapeParts(c: byte)
    requires c <= 31 || c == QUOTE || c == BACKSLASH
    ensures var letter := EscapeLetter(c);
            EscapeByte(c) == [BACKSLASH] +
              if letter.Some? then [letter.value] else UnicodeTail(c)
  {
  }

  lemma EscapeStep(s: bytes, i: nat)
    requires i < |s|
    ensures Escape(s[i..], []) == EscapeByte(s[i]) + Escape(s[i + 1..], [])
  {
    assert s[i..][1..] == s[i + 1..];
  }

  lemma NothingEscaped()
    ensures Escape([], []) == []
  {
  }

  class PrintBuffer {
    var buffer: array?<byte>
    var length: nat
    var offset: nat
    var depth: nat
    var calls: nat
    const noalloc: bool
    const format: bool
    const hasReallocate: bool
    const grants: Allocator

    ghost predicate Valid()
      reads this
    {
      && length <= INT_MAX
      && (buffer != null ==> buffer.Length == length)
      && (offset < length || (length == 0 && (buffer != null ==> noalloc && offset == 0)))
    }

    /** No text longer than this, with its slack, can ever be held. */
    ghost function Cap(): int
      reads this`length
    {
      if noalloc then length else INT_MAX
    }

    /** `all` stands at the start of the buffer as a C string, and `offset` lies inside it. */
    ghost predicate Written(all: bytes)
      reads this, buffer
    {
      && buffer != null
      && offset <= |all| < buffer.Length
      && buffer[..|all|] == all
      && buffer[|all|] == 0
    }

    /** What every step leaves alone: a caller's buffer stays in place, and a heap buffer is only
        lost when an allocation fails. */
    twostate predicate Kept()
      reads this
    {
      && (buffer == null || buffer == old(buffer) || fresh(buffer))
      && (noalloc ==> buffer == old(buffer) && length == old(length))
      && (NeverFails(grants) && old(buffer) != null ==> buffer != null)
    }

    /** The result of printing `text` after `before`: it succeeds exactly when text and slack fit. */
    ghost predicate Printed(ok: bool, before: bytes, text: bytes)
      reads this, buffer
    {
      && (buffer == null ==> !ok)
      && (buffer != null ==> (ok <==> |before| + |text| + 2 <= Cap()))
      && (ok ==> Written(before + text))
    }

    /** The buffer of `print`: `size` bytes from the heap. */
    constructor Heap(size: nat, fmt: bool, realloc: bool, allocator: Allocator)
      requires 0 < size <= INT_MAX
      ensures Valid() && offset == 0 && depth == 0
      ensures !noalloc && format == fmt && grants == allocator
      ensures buffer != null <==> allocator(0)
      ensures buffer != null ==> fresh(buffer) && length == size
    {
      noalloc, format, hasReallocate, grants := false, fmt, realloc, allocator;
      offset, depth, calls := 0, 0, 1;
      if allocator(0) {
        buffer, length := new byte[size], size;
      } else {
        buffer, length := null, 0;
      }
    }

    /** The caller's own buffer (`cJSON_PrintPreallocated`). */
    constructor Preallocated(target: array<byte>, fmt: bool, allocator: Allocator)
      requires target.Length <= INT_MAX
      ensures Valid() && offset == 0 && depth == 0
      ensures noalloc && format == fmt
      ensures buffer == target && length == target.Length
    {
      noalloc, format, hasReallocate, grants := true, fmt, false, allocator;
      offset, depth, calls := 0, 0, 0;
      buffer, length := target, target.Length;
    }

    /** Makes room for `needed` bytes and one more at `offset`, growing the buffer if it may. */
    method Ensure(needed: nat) returns (ok: bool)
      requires Valid()
      modifies `buffer, `length, `calls
      ensures Valid() && Kept()
      ensures buffer == null ==> !ok
      ensures buffer != null ==> (ok <==> offset + needed + 1 <= Cap())
      ensures ok ==> old(buffer) != null && offset + needed + 1 <= buffer.Length
      ensures ok ==> buffer[..offset] == old(buffer[..offset])
    {
      if buffer == null {
        return false;
      }
      if length > 0 && offset >= length {
        return false;
      }
      if needed > INT_MAX {
        return false;
      }
      var total := needed + offset + 1;
      if total <= length {
        return true;
      }
      if noalloc {
        return false;
      }
      var newSize: nat;
      if total > INT_MAX / 2 {
        if total <= INT_MAX {
          newSize := INT_MAX;
        } else {
          return false;
        }
      } else {
        newSize := total * 2;
      }
      var granted := grants(calls);
      calls := calls + 1;
      if !granted {
        length := 0;
        buffer := null;
        return false;
      }
      Move(newSize);
      return true;
    }

    /** `realloc`, or a fresh block and a copy of the text so far. */
    method Move(newSize: nat)
      requires buffer != null && buffer.Length == length && newSize <= INT_MAX
      requires offset < length < newSize
      modifies `buffer, `length
      ensures buffer != null && fresh(buffer) && buffer.Length == length == newSize
      ensures buffer[..offset] == old(buffer[..offset])
    {
      var keep := if hasReallocate then length else offset + 1;
      var from := buffer;
      var bigger := new byte[newSize];
      var i := 0;
      while i < keep
        invariant 0 <= i <= keep
        invariant forall j :: 0 <= j < i ==> bigger[j] == from[j]
      {
        bigger[i] := from[i];
        i := i + 1;
      }
      assert bigger[..offset] == from[..offset];
      buffer, length := bigger, newSize;
    }

    /** `strlen` from `offset` on. */
    method UpdateOffset(ghost all: bytes)
      requires Valid() && Written(all) && NoNul(all[offset..])
      modifies `offset
      ensures Valid() && Written(all) && offset == |all|
    {
      forall k | offset <= k < |all|
        ensures buffer[k] != 0
      {
        assert buffer[k] == buffer[..|all|][k] == all[offset..][k - offset];
      }
      var i := offset;
      while buffer[i] != 0
        invariant offset <= i <= |all|
        decreases |all| - i
      {
        i := i + 1;
      }
      offset := i;
    }

    /** `memcpy` of `t` to position `at`. */
    method Store(at: nat, t: bytes)
      requires buffer != null && at + |t| <= buffer.Length
      modifies buffer
      ensures buffer[..at + |t|] == old(buffer[..at]) + t
    {
      var i := 0;
      while i < |t|
        invariant 0 <= i <= |t|
        invariant buffer[..at + i] == old(buffer[..at]) + t[..i]
      {
        buffer[at + i] := t[i];
        i := i + 1;
        assert buffer[..at + i] == buffer[..at + i - 1] + [t[i - 1]];
        assert t[..i] == t[..i - 1] + [t[i - 1]];
      }
      assert t[..|t|] == t;
    }

    /** `strcpy`: `t` and its NUL. */
    method StoreCString(at: nat, t: bytes)
      requires buffer != null && at + |t| < buffer.Length
      modifies buffer
      ensures buffer[..at + |t|] == old(buffer[..at]) + t
      ensures buffer[at + |t|] == 0
    {
      Store(at, t + [0]);
      assert buffer[..at + |t| + 1] == old(buffer[..at]) + (t + [0]);
      assert buffer[..at + |t|] == buffer[..at + |t| + 1][..at + |t|];
      assert buffer[at + |t|] == buffer[..at + |t| + 1][at + |t|];
    }

    // ----- scalars -----

    /** `print_value` on null, false and true. */
    method PrintLiteral(text: bytes) returns (ok: bool)
      requires Valid() && buffer != null
      modifies this, buffer
      ensures Valid() && Kept() && depth == old(depth) && offset == old(offset)
      ensures Printed(ok, old(buffer[..offset]), text)
    {
      ok := Ensure(|text| + 1);
      if ok {
        StoreCString(offset, text);
      }
    }

    /** `print_number` on a 32-bit integer. */
    method PrintNumber(n: int) returns (ok: bool)
      requires Valid() && buffer != null && Int32(n)
      modifies this, buffer
      ensures Valid() && Kept() && depth == old(depth) && offset >= old(offset)
      ensures Printed(ok, old(buffer[..offset]), IntText(n))
    {
      var number := IntText(n);
      IntTextBound(n);
      if |number| > 25 {
        assert false;
        return false;
      }
      ok := Ensure(|number| + 1);
      if ok {
        StoreCString(offset, number);
        offset := offset + |number|;
      }
    }

    /** Writes the escaped form of one byte at `at`. */
    method PutEscape(c: byte, at: nat) returns (end: nat)
      requires buffer != null && at + |EscapeByte(c)| < buffer.Length
      modifies buffer
      ensures end == at + |EscapeByte(c)|
      ensures buffer[..end] == old(buffer[..at]) + EscapeByte(c)
    {
      if c > 31 && c != QUOTE && c != BACKSLASH {
        Store(at, [c]);
        end := at + 1;
      } else {
        end := PutSpecial(c, at);
      }
    }

    /** A byte that needs a backslash. */
    method PutSpecial(c: byte, at: nat) returns (end: nat)
      requires buffer != null && at + |EscapeByte(c)| < buffer.Length
      requires c <= 31 || c == QUOTE || c == BACKSLASH
      modifies buffer
      ensures end == at + |EscapeByte(c)|
      ensures buffer[..end] == old(buffer[..at]) + EscapeByte(c)
    {
      EscapeParts(c);
      hide EscapeByte, EscapeLetter;
      ghost var before := buffer[..at];
      Store(at, [BACKSLASH]);
      end := PutEscapeTail(EscapeLetter(c), c, at + 1);
      assert forall tail: bytes {:trigger [BACKSLASH] + tail} ::
        (before + [BACKSLASH]) + tail == before + ([BACKSLASH] + tail);
    }

    /** What follows the backslash: a letter, or `u` and four digits, which `sprintf` terminates. */
    method PutEscapeTail(letter: Option<byte>, c: byte, at: nat) returns (end: nat)
      requires buffer != null && at + (if letter.Some? then 1 else 5) < buffer.Length
      modifies buffer
      ensures var tail := if letter.Some? then [letter.value] else UnicodeTail(c);
              end == at + |tail| && buffer[..end] == old(buffer[..at]) + tail
    {
      if letter.Some? {
        Store(at, [letter.value]);
        end := at + 1;
      } else {
        StoreCString(at, UnicodeTail(c));
        end := at + 5;
      }
    }

    /** The first loop of `print_string_ptr`: how many bytes escaping adds. */
    static method CountEscapes(s: bytes) returns (extra: nat)
      ensures extra == |Escape(s, [])| - |s|
    {
      extra := 0;
      var i := 0;
      while i < |s|
        invariant 0 <= i <= |s|
        invariant extra + (|Escape(s[i..], [])| - |s[i..]|) == |Escape(s, [])| - |s|
      {
        assert s[i..][1..] == s[i + 1..];
        match s[i] {
          case 0x22 => extra := extra + 1;
          case 0x5c => extra := extra + 1;
          case 0x08 => extra := extra + 1;
          case 0x0c => extra := extra + 1;
          case 0x0a => extra := extra + 1;
          case 0x0d => extra := extra + 1;
          case 0x09 => extra := extra + 1;
          case _ =>
            if s[i] < 32 {
              extra := extra + 5;
            }
        }
        i := i + 1;
      }
    }

    /** The second loop of `print_string_ptr`, after the opening quote. */
    method PutEscapes(s: bytes, at: nat) returns (end: nat)
      requires buffer != null && at + |Escape(s, [])| < buffer.Length
      modifies buffer
      ensures end == at + |Escape(s, [])|
      ensures buffer[..end] == old(buffer[..at]) + Escape(s, [])
    {
      hide Escape, EscapeByte;
      NothingEscaped();
      ghost var all := buffer[..at] + Escape(s, []);
      assert s[0..] == s;
      end := at;
      var i := 0;
      while i < |s|
        invariant 0 <= i <= |s|
        invariant end + |Escape(s[i..], [])| == at + |Escape(s, [])|
        invariant buffer[..end] + Escape(s[i..], []) == all
      {
        ghost var e, tail := EscapeByte(s[i]), Escape(s[i + 1..], []);
        EscapeStep(s, i);
        ghost var before := buffer[..end];
        end := PutEscape(s[i], end);
        assert (before + e) + tail == before + (e + tail);
        i := i + 1;
      }
      assert s[i..] == [] && buffer[..end] + [] == buffer[..end];
    }

    lemma QuotedIsBody(s: bytes)
      ensures Quoted(s, []) == [QUOTE] + (Escape(s, []) + [QUOTE])
    {
      EscapeThen(s, [QUOTE]);
      assert [QUOTE] + [] == [QUOTE];
    }

    /** The writing half of `print_string_ptr`: `extra` is what the first loop counted. */
    method PutQuoted(s: bytes, extra: nat, at: nat)
      requires buffer != null && extra == |Escape(s, [])| - |s|
      requires at + |Quoted(s, [])| < buffer.Length
      modifies buffer
      ensures buffer[..at + |Quoted(s, [])|] == old(buffer[..at]) + Quoted(s, [])
      ensures buffer[at + |Quoted(s, [])|] == 0
    {
      hide Quoted, Escape;
      ghost var before := buffer[..at];
      QuotedIsBody(s);
      Store(at, [QUOTE]);
      if extra == 0 {
        EscapeGrows(s);
        Store(at + 1, s);
      } else {
        var end := PutEscapes(s, at + 1);
      }
      var outputLength := |s| + extra;
      assert buffer[..at + 1 + outputLength] == (before + [QUOTE]) + Escape(s, []);
      StoreCString(at + 1 + outputLength, [QUOTE]);
      assert ((before + [QUOTE]) + Escape(s, [])) + [QUOTE] == before + ([QUOTE] + (Escape(s, []) + [QUOTE]));
    }

    /** `print_string_ptr`. */
    method PrintString(s: bytes) returns (ok: bool)
      requires Valid() && buffer != null && NoNul(s)
      modifies this, buffer
      ensures Valid() && Kept() && depth == old(depth) && offset == old(offset)
      ensures Printed(ok, old(buffer[..offset]), Quoted(s, []))
    {
      var extra := CountEscapes(s);
      QuotedIsBody(s);
      ok := Ensure(|s| + extra + 3);
      if ok {
        PutQuoted(s, extra, offset);
      }
    }

    // ----- containers -----

    /** Reserves `needed` bytes, writes `t`, maybe its NUL, and moves on past `t`. */
    method Emit(t: bytes, needed: nat, terminate: bool) returns (ok: bool)
      requires Valid() && buffer != null
      requires |t| <= needed
      modifies this, buffer
      ensures Valid() && Kept() && depth == old(depth)
      ensures buffer == null ==> !ok
      ensures buffer != null ==> (ok <==> old(offset) + needed + 1 <= Cap())
      ensures ok ==> buffer[..offset] == old(buffer[..offset]) + t
    {
      ok := Ensure(needed);
      if !ok {
        return;
      }
      if terminate {
        StoreCString(offset, t);
      } else {
        Store(offset, t);
      }
      offset := offset + |t|;
    }

    /** `print_value` followed by `update_offset`. */
    method PrintAndAdvance(v: Json) returns (ok: bool)
      requires Valid() && buffer != null && Storable(v)
      modifies this, buffer
      ensures Valid() && Kept()
      ensures buffer == null ==> !ok
      ensures buffer != null ==>
                (ok <==> old(offset) + |Text(v, format, old(depth))| + 2 <= Cap())
      ensures ok ==> depth == old(depth)
      ensures ok ==> buffer[..offset] == old(buffer[..offset]) + Text(v, format, depth)
      decreases v, 1
    {
      hide Render;
      ghost var before, text := buffer[..offset], Text(v, format, depth);
      ok := PrintValue(v);
      if ok {
        RenderNoNul(v, format, depth, []);
        AdvancePast(before, text);
      }
    }

    method AdvancePast(ghost before: bytes, ghost text: bytes)
      requires Valid() && Written(before + text) && NoNul(text) && offset >= |before|
      modifies `offset
      ensures Valid() && Written(before + text) && offset == |before + text|
    {
      forall i | 0 <= i < |(before + text)[offset..]|
        ensures (before + text)[offset..][i] != 0
      {
        assert (before + text)[offset..][i] == text[offset - |before| + i];
      }
      UpdateOffset(before + text);
    }

    ghost function ElementStep(e: Elements): bytes
      requires e.Element?
      reads this`depth
    {
      Text(e.value, format, depth) + if e.next.Element? then ElementGap(format) else []
    }

    /** One round of the loop in `print_array`. */
    method PrintElement(e: Elements) returns (ok: bool)
      requires Valid() && buffer != null && e.Element? && StorableElements(e)
      modifies this, buffer
      ensures Valid() && Kept()
      ensures buffer == null ==> !ok
      ensures buffer != null && !ok ==> old(offset) + |old(ElementStep(e))| + 3 > Cap()
      ensures ok ==> depth == old(depth)
      ensures ok ==> buffer[..offset] == old(buffer[..offset]) + old(ElementStep(e))
      decreases e, 0
    {
      hide Render;
      ok := PrintAndAdvance(e.value);
      if ok && e.next.Element? {
        var gap := ElementGap(format);
        ok := Emit(gap, |gap| + 1, true);
      }
    }

    /** The loop of `print_array`. */
    method PrintElements(e: Elements) returns (ok: bool)
      requires Valid() && buffer != null && StorableElements(e)
      modifies this, buffer
      ensures Valid() && Kept()
      ensures buffer == null ==> !ok
      ensures buffer != null && !ok ==>
                old(offset) + |ElementsText(e, format, old(depth))| + 3 > Cap()
      ensures ok ==> depth == old(depth)
      ensures ok ==> buffer[..offset] == old(buffer[..offset]) + ElementsText(e, format, depth)
      decreases e, 1
    {
      hide Render, ElementGap, Text;
      ghost var all := buffer[..offset] + ElementsText(e, format, depth);
      var current := e;
      while current.Element?
        invariant Valid() && Kept() && buffer != null && depth == old(depth)
        invariant StorableElements(current) && (current == e || current < e)
        invariant buffer[..offset] + ElementsText(current, format, depth) == all
        decreases current
      {
        ElementsTextStep(current, format, depth);
        ghost var before, step := buffer[..offset], ElementStep(current);
        ghost var tail := ElementsText(current.next, format, depth);
        assert all == (before + step) + tail;
        ok := PrintElement(current);
        if !ok {
          return;
        }
        current := current.next;
      }
      ok := true;
    }

    /** `print_array`. */
    method PrintArray(e: Elements) returns (ok: bool)
      requires Valid() && buffer != null && StorableElements(e)
      modifies this, buffer
      ensures Valid() && Kept() && (ok ==> depth == old(depth) && offset >= old(offset))
      ensures Printed(ok, old(buffer[..offset]), Text(Array(e), format, old(depth)))
      decreases e, 3
    {
      hide Text, ElementsText;
      ArrayText(e, format, depth);
      ghost var before := buffer[..offset];
      ok := Emit([LBRACKET], 1, false);
      if ok {
        depth := depth + 1;
        ok := PrintArrayTail(e, before);
        if ok {
          depth := depth - 1;
        }
      }
    }

    /** `print_array` after the opening bracket. */
    method PrintArrayTail(e: Elements, ghost before: bytes) returns (ok: bool)
      requires Valid() && buffer != null && StorableElements(e)
      requires buffer[..offset] == before + [LBRACKET]
      modifies this, buffer
      ensures Valid() && Kept() && (ok ==> depth == old(depth) && offset >= old(offset))
      ensures Printed(ok, before, [LBRACKET] + (ElementsText(e, format, old(depth)) + [RBRACKET]))
      decreases e, 2
    {
      hide ElementsText;
      ghost var body := ElementsText(e, format, depth);
      ok := PrintElements(e);
      if ok {
        assert ((before + [LBRACKET]) + body) + [RBRACKET] == before + ([LBRACKET] + (body + [RBRACKET]));
        ok := PrintLiteral([RBRACKET]);
      }
    }

    ghost function KeyText(key: bytes): bytes
      reads this`depth
    {
      (Indent(format, depth) + Quoted(key, [])) + KeyGap(format)
    }

    /** The indentation, key and colon of a member in `print_object`. */
    method PrintKey(key: bytes) returns (ok: bool)
      requires Valid() && buffer != null && NoNul(key)
      modifies this, buffer
      ensures Valid() && Kept() && depth == old(depth)
      ensures buffer == null ==> !ok
      ensures buffer != null && !ok ==> old(offset) + |KeyText(key)| + 2 > Cap()
      ensures ok ==> buffer[..offset] == old(buffer[..offset]) + KeyText(key)
    {
      hide Quoted, KeyGap;
      ghost var before, indent := buffer[..offset], Indent(format, depth);
      ok := true;
      if format {
        ok := Emit(Tabs(depth), depth, false);
      }
      if ok {
        assert before + [] == before;
        ok := PrintKeyText(key);
        assert before + KeyText(key) == ((before + indent) + Quoted(key, [])) + KeyGap(format);
      }
    }

    method PrintKeyText(key: bytes) returns (ok: bool)
      requires Valid() && buffer != null && NoNul(key)
      modifies this, buffer
      ensures Valid() && Kept() && depth == old(depth)
      ensures buffer == null ==> !ok
      ensures buffer != null && !ok ==>
                old(offset) + |Quoted(key, [])| + |KeyGap(format)| + 2 > Cap()
      ensures ok ==> buffer[..offset] == (old(buffer[..offset]) + Quoted(key, [])) + KeyGap(format)
    {
      hide Escape;
      ghost var before, text := buffer[..offset], Quoted(key, []);
      ok := PrintString(key);
      if ok {
        EscapeNoNul(key, [QUOTE] + []);
        AdvancePast(before, text);
        var gap := KeyGap(format);
        ok := Emit(gap, |gap|, false);
      }
    }

    ghost function MemberStep(m: Members): bytes
      requires m.Member?
      reads this`depth
    {
      (KeyText(m.key) + Text(m.value, format, depth)) + MemberEnd(format, m.next.Member?)
    }

    /** One round of the loop in `print_object`. */
    method PrintMember(m: Members) returns (ok: bool)
      requires Valid() && buffer != null && m.Member? && StorableMembers(m)
      modifies this, buffer
      ensures Valid() && Kept()
      ensures buffer == null ==> !ok
      ensures buffer != null && !ok ==> old(offset) + |old(MemberStep(m))| + 3 > Cap()
      ensures ok ==> depth == old(depth)
      ensures ok ==> buffer[..offset] == old(buffer[..offset]) + old(MemberStep(m))
      decreases m, 0
    {
      hide Render, Quoted, Indent;
      ghost var before, key := buffer[..offset], KeyText(m.key);
      ok := PrintKey(m.key);
      if ok {
        ok := PrintAndAdvance(m.value);
        if ok {
          var end := MemberEnd(format, m.next.Member?);
          ok := Emit(end, |end| + 1, true);
        }
      }
    }

    /** The loop of `print_object`. */
    method PrintMembers(m: Members) returns (ok: bool)
      requires Valid() && buffer != null && StorableMembers(m)
      modifies this, buffer
      ensures Valid() && Kept()
      ensures buffer == null ==> !ok
      ensures buffer != null && !ok ==>
                old(offset) + |MembersText(m, format, old(depth))| + 3 > Cap()
      ensures ok ==> depth == old(depth)
      ensures ok ==> buffer[..offset] == old(buffer[..offset]) + MembersText(m, format, depth)
      decreases m, 1
    {
      hide Render, Quoted, Indent, KeyGap, MemberEnd, Text;
      ghost var all := buffer[..offset] + MembersText(m, format, depth);
      var current := m;
      while current.Member?
        invariant Valid() && Kept() && buffer != null && depth == old(depth)
        invariant StorableMembers(current) && (current == m || current < m)
        invariant buffer[..offset] + MembersText(current, format, depth) == all
        decreases current
      {
        MembersTextStep(current, format, depth);
        ghost var before, step := buffer[..offset], MemberStep(current);
        ghost var tail := MembersText(current.next, format, depth);
        assert all == (before + step) + tail;
        ok := PrintMember(current);
        if !ok {
          return;
        }
        current := current.next;
      }
      ok := true;
    }

    /** `print_object`. */
    method PrintObject(m: Members) returns (ok: bool)
      requires Valid() && buffer != null && StorableMembers(m)
      modifies this, buffer
      ensures Valid() && Kept() && (ok ==> depth == old(depth) && offset >= old(offset))
      ensures Printed(ok, old(buffer[..offset]), Text(Object(m), format, old(depth)))
      decreases m, 3
    {
      hide Text, MembersText, Indent;
      ObjectText(m, format, depth);
      ghost var before := buffer[..offset];
      var open := OpenObject(format);
      ok := Emit(open, |open| + 1, false);
      if ok {
        depth := depth + 1;
        ok := PrintObjectTail(m, before);
        if ok {
          depth := depth - 1;
        }
      }
    }

    /** `print_object` after the opening brace. */
    method PrintObjectTail(m: Members, ghost before: bytes) returns (ok: bool)
      requires Valid() && buffer != null && StorableMembers(m) && depth > 0
      requires buffer[..offset] == before + OpenObject(format)
      modifies this, buffer
      ensures Valid() && Kept() && (ok ==> depth == old(depth) && offset >= old(offset))
      ensures Printed(ok, before, OpenObject(format) +
                (MembersText(m, format, old(depth)) + (Indent(format, old(depth) - 1) + [RBRACE])))
      decreases m, 2
    {
      hide OpenObject, MembersText, Tabs;
      ghost var open, body := OpenObject(format), MembersText(m, format, depth);
      var close := Indent(format, depth - 1) + [RBRACE];
      ok := PrintMembers(m);
      if ok {
        assert ((before + open) + body) + close == before + (open + (body + close));
        ok := PrintLiteral(close);
      }
    }

    /** `print_value`. */
    method PrintValue(v: Json) returns (ok: bool)
      requires Valid() && buffer != null && Storable(v)
      modifies this, buffer
      ensures Valid() && Kept() && (ok ==> depth == old(depth) && offset >= old(offset))
      ensures Printed(ok, old(buffer[..offset]), Text(v, format, old(depth)))
      decreases v, 0
    {
      hide Text;
      match v {
        case Null => ok := PrintLiteral(NULL_TEXT);
        case False => ok := PrintLiteral(FALSE_TEXT);
        case True => ok := PrintLiteral(TRUE_TEXT);
        case Number(n) => ok := PrintNumber(n);
        case String(s) => ok := PrintString(s);
        case Array(e) => ok := PrintArray(e);
        case Object(m) => ok := PrintObject(m);
      }
      ScalarText(v, format, old(depth));
    }
  }

  lemma ScalarText(v: Json, fmt: bool, depth: nat)
    ensures v.Null? ==> Text(v, fmt, depth) == NULL_TEXT
    ensures v.False? ==> Text(v, fmt, depth) == FALSE_TEXT
    ensures v.True? ==> Text(v, fmt, depth) == TRUE_TEXT
    ensures v.Number? ==> Text(v, fmt, depth) == IntText(v.number)
    ensures v.String? ==> Text(v, fmt, depth) == Quoted(v.text, [])
  {
  }

  lemma ObjectText(m: Members, fmt: bool, depth: nat)
    ensures Text(Object(m), fmt, depth) ==
            OpenObject(fmt) + (MembersText(m, fmt, depth + 1) + (Indent(fmt, depth) + [RBRACE]))
  {
    RenderMembersThen(m, fmt, depth + 1, Indent(fmt, depth) + ([RBRACE] + []));
    assert [RBRACE] + [] == [RBRACE];
  }

  lemma Assoc6(a: bytes, b: bytes, c: bytes, d: bytes, e: bytes, f: bytes)
    ensures a + (b + (c + (d + (e + f)))) == ((((a + b) + c) + d) + e) + f
  {
  }

  lemma MembersTextStep(m: Members, fmt: bool, depth: nat)
    requires m.Member?
    ensures MembersText(m, fmt, depth) ==
            ((((Indent(fmt, depth) + Quoted(m.key, [])) + KeyGap(fmt)) + Text(m.value, fmt, depth))
            + MemberEnd(fmt, m.next.Member?)) + MembersText(m.next, fmt, depth)
  {
    hide Render, Quoted, Indent, KeyGap, MemberEnd;
    var value, end := Text(m.value, fmt, depth), MemberEnd(fmt, m.next.Member?);
    var tail := MembersText(m.next, fmt, depth);
    RenderThen(m.value, fmt, depth, end + tail);
    QuotedThen(m.key, KeyGap(fmt) + (value + (end + tail)));
    Assoc6(Indent(fmt, depth), Quoted(m.key, []), KeyGap(fmt), value, end, tail);
  }

  lemma ArrayText(e: Elements, fmt: bool, depth: nat)
    ensures Text(Array(e), fmt, depth) ==
            [LBRACKET] + (ElementsText(e, fmt, depth + 1) + [RBRACKET])
  {
    RenderElementsThen(e, fmt, depth + 1, [RBRACKET] + []);
  }

  lemma ElementsTextStep(e: Elements, fmt: bool, depth: nat)
    requires e.Element?
    ensures ElementsText(e, fmt, depth) ==
            (Text(e.value, fmt, depth) + if e.next.Element? then ElementGap(fmt) else [])
            + ElementsText(e.next, fmt, depth)
  {
    if e.next.Element? {
      RenderThen(e.value, fmt, depth, ElementGap(fmt) + ElementsText(e.next, fmt, depth));
    }
  }

  const DEFAULT_BUFFER_SIZE: nat := 256

  /** `print`, behind `cJSON_Print` (`fmt`) and `cJSON_PrintUnformatted`: the whole text and its NUL
      in a block of exactly that size, or null. */
  method Print(v: Json, fmt: bool, realloc: bool, grants: Allocator) returns (printed: array?<byte>)
    requires Storable(v)
    ensures printed != null ==> fresh(printed) && printed[..] == Text(v, fmt, 0) + [0]
    ensures printed != null ==> |Text(v, fmt, 0)| + 2 <= INT_MAX
    ensures NeverFails(grants) && |Text(v, fmt, 0)| + 2 <= INT_MAX ==> printed != null
  {
    hide Text;
    var p := new PrintBuffer.Heap(DEFAULT_BUFFER_SIZE, fmt, realloc, grants);
    if p.buffer == null {
      return null;
    }
    assert p.buffer[..0] == [];
    ghost var text := Text(v, fmt, 0);
    assert [] + text == text;
    var ok := p.PrintAndAdvance(v);
    if !ok || !grants(p.calls) {
      return null;
    }
    printed := new byte[p.offset + 1];
    forall i | 0 <= i < p.offset {
      printed[i] := p.buffer[i];
    }
    printed[p.offset] := 0;
    assert printed[..p.offset] == p.buffer[..p.offset] == text;
    assert printed[..] == printed[..p.offset] + [0];
  }

  /** `cJSON_PrintPreallocated`: succeeds exactly when text, NUL and one more byte fit. */
  method PrintPreallocated(v: Json, target: array?<byte>, length: int, fmt: bool, grants: Allocator)
    returns (ok: bool)
    requires Storable(v) && length <= INT_MAX
    requires target != null && 0 <= length ==> target.Length == length
    modifies target
    ensures ok <==> target != null && |Text(v, fmt, 0)| + 2 <= length
    ensures ok ==> target[..|Text(v, fmt, 0)| + 1] == Text(v, fmt, 0) + [0]
  {
    hide Text;
    if length < 0 || target == null {
      return false;
    }
    var p := new PrintBuffer.Preallocated(target, fmt, grants);
    assert p.buffer[..0] == [];
    ghost var text := Text(v, fmt, 0);
    assert [] + text == text;
    ok := p.PrintValue(v);
    assert ok ==> target[..|text| + 1] == target[..|text|] + [target[|text|]];
  }

  /** The two entry points agree: a caller's buffer with five spare bytes, as the header advises,
      always receives the very text the heap printer returns. */
  method PrintBoth(v: Json, target: array<byte>, fmt: bool, realloc: bool, grants: Allocator)
    returns (heap: array?<byte>, ok: bool)
    requires Storable(v) && target.Length <= INT_MAX
    modifies target
    ensures ok && heap != null ==> heap.Length <= target.Length && target[..heap.Length] == heap[..]
    ensures heap != null && heap.Length - 1 + 5 <= target.Length ==> ok
    ensures ok && NeverFails(grants) ==> heap != null
  {
    hide Text;
    heap := Print(v, fmt, realloc, grants);
    ok := PrintPreallocated(v, target, target.Length, fmt, grants);
    assert heap != null ==> heap.Length == |heap[..]|;
  }
}

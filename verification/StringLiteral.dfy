/** `parse_string`: pass one finds the closing quote and sizes the output, pass two decodes into it.
    `t` is always the input after the opening quote. */
module StringLiteral {
  import opened Bytes
  import opened Utf

  // ----- pass one -----

  /** Index of the quote at which pass one, now at `q`, will stop. */
  function CloseFrom(t: bytes, q: nat): (r: Option<nat>)
    requires q <= |t|
    ensures r.Some? ==> q <= r.value < |t| && t[r.value] == QUOTE
    decreases |t| - q
  {
    if q == |t| then None
    else if t[q] == QUOTE then Some(q)
    else if t[q] == BACKSLASH then
      if q + 1 == |t| then None else CloseFrom(t, q + 2)
    else CloseFrom(t, q + 1)
  }

  /** Pass one looks at position `p`, rather than jumping over it as the second byte of an escape. */
  predicate Visited(t: bytes, p: nat)
    requires p <= |t|
  {
    p == 0 || !(Visited(t, p - 1) && t[p - 1] == BACKSLASH)
  }

  /** How many escapes pass one has seen start before `p`. */
  function Escapes(t: bytes, p: nat): (n: nat)
    requires p <= |t|
    ensures n <= p
  {
    if p == 0 then 0
    else Escapes(t, p - 1) + if Visited(t, p - 1) && t[p - 1] == BACKSLASH then 1 else 0
  }

  /** Pass one: the closing quote and the number of bytes to allocate, without the NUL. */
  method FindClose(t: bytes) returns (end: Option<nat>, allocation: nat)
    ensures end == CloseFrom(t, 0)
    ensures end.Some? ==> Visited(t, end.value) && allocation == end.value + 1 - Escapes(t, end.value)
  {
    var q := 0;
    var skipped := 0;
    allocation := 0;
    while q < |t| && t[q] != QUOTE
      invariant 0 <= q <= |t|
      invariant Visited(t, q) && skipped == Escapes(t, q)
      invariant CloseFrom(t, q) == CloseFrom(t, 0)
    {
      if t[q] == BACKSLASH {
        if q + 1 >= |t| {
          return None, 0;
        }
        skipped := skipped + 1;
        q := q + 1;
      }
      q := q + 1;
    }
    if q >= |t| {
      return None, 0;
    }
    end, allocation := Some(q), q + 1 - skipped;
  }

  // ----- pass two -----

  /** One round of pass two: the bytes written and how far it moves, or a failure. */
  datatype Step = BadStep | Step(out: bytes, length: nat)

  function StepAt(t: bytes, p: nat, end: nat): (r: Step)
    requires p < end < |t|
    ensures r.Step? ==> 1 <= |r.out| && 1 <= r.length && p + r.length <= end + 1
    ensures r.Step? ==> (r.length == 1 && |r.out| == 1 && t[p] != BACKSLASH)
                        || (r.length == 2 && |r.out| == 1)
                        || (r.length == 6 && |r.out| <= 3 && p + 6 <= end)
                        || (r.length == 12 && |r.out| <= 4 && p + 12 <= end)
  {
    if t[p] != BACKSLASH then Step([t[p]], 1)
    else
      match t[p + 1]
      case 0x62 => Step([0x08], 2)
      case 0x66 => Step([0x0c], 2)
      case 0x6e => Step([LF], 2)
      case 0x72 => Step([CR], 2)
      case 0x74 => Step([TAB], 2)
      case 0x22 => Step([t[p + 1]], 2)
      case 0x5c => Step([t[p + 1]], 2)
      case 0x2f => Step([t[p + 1]], 2)
      case 0x75 =>
        var code := CodeAt(t, p, end);
        if code.BadCode? then BadStep else Step(Utf8(code.point), code.length)
      case _ => BadStep
  }

  /** What pass two appends from position `p` on. */
  function Decode(t: bytes, p: nat, end: nat): Option<bytes>
    requires p <= end + 1 <= |t|
    decreases end + 1 - p
  {
    if p >= end then Some([])
    else
      var step := StepAt(t, p, end);
      if step.BadStep? then None else Prepend(step.out, Decode(t, p + step.length, end))
  }

  function Prepend(a: bytes, b: Option<bytes>): Option<bytes> {
    if b.None? then None else Some(a + b.value)
  }

  lemma PrependNothing(b: Option<bytes>)
    ensures Prepend([], b) == b
  {
    if b.Some? {
      assert [] + b.value == b.value;
    }
  }

  lemma PrependTwice(a: bytes, b: bytes, c: Option<bytes>)
    ensures Prepend(a, Prepend(b, c)) == Prepend(a + b, c)
  {
    if c.Some? {
      assert a + (b + c.value) == (a + b) + c.value;
    }
  }

  // ----- the size from pass one bounds what pass two writes -----

  /** Escapes take two bytes, so they start at most at every other position. */
  lemma EscapesApart(t: bytes, p: nat)
    requires p + 2 <= |t|
    ensures Escapes(t, p) <= Escapes(t, p + 1) <= Escapes(t, p + 2) <= Escapes(t, p) + 1
  {
  }

  /** Each round of pass two writes no more than the room pass one allotted to the bytes it eats,
      however the two passes disagree on which backslashes start an escape. */
  lemma StepFits(t: bytes, p: nat, end: nat)
    requires p < end < |t| && StepAt(t, p, end).Step?
    ensures var s := StepAt(t, p, end);
            |s.out| + Escapes(t, p + s.length) <= Escapes(t, p) + s.length
  {
    hide StepAt, Visited;
    var s := StepAt(t, p, end);
    if s.length >= 2 {
      EscapesApart(t, p);
    }
    if s.length >= 6 {
      EscapesApart(t, p + 2);
      EscapesApart(t, p + 4);
    }
    if s.length == 12 {
      EscapesApart(t, p + 6);
      EscapesApart(t, p + 8);
      EscapesApart(t, p + 10);
    }
  }

  lemma {:induction false} RoomGrows(t: bytes, p: nat, q: nat)
    requires p <= q <= |t|
    ensures p - Escapes(t, p) <= q - Escapes(t, q)
    decreases q
  {
    if p == q {
    } else {
      RoomGrows(t, p, q - 1);
    }
  }

  /** The two passes agree on the size for every input: the decoded text and its NUL fit the block
      pass one asked for, even when pass two ends one byte past the closing quote. */
  lemma {:induction false} DecodedFits(t: bytes, p: nat, end: nat)
    requires p <= end + 1 <= |t| && t[end] == QUOTE
    requires Decode(t, p, end).Some?
    ensures |Decode(t, p, end).value| + (p - Escapes(t, p)) <= end + 1 - Escapes(t, end)
    decreases end + 1 - p
  {
    if p >= end {
      RoomGrows(t, end, p);
    } else {
      StepFits(t, p, end);
      DecodedFits(t, p + StepAt(t, p, end).length, end);
    }
  }

  /** Writes one round of pass two at `at`. */
  method PutStep(t: bytes, p: nat, end: nat, out: array<byte>, at: nat) returns (length: nat, next: nat)
    requires p < end < |t| && at <= out.Length
    requires StepAt(t, p, end).Step? ==> at + |StepAt(t, p, end).out| <= out.Length
    modifies out
    ensures length == 0 <==> StepAt(t, p, end).BadStep?
    ensures length != 0 ==> length == StepAt(t, p, end).length
    ensures length != 0 ==> next == at + |StepAt(t, p, end).out| <= out.Length
    ensures length != 0 ==> out[..next] == old(out[..at]) + StepAt(t, p, end).out
  {
    ghost var before := out[..at];
    length, next := 2, at + 1;
    if t[p] != BACKSLASH {
      out[at], length := t[p], 1;
    } else {
      match t[p + 1] {
        case 0x62 => out[at] := 0x08;
        case 0x66 => out[at] := 0x0c;
        case 0x6e => out[at] := LF;
        case 0x72 => out[at] := CR;
        case 0x74 => out[at] := TAB;
        case 0x22 => out[at] := t[p + 1];
        case 0x5c => out[at] := t[p + 1];
        case 0x2f => out[at] := t[p + 1];
        case 0x75 =>
          length, next := PutCode(t, p, end, out, at);
          return;
        case _ => return 0, at;
      }
    }
    assert out[..at + 1] == before + [out[at]];
  }

  /** `utf16_literal_to_utf8`; a length of 0 is its failure. */
  method PutCode(t: bytes, p: nat, end: nat, out: array<byte>, at: nat) returns (length: nat, next: nat)
    requires p < end < |t| && at <= out.Length
    requires var c := CodeAt(t, p, end); c.Code? ==> at + |Utf8(c.point)| <= out.Length
    modifies out
    ensures length == 0 <==> CodeAt(t, p, end).BadCode?
    ensures length != 0 ==> length == CodeAt(t, p, end).length
    ensures length != 0 ==> next == at + |Utf8(CodeAt(t, p, end).point)| <= out.Length
    ensures length != 0 ==> out[..next] == old(out[..at]) + Utf8(CodeAt(t, p, end).point)
  {
    hide Utf8;
    var point;
    length, point := ReadCode(t, p, end);
    next := at;
    if length != 0 {
      var size := PutUtf8(out, at, point);
      next := at + size;
    }
  }

  /** The reading half of `utf16_literal_to_utf8`. */
  method ReadCode(t: bytes, p: nat, end: nat) returns (length: nat, point: nat)
    requires p < end < |t|
    ensures CodeAt(t, p, end) == if length == 0 then BadCode else Code(point, length)
  {
    if end - p < 6 {
      return 0, 0;
    }
    var first := ParseHex4(t, p + 2);
    if 0xDC00 <= first <= 0xDFFF {
      return 0, 0;
    }
    if 0xD800 <= first <= 0xDBFF {
      if end - (p + 6) < 6 {
        return 0, 0;
      }
      if t[p + 6] != BACKSLASH || t[p + 7] != 0x75 {
        return 0, 0;
      }
      var second := ParseHex4(t, p + 8);
      if second < 0xDC00 || second > 0xDFFF {
        return 0, 0;
      }
      return 12, JoinSurrogates(first, second);
    }
    return 6, first;
  }

  /** Pass two over the block that pass one sized: a NUL-terminated copy of the decoded literal, and
      where in the input it stopped. */
  method DecodeInto(t: bytes, end: nat, allocation: nat)
    returns (out: array?<byte>, size: nat, p: nat)
    requires end < |t| && t[end] == QUOTE && allocation == end + 1 - Escapes(t, end)
    ensures out == null <==> Decode(t, 0, end).None?
    ensures p <= end + 1 && (out == null ==> p < end)
    ensures out != null ==> fresh(out) && out.Length == allocation + 1
    ensures out != null ==> size <= allocation && out[size] == 0
    ensures out != null ==> out[..size] == Decode(t, 0, end).value
  {
    hide StepAt, Visited;
    assert Escapes(t, 0) == 0 && Escapes(t, end + 1) == Escapes(t, end);
    RoomGrows(t, 0, end + 1);
    PrependNothing(Decode(t, 0, end));
    hide Escapes;
    var block := new byte[allocation + 1];
    out, size, p := null, 0, 0;
    while p < end
      invariant out == null && fresh(block) && block.Length == allocation + 1
      invariant 0 <= p <= end + 1
      invariant size + Escapes(t, p) <= p && size <= allocation
      invariant Decode(t, 0, end) == Prepend(block[..size], Decode(t, p, end))
      decreases end + 1 - p
    {
      if StepAt(t, p, end).Step? {
        StepFits(t, p, end);
        RoomGrows(t, p + StepAt(t, p, end).length, end + 1);
      }
      ghost var before := block[..size];
      var length, next := PutStep(t, p, end, block, size);
      if length == 0 {
        return;
      }
      PrependTwice(before, StepAt(t, p, end).out, Decode(t, p + length, end));
      size, p := next, p + length;
    }
    block[size] := 0;
    assert block[..size] + [] == block[..size];
    out := block;
  }

  // ----- the whole literal -----

  datatype Literal = NoLiteral | Literal(text: bytes, rest: bytes)

  /** `parse_string` on the input `t`: the C string it stores and the input it leaves. */
  function ParseLiteral(t: bytes): (r: Literal)
    ensures r.Literal? ==> |r.rest| < |t| && NoNul(r.text) && r.rest == t[|t| - |r.rest|..]
  {
    if t == [] || t[0] != QUOTE then NoLiteral
    else
      var body := t[1..];
      var end := CloseFrom(body, 0);
      if end.None? then NoLiteral
      else
        var decoded := Decode(body, 0, end.value);
        if decoded.None? then NoLiteral
        else Literal(CString(decoded.value), body[end.value + 1..])
  }
}

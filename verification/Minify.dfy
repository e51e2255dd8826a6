/** `cJSON_Minify`: a NUL-terminated text is compacted in place. */
module Minify {
  import opened Bytes

  // ----- what remains of a text -----

  /** Behind a one-line comment. */
  function AfterLine(t: bytes): (r: bytes)
    ensures |r| <= |t|
  {
    if t == [] then [] else if t[0] == LF then t[1..] else AfterLine(t[1..])
  }

  /** Behind a multi-line comment. */
  function AfterBlock(t: bytes): (r: bytes)
    ensures |r| <= |t|
  {
    if t == [] then []
    else if |t| > 1 && t[0] == STAR && t[1] == SLASH then t[2..]
    else AfterBlock(t[1..])
  }

  predicate Dropped(c: byte) {
    c == SPACE || c == TAB || c == CR || c == LF
  }

  function Minified(t: bytes): bytes
    decreases |t|
  {
    if t == [] then []
    else if Dropped(t[0]) then Minified(t[1..])
    else if t[0] == SLASH then
      if |t| > 1 && t[1] == SLASH then Minified(AfterLine(t[2..]))
      else if |t| > 1 && t[1] == STAR then Minified(AfterBlock(t[2..]))
      else Minified(t[1..])
    else if t[0] == QUOTE then [QUOTE] + MinifiedString(t[1..])
    else [t[0]] + Minified(t[1..])
  }

  /** The same from inside a string. */
  function MinifiedString(t: bytes): bytes
    decreases |t|
  {
    if t == [] then []
    else if t[0] == QUOTE then [QUOTE] + Minified(t[1..])
    else if |t| > 1 && t[0] == BACKSLASH && t[1] == QUOTE then [BACKSLASH, QUOTE] + MinifiedString(t[2..])
    else [t[0]] + MinifiedString(t[1..])
  }

  // ----- in place -----

  /** `skip_oneline_comment`, past its two slashes. */
  method SkipLine(json: array<byte>, start: nat, ghost t: bytes) returns (r: nat)
    requires Ahead(json, start, t) && NoNul(t)
    ensures start <= r <= |t| && t[r..] == AfterLine(t[start..])
  {
    r := start;
    while json[r] != 0
      invariant start <= r <= |t|
      invariant AfterLine(t[r..]) == AfterLine(t[start..])
      decreases |t| - r
    {
      assert t[r..][1..] == t[r + 1..];
      r := r + 1;
      if json[r - 1] == LF {
        return;
      }
    }
  }

  /** `skip_multiline_comment`, past its opening. */
  method SkipBlock(json: array<byte>, start: nat, ghost t: bytes) returns (r: nat)
    requires Ahead(json, start, t) && NoNul(t)
    ensures start <= r <= |t| && t[r..] == AfterBlock(t[start..])
  {
    r := start;
    while json[r] != 0
      invariant start <= r <= |t|
      invariant AfterBlock(t[r..]) == AfterBlock(t[start..])
      decreases |t| - r
    {
      assert t[r..][1..] == t[r + 1..];
      if json[r] == STAR && json[r + 1] == SLASH {
        assert t[r..][2..] == t[r + 2..];
        r := r + 2;
        return;
      }
      r := r + 1;
    }
  }

  /** Copies one byte from the read to the write cursor. */
  method CopyByte(json: array<byte>, r: nat, w: nat, ghost t: bytes)
    requires w <= r < |t| && Ahead(json, r, t)
    modifies json
    ensures Ahead(json, r + 1, t) && json[..w + 1] == old(json[..w]) + [t[r]]
    ensures forall i :: |t| <= i < json.Length ==> json[i] == old(json[i])
  {
    json[w] := json[r];
  }

  lemma Shift(a: bytes, b: bytes, c: bytes)
    ensures a + (b + c) == (a + b) + c
  {
  }

  lemma StringStep(t: bytes)
    requires t != []
    ensures MinifiedString(t) ==
            if t[0] == QUOTE then [t[0]] + Minified(t[1..])
            else if |t| > 1 && t[0] == BACKSLASH && t[1] == QUOTE then
              ([t[0]] + [t[1]]) + MinifiedString(t[2..])
            else [t[0]] + MinifiedString(t[1..])
  {
  }

  /** `minify_string`, behind the opening quote. */
  method MinifyString(json: array<byte>, r0: nat, w0: nat, ghost t: bytes, ghost all: bytes)
    returns (r: nat, w: nat)
    requires w0 <= r0 && Ahead(json, r0, t) && NoNul(t)
    requires json[..w0] + MinifiedString(t[r0..]) == all
    modifies json
    ensures r0 <= r && w <= r && Ahead(json, r, t)
    ensures json[..w] + Minified(t[r..]) == all
    ensures forall i :: |t| <= i < json.Length ==> json[i] == old(json[i])
  {
    hide Minified, MinifiedString;
    r, w := r0, w0;
    while json[r] != 0
      invariant r0 <= r && w <= r && Ahead(json, r, t)
      invariant json[..w] + MinifiedString(t[r..]) == all
      invariant forall i :: |t| <= i < json.Length ==> json[i] == old(json[i])
      decreases |t| - r
    {
      var c, pair := json[r], json[r] == BACKSLASH && json[r + 1] == QUOTE;
      StringStep(t[r..]);
      assert t[r..][1..] == t[r + 1..];
      ghost var before := json[..w];
      CopyByte(json, r, w, t);
      r, w := r + 1, w + 1;
      if c == QUOTE {
        Shift(before, [c], Minified(t[r..]));
        return;
      }
      if pair {
        assert t[r - 1..][2..] == t[r + 1..];
        Shift(before + [c], [t[r]], MinifiedString(t[r + 1..]));
        Shift(before, [c] + [t[r]], MinifiedString(t[r + 1..]));
        CopyByte(json, r, w, t);
        r, w := r + 1, w + 1;
      } else {
        Shift(before, [c], MinifiedString(t[r..]));
      }
    }
    EmptyMinified();
    assert t[r..] == [];
  }

  lemma EmptyMinified()
    ensures Minified([]) == [] && MinifiedString([]) == []
  {
  }

  /** One turn of the loop in `cJSON_Minify`. */
  method MinifyStep(json: array<byte>, r0: nat, w0: nat, ghost t: bytes, ghost all: bytes)
    returns (r: nat, w: nat)
    requires w0 <= r0 < |t| && Ahead(json, r0, t) && NoNul(t)
    requires json[..w0] + Minified(t[r0..]) == all
    modifies json
    ensures r0 < r && w <= r && Ahead(json, r, t)
    ensures json[..w] + Minified(t[r..]) == all
    ensures forall i :: |t| <= i < json.Length ==> json[i] == old(json[i])
  {
    hide Minified, MinifiedString;
    MinifiedStep(t[r0..]);
    assert t[r0..][1..] == t[r0 + 1..];
    r, w := r0 + 1, w0;
    match json[r0] {
      case 0x20 =>
      case 0x09 =>
      case 0x0d =>
      case 0x0a =>
      case 0x2f =>
        if json[r0 + 1] == SLASH {
          assert t[r0..][2..] == t[r0 + 2..];
          r := SkipLine(json, r0 + 2, t);
        } else if json[r0 + 1] == STAR {
          assert t[r0..][2..] == t[r0 + 2..];
          r := SkipBlock(json, r0 + 2, t);
        }
      case 0x22 =>
        Shift(json[..w], [t[r0]], MinifiedString(t[r0 + 1..]));
        CopyByte(json, r0, w, t);
        r, w := MinifyString(json, r0 + 1, w + 1, t, all);
      case _ =>
        Shift(json[..w], [t[r0]], Minified(t[r0 + 1..]));
        CopyByte(json, r0, w, t);
        w := w + 1;
    }
  }

  lemma MinifiedStep(t: bytes)
    requires t != []
    ensures Minified(t) ==
            if Dropped(t[0]) then Minified(t[1..])
            else if t[0] == SLASH then
              if |t| > 1 && t[1] == SLASH then Minified(AfterLine(t[2..]))
              else if |t| > 1 && t[1] == STAR then Minified(AfterBlock(t[2..]))
              else Minified(t[1..])
            else if t[0] == QUOTE then [t[0]] + MinifiedString(t[1..])
            else [t[0]] + Minified(t[1..])
  {
  }

  /** `cJSON_Minify`. The write cursor never passes the read cursor, so what is read is still the
      original text, and nothing behind its NUL is touched. */
  method MinifyInPlace(json: array<byte>, ghost t: bytes) returns (length: nat)
    requires Ahead(json, 0, t) && NoNul(t)
    modifies json
    ensures length == |Minified(t)| <= |t|
    ensures json[..length] == Minified(t) && json[length] == 0
    ensures forall i :: |t| <= i < json.Length ==> json[i] == old(json[i])
  {
    hide Minified;
    var r: nat, w: nat := 0, 0;
    assert t[0..] == t && json[..0] + Minified(t) == Minified(t);
    while json[r] != 0
      invariant w <= r && Ahead(json, r, t)
      invariant json[..w] + Minified(t[r..]) == Minified(t)
      invariant forall i :: |t| <= i < json.Length ==> json[i] == old(json[i])
      decreases |t| - r
    {
      r, w := MinifyStep(json, r, w, t, Minified(t));
    }
    EmptyMinified();
    assert t[r..] == [] && json[..w] + [] == json[..w];
    json[w] := 0;
    length := w;
  }
}

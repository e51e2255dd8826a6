/** Hexadecimal digits, UTF-16 escapes and UTF-8, as `parse_hex4` and `utf16_literal_to_utf8` use them. */
module Utf {
  import opened Bytes

  // ----- four hexadecimal digits -----

  predicate IsHex(c: byte) {
    0x30 <= c <= 0x39 || 0x41 <= c <= 0x46 || 0x61 <= c <= 0x66
  }

  function HexValue(c: byte): (n: nat)
    requires IsHex(c)
    ensures n < 16
  {
    if c <= 0x39 then c - 0x30 else if c <= 0x46 then c - 0x41 + 10 else c - 0x61 + 10
  }

  /** The number the four bytes of `d` spell, 0 when one of them is no digit. */
  function Hex4(d: bytes): (n: nat)
    requires |d| == 4
    ensures n < 0x10000
  {
    if IsHex(d[0]) && IsHex(d[1]) && IsHex(d[2]) && IsHex(d[3]) then
      ((HexValue(d[0]) * 16 + HexValue(d[1])) * 16 + HexValue(d[2])) * 16 + HexValue(d[3])
    else
      0
  }

  /** `parse_hex4` at position `at` of its input. */
  method ParseHex4(t: bytes, at: nat) returns (h: nat)
    requires at + 4 <= |t|
    ensures h == Hex4(t[at..at + 4])
  {
    ghost var d := t[at..at + 4];
    h := 0;
    var i := 0;
    while i < 4
      invariant 0 <= i <= 4
      invariant forall j :: 0 <= j < i ==> IsHex(d[j])
      invariant i == 1 ==> h == HexValue(d[0]) * 16
      invariant i == 2 ==> h == (HexValue(d[0]) * 16 + HexValue(d[1])) * 16
      invariant i == 3 ==> h == ((HexValue(d[0]) * 16 + HexValue(d[1])) * 16 + HexValue(d[2])) * 16
      invariant i == 4 ==> h == Hex4(d)
      invariant i == 0 ==> h == 0
    {
      var c := t[at + i];
      assert d[i] == c;
      if 0x30 <= c <= 0x39 {
        h := h + c - 0x30;
      } else if 0x41 <= c <= 0x46 {
        h := h + 10 + c - 0x41;
      } else if 0x61 <= c <= 0x66 {
        h := h + 10 + c - 0x61;
      } else {
        return 0;
      }
      if i < 3 {
        h := h * 16;
      }
      i := i + 1;
    }
  }

  // ----- UTF-16 -----

  predicate HighSurrogate(n: int) {
    0xD800 <= n <= 0xDBFF
  }

  predicate LowSurrogate(n: int) {
    0xDC00 <= n <= 0xDFFF
  }

  /** A Unicode scalar value, the only thing UTF-8 encodes (section 3 of RFC 3629). */
  predicate Scalar(cp: int) {
    0 <= cp <= 0x10FFFF && !HighSurrogate(cp) && !LowSurrogate(cp)
  }

  function JoinSurrogates(high: nat, low: nat): nat {
    0x10000 + (high % 0x400) * 0x400 + low % 0x400
  }

  datatype Code = BadCode | Code(point: nat, length: nat)

  /** The escape `\uXXXX` or `\uXXXX\uXXXX` at `p`, in a literal that ends at `end`. */
  function CodeAt(t: bytes, p: nat, end: nat): (r: Code)
    requires p < end <= |t|
    ensures r.Code? ==> Scalar(r.point) && (r.length == 6 || r.length == 12) && p + r.length <= end
    ensures r.Code? && r.length == 6 ==> r.point < 0x10000
  {
    if end - p < 6 then BadCode
    else
      var first := Hex4(t[p + 2..p + 6]);
      if LowSurrogate(first) then BadCode
      else if HighSurrogate(first) then
        if end - (p + 6) < 6 || t[p + 6] != BACKSLASH || t[p + 7] != 0x75 then BadCode
        else
          var second := Hex4(t[p + 8..p + 12]);
          if LowSurrogate(second) then Code(JoinSurrogates(first, second), 12) else BadCode
      else Code(first, 6)
  }

  // ----- UTF-8 -----

  /** The encoding of section 3 of RFC 3629. */
  function Utf8(cp: nat): (r: bytes)
    requires cp <= 0x10FFFF
    ensures 1 <= |r| <= 4
    ensures cp < 0x10000 ==> |r| <= 3
    ensures cp != 0 ==> NoNul(r)
  {
    if cp < 0x80 then [cp]
    else if cp < 0x800 then [0xC0 + cp / 0x40, 0x80 + cp % 0x40]
    else if cp < 0x10000 then
      [0xE0 + cp / 0x1000, 0x80 + cp / 0x40 % 0x40, 0x80 + cp % 0x40]
    else
      [0xF0 + cp / 0x40000, 0x80 + cp / 0x1000 % 0x40, 0x80 + cp / 0x40 % 0x40, 0x80 + cp % 0x40]
  }

  predicate Tail(c: byte) {
    0x80 <= c < 0xC0
  }

  /** The bits a byte with mark `mark` carries. */
  function Bits(c: byte, mark: int): int {
    c - mark
  }

  /** The strict decoder of section 4 of RFC 3629: the first code point and how many bytes it took. */
  function FirstCodePoint(t: bytes): (r: Option<(nat, nat)>)
    ensures r.Some? ==> 0 < r.value.1 <= |t|
  {
    if t == [] then None
    else if t[0] < 0x80 then Some((t[0], 1))
    else if 0xC2 <= t[0] < 0xE0 && |t| >= 2 && Tail(t[1]) then
      Some((Bits(t[0], 0xC0) * 0x40 + Bits(t[1], 0x80), 2))
    else if 0xE0 <= t[0] < 0xF0 && |t| >= 3 && Tail(t[1]) && Tail(t[2]) then
      var cp := Bits(t[0], 0xE0) * 0x1000 + Bits(t[1], 0x80) * 0x40 + Bits(t[2], 0x80);
      if cp >= 0x800 && Scalar(cp) then Some((cp, 3)) else None
    else if 0xF0 <= t[0] < 0xF5 && |t| >= 4 && Tail(t[1]) && Tail(t[2]) && Tail(t[3]) then
      var cp := Bits(t[0], 0xF0) * 0x40000 + Bits(t[1], 0x80) * 0x1000 + Bits(t[2], 0x80) * 0x40 + Bits(t[3], 0x80);
      if 0x10000 <= cp <= 0x10FFFF then Some((cp, 4)) else None
    else None
  }

  lemma SplitCode(cp: nat)
    requires cp < 0x200000
    ensures cp == cp / 0x40 * 0x40 + cp % 0x40
    ensures cp / 0x40 == cp / 0x1000 * 0x40 + cp / 0x40 % 0x40
    ensures cp / 0x1000 == cp / 0x40000 * 0x40 + cp / 0x1000 % 0x40
  {
  }

  /** Whatever follows it, the encoding of a code point gives that code point back. */
  lemma {:induction false} Utf8Recoverable(cp: nat, rest: bytes)
    requires Scalar(cp)
    ensures FirstCodePoint(Utf8(cp) + rest) == Some((cp, |Utf8(cp)|))
  {
    SplitCode(cp);
    var t := Utf8(cp) + rest;
    assert forall i :: 0 <= i < |Utf8(cp)| ==> t[i] == Utf8(cp)[i];
  }

  /** The code point without its last `k` groups of six bits. */
  function Shifted(cp: nat, k: nat): nat {
    if k == 0 then cp else if k == 1 then cp / 0x40 else if k == 2 then cp / 0x1000 else cp / 0x40000
  }

  lemma Utf8Parts(cp: nat)
    requires cp <= 0x10FFFF
    ensures var u := Utf8(cp);
            && |u| == (if cp < 0x80 then 1 else if cp < 0x800 then 2 else if cp < 0x10000 then 3 else 4)
            && (forall j :: 0 < j < |u| ==> u[j] == 0x80 + Shifted(cp, |u| - 1 - j) % 0x40)
            && u[0] == Shifted(cp, |u| - 1) +
                       (if |u| == 1 then 0 else if |u| == 2 then 0xC0 else if |u| == 3 then 0xE0 else 0xF0)
    ensures Shifted(cp, 0) == cp
    ensures forall k {:trigger Shifted(cp, k)} :: 0 < k <= 3 ==> Shifted(cp, k) == Shifted(cp, k - 1) / 0x40
  {
    SplitCode(cp);
  }

  /** The encoding loop of `utf16_literal_to_utf8`: continuation bytes backwards, then the mark. */
  method PutUtf8(out: array<byte>, at: nat, cp: nat) returns (length: nat)
    requires cp <= 0x10FFFF && at + |Utf8(cp)| <= out.Length
    modifies out
    ensures length == |Utf8(cp)|
    ensures out[..at + length] == old(out[..at]) + Utf8(cp)
  {
    var mark := 0;
    if cp < 0x80 {
      length := 1;
    } else if cp < 0x800 {
      length, mark := 2, 0xC0;
    } else if cp < 0x10000 {
      length, mark := 3, 0xE0;
    } else {
      length, mark := 4, 0xF0;
    }
    Utf8Parts(cp);
    hide Utf8, Shifted;
    var code := PutTail(out, at, cp, length);
    out[at] := mark + code;
    assert out[..at + length] == old(out[..at]) + Utf8(cp);
  }

  /** The continuation bytes; what is left of the code point goes into the first byte. */
  method PutTail(out: array<byte>, at: nat, cp: nat, length: nat) returns (code: nat)
    requires cp <= 0x10FFFF && length == |Utf8(cp)| && at + length <= out.Length
    modifies out
    ensures code == Shifted(cp, length - 1)
    ensures forall j :: 0 < j < length ==> out[at + j] == Utf8(cp)[j]
    ensures forall j :: 0 <= j < at ==> out[j] == old(out[j])
  {
    Utf8Parts(cp);
    hide Utf8, Shifted;
    code := cp;
    var position := length - 1;
    while position > 0
      invariant 0 <= position <= length - 1 && code == Shifted(cp, length - 1 - position)
      invariant forall j :: position < j < length ==> out[at + j] == Utf8(cp)[j]
      invariant forall j :: 0 <= j < at ==> out[j] == old(out[j])
    {
      out[at + position] := 0x80 + code % 0x40;
      code := code / 0x40;
      position := position - 1;
    }
  }
}

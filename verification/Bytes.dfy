/** Bytes, C strings and the allocator, as the C sources see them. */
module Bytes {
  type byte = x: int | 0 <= x < 256

  type bytes = seq<byte>

  const INT_MAX: int := 0x7fff_ffff
  const INT_MIN: int := -0x8000_0000

  const QUOTE: byte := 0x22
  const BACKSLASH: byte := 0x5c
  const LBRACKET: byte := 0x5b
  const RBRACKET: byte := 0x5d
  const LBRACE: byte := 0x7b
  const RBRACE: byte := 0x7d
  const COLON: byte := 0x3a
  const COMMA: byte := 0x2c
  const SPACE: byte := 0x20
  const TAB: byte := 0x09
  const LF: byte := 0x0a
  const CR: byte := 0x0d
  const MINUS: byte := 0x2d
  const SLASH: byte := 0x2f
  const STAR: byte := 0x2a

  /** The bytes of a text in the C locale. */
  function Ascii(s: string): (r: bytes)
    requires forall i :: 0 <= i < |s| ==> s[i] < 256 as char
    ensures |r| == |s| && forall i :: 0 <= i < |s| ==> r[i] == s[i] as int
  {
    seq(|s|, i requires 0 <= i < |s| => s[i] as int)
  }

  datatype Option<+T> = None | Some(value: T)

  /** Answers of successive allocation calls: `grants(k)` is false when call k returns NULL. */
  type Allocator = nat -> bool

  ghost predicate NeverFails(grants: Allocator) {
    forall k: nat :: grants(k)
  }

  predicate Int32(n: int) {
    INT_MIN <= n <= INT_MAX
  }

  /** A C string cannot hold a NUL byte. */
  predicate NoNul(s: bytes) {
    forall i :: 0 <= i < |s| ==> s[i] != 0
  }

  /** What `strlen`, `strcmp` and every other reader see of a NUL-terminated buffer. */
  function CString(s: bytes): (r: bytes)
    ensures NoNul(r)
    ensures r <= s
    ensures |r| < |s| ==> s[|r|] == 0
    ensures NoNul(s) ==> r == s
  {
    if s == [] || s[0] == 0 then [] else [s[0]] + CString(s[1..])
  }

  /** A NUL-terminated buffer that held `t` still holds it from position `p` on, whatever was written
      before. */
  ghost predicate Ahead(buffer: array<byte>, p: nat, t: bytes)
    reads buffer
  {
    p <= |t| < buffer.Length && buffer[|t|] == 0 && forall i :: p <= i < |t| ==> buffer[i] == t[i]
  }
}

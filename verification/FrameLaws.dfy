/** Frames against section 5 of RFC 6455: what masking does to bits, the examples of section 5.7, and what the
    reader's three answers mean for arbitrary bytes. */
module FrameLaws {
  import opened Bytes
  import opened Frames

  // ----- masking, bit by bit -----

  function Bit(a: nat, k: nat): nat {
    if k == 0 then a % 2 else Bit(a / 2, k - 1)
  }

  /** A bit of the result is set exactly where the bits of key and payload differ. */
  lemma {:induction false} XorBitLaw(a: nat, b: nat, n: nat, k: nat)
    requires k < n
    ensures Bit(XorBits(a, b, n), k) == 1 <==> Bit(a, k) != Bit(b, k)
  {
    var r := XorBits(a, b, n);
    if k == 0 {
    } else {
      assert r / 2 == XorBits(a / 2, b / 2, n - 1);
      XorBitLaw(a / 2, b / 2, n - 1, k - 1);
    }
  }

  // ----- the examples -----

  const HELLO: bytes := [0x48, 0x65, 0x6c, 0x6c, 0x6f]
  const KEY: bytes := [0x37, 0xfa, 0x21, 0x3d]

  lemma MaskedH()
    ensures XorBits(0x48, 0x37, 8) == 0x7f
  {
    hide Pow2;
    assert XorBits(0x04, 0x03, 4) == 0x07;
    assert XorBits(0x12, 0x0d, 6) == 0x1f;
  }

  lemma MaskedE()
    ensures XorBits(0x65, 0xfa, 8) == 0x9f
  {
    hide Pow2;
    assert XorBits(0x06, 0x0f, 4) == 0x09;
    assert XorBits(0x19, 0x3e, 6) == 0x27;
  }

  lemma MaskedFirstL()
    ensures XorBits(0x6c, 0x21, 8) == 0x4d
  {
    hide Pow2;
    assert XorBits(0x06, 0x02, 4) == 0x04;
    assert XorBits(0x1b, 0x08, 6) == 0x13;
  }

  lemma MaskedSecondL()
    ensures XorBits(0x6c, 0x3d, 8) == 0x51
  {
    hide Pow2;
    assert XorBits(0x06, 0x03, 4) == 0x05;
    assert XorBits(0x0d, 0x06, 5) == 0x0b;
    assert XorBits(0x1b, 0x0f, 6) == 0x14;
    assert XorBits(0x36, 0x1e, 7) == 0x28;
  }

  lemma MaskedO()
    ensures XorBits(0x6f, 0x37, 8) == 0x58
  {
    hide Pow2;
    assert XorBits(0x06, 0x03, 4) == 0x05;
    assert XorBits(0x0d, 0x06, 5) == 0x0b;
    assert XorBits(0x1b, 0x0d, 6) == 0x16;
    assert XorBits(0x37, 0x1b, 7) == 0x2c;
  }

  lemma HelloMasked()
    ensures Mask(HELLO, KEY) == [0x7f, 0x9f, 0x4d, 0x51, 0x58]
  {
    hide XorBits, Pow2;
    MaskedH();
    MaskedE();
    MaskedFirstL();
    MaskedSecondL();
    MaskedO();
  }

  /** What the server sends in section 5.7: a text, a ping, and the header of 256 bytes. */
  lemma SentExamples(data: bytes)
    requires |data| == 256
    ensures Sent(TEXT, HELLO) == [0x81, 0x05, 0x48, 0x65, 0x6c, 0x6c, 0x6f]
    ensures Sent(PING, HELLO) == [0x89, 0x05, 0x48, 0x65, 0x6c, 0x6c, 0x6f]
    ensures Sent(0x2, data) == [0x82, 0x7e, 0x01, 0x00] + data
  {
  }

  /** What a client sends there, masked: a text (opcode 1) and a pong (opcode 10). */
  lemma ReadExample(op: nat)
    requires op < 16
    ensures ScanFrame([0x80 + op, 0x85, 0x37, 0xfa, 0x21, 0x3d, 0x7f, 0x9f, 0x4d, 0x51, 0x58], false, READ_BUFFER)
            == Take(11, op, HELLO)
  {
    HelloMasked();
    hide Mask, ScanFrame;
    var f := Frame(0, op, false, KEY, HELLO);
    ScanWholeFrame(f, [], false, READ_BUFFER);
    assert Encode(f) + [] == [0x80 + op, 0x85, 0x37, 0xfa, 0x21, 0x3d, 0x7f, 0x9f, 0x4d, 0x51, 0x58];
  }

  // ----- the reader's answers -----

  lemma ScanParts(s: bytes, outSize: nat)
    requires outSize > 0 && |s| >= 2 && s[0] >= FIN && s[1] >= MASKED && s[1] % 128 != 127
    ensures s[1] % 128 < 126 ==> ScanFrame(s, false, outSize) == ScanBody(s, 6, s[1] % 128, outSize)
    ensures s[1] % 128 == 126 && |s| >= 4 ==>
              ScanFrame(s, false, outSize) == ScanBody(s, 8, 256 * (s[2] as int) + s[3], outSize)
    ensures s[1] % 128 == 126 && |s| < 4 ==> ScanFrame(s, false, outSize) == Wait
  {
  }

  /** The frame that these bytes encode. */
  function FrameOf(s: bytes): Frame
    requires |s| >= 6 && (s[1] % 128 == 126 ==> |s| >= 8)
  {
    var h := if s[1] % 128 == 126 then 8 else 6;
    Frame(s[0] / 16 % 8, s[0] % 16, h == 8, s[h - 4..h], Mask(s[h..], s[h - 4..h]))
  }

  lemma {:induction false} EncodedAgain(s: bytes, h: nat, n: nat)
    requires 0 <= n <= 0xffff && |s| == h + n && h >= 6 && s[0] >= FIN && MASKED <= s[1] < 255
    requires if s[1] == 254 then h == 8 && n == 256 * (s[2] as int) + s[3] else h == 6 && n == s[1] - MASKED
    ensures WellFormed(FrameOf(s)) && Encode(FrameOf(s)) == s && HeaderSize(FrameOf(s)) == h
  {
    hide Mask;
    var f := FrameOf(s);
    MaskTwice(s[h..], s[h - 4..h]);
    EncodeParts(f);
    var e := Encode(f);
    hide Encode;
    assert forall i :: 0 <= i < h - 4 ==> e[i] == s[i];
    SameParts(e, s, h);
  }

  lemma SameParts(e: bytes, s: bytes, h: nat)
    requires |e| == |s| && 4 <= h <= |s|
    requires e[h - 4..h] == s[h - 4..h] && e[h..] == s[h..] && forall i :: 0 <= i < h - 4 ==> e[i] == s[i]
    ensures e == s
  {
    assert e[..h - 4] == s[..h - 4];
    assert e == e[..h - 4] + e[h - 4..h] + e[h..] && s == s[..h - 4] + s[h - 4..h] + s[h..];
  }

  lemma FrontSlices(s: bytes, h: nat, n: nat)
    requires 4 <= h && h + n <= |s|
    ensures s[..h + n][h..] == s[h..h + n] && s[..h + n][h - 4..h] == s[h - 4..h]
  {
  }

  /** Whatever the reader takes is one whole frame: final, masked, of a length it can hold. */
  lemma {:induction false} TakenIsFrame(s: bytes, outSize: nat) returns (f: Frame)
    requires ScanFrame(s, false, outSize).Take?
    ensures WellFormed(f) && Fits(f, outSize) && Encode(f) <= s
    ensures ScanFrame(s, false, outSize) == Take(|Encode(f)|, f.opcode, f.payload)
  {
    hide Mask, Encode;
    ScanParts(s, outSize);
    var wide := s[1] % 128 == 126;
    var h: nat := if wide then 8 else 6;
    var n: nat := if wide then 256 * (s[2] as int) + s[3] else s[1] % 128;
    var all := s[..h + n];
    EncodedAgain(all, h, n);
    f := FrameOf(all);
    FrontSlices(s, h, n);
  }

  /** While it waits, less than two bytes have arrived, or part of such a frame, which fits as soon as its
      length is known. So an unmasked frame, a fragment or a 64-bit length is refused with its second byte. */
  lemma {:induction false} WaitingForFrame(s: bytes, outSize: nat) returns (f: Frame)
    requires ScanFrame(s, false, outSize) == Wait && |s| >= 2
    ensures WellFormed(f) && s < Encode(f)
    ensures !f.wide || |s| >= 4 ==> Fits(f, outSize)
  {
    hide Mask, Encode;
    ScanParts(s, outSize);
    var wide := s[1] % 128 == 126;
    var h: nat := if wide then 8 else 6;
    var n: nat :=
      if !wide then s[1] % 128
      else 256 * (if |s| > 2 then s[2] as int else 0) + (if |s| > 3 then s[3] as int else 0);
    var all := s + seq(h + n - |s|, _ => 0);
    EncodedAgain(all, h, n);
    f := FrameOf(all);
  }

  /** And nothing that begins with a frame it can take, or could become one, is refused. */
  lemma NeverRefused(s: bytes, outSize: nat, f: Frame)
    requires WellFormed(f) && Fits(f, outSize) && (Encode(f) <= s || s < Encode(f))
    ensures ScanFrame(s, false, outSize) != Refuse
  {
  }

  /** What follows a frame that has been taken: nothing after a close frame, which ends the connection; the same
      payload as a pong after a ping; the number of bytes of a text; and 1 for any other frame. */
  lemma ReplyLaw(f: Frame, rest: bytes, outSize: nat, room: nat)
    requires WellFormed(f) && Fits(f, outSize)
    ensures var r, n := ReplyTo(Encode(f) + rest, false, outSize, room), |f.payload|;
            && r.consumed == |Encode(f)|
            && (f.opcode == 8 ==> r.rc == -1 && r.sent == [])
            && (f.opcode == 9 && n < 126 && n + 2 <= room ==> r.rc == 0 && r.sent == [0x8a, n] + f.payload)
            && (f.opcode == 9 && n < 126 && n + 2 > room ==> r.rc == -1 && r.sent == ([0x8a, n] + f.payload)[..room])
            && (f.opcode == 1 ==> r.rc == n && r.sent == [])
            && (f.opcode !in {1, 8, 9} ==> r.rc == 1 && r.sent == [])
  {
    hide ScanFrame, Encode;
    ScanWholeFrame(f, rest, false, outSize);
  }

  /** The loop of `process_ws_connection` goes on exactly after frames that give a positive value. */
  lemma ContinuesLaw(f: Frame, rest: bytes, outSize: nat, room: nat)
    requires WellFormed(f) && Fits(f, outSize)
    ensures Continues(f) <==> ReplyTo(Encode(f) + rest, false, outSize, room).rc > 0
  {
    hide ScanFrame, Encode;
    ScanWholeFrame(f, rest, false, outSize);
  }
}

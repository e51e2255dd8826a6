/** The frames of the WebSocket protocol (sections 5.2 and 5.3 of RFC 6455) as realtime_ws.c writes and
    reads them. Bytes are numbers, so bit masks are written as arithmetic. */
module Frames {
  import opened Bytes

  const FIN: int := 0x80
  const MASKED: int := 0x80
  const MAX_SENT: nat := 4096                                       // longest payload `ws_send_frame` takes
  const FRAME_BUFFER: nat := 4200                                   // sizeof frame in `rt_ws_read_frame`

  const CLOSE: int := 0x8
  const PING: int := 0x9
  const PONG: int := 0xa
  const TEXT: int := 0x1

  // ----- masking -----

  function Pow2(n: nat): (p: nat)
    ensures p > 0
  {
    if n == 0 then 1 else 2 * Pow2(n - 1)
  }

  /** Exclusive or of the low `n` bits. */
  function XorBits(a: nat, b: nat, n: nat): (r: nat)
    ensures r < Pow2(n)
  {
    if n == 0 then 0
    else (if a % 2 == b % 2 then 0 else 1) + 2 * XorBits(a / 2, b / 2, n - 1)
  }

  function Xor(a: byte, b: byte): byte {
    assert Pow2(8) == 256;
    XorBits(a, b, 8)
  }

  lemma {:induction false} XorBitsTwice(a: nat, b: nat, n: nat)
    requires a < Pow2(n)
    ensures XorBits(XorBits(a, b, n), b, n) == a
  {
    if n == 0 {
    } else {
      var r := XorBits(a, b, n);
      assert r / 2 == XorBits(a / 2, b / 2, n - 1);
      XorBitsTwice(a / 2, b / 2, n - 1);
    }
  }

  lemma XorTwice(a: byte, b: byte)
    ensures Xor(Xor(a, b), b) == a
  {
    assert Pow2(8) == 256;
    XorBitsTwice(a, b, 8);
  }

  /** Masking and unmasking: every fourth byte meets the same byte of the key. */
  function Mask(payload: bytes, key: bytes): (r: bytes)
    requires |key| == 4
    ensures |r| == |payload|
    ensures forall i :: 0 <= i < |r| ==> r[i] == Xor(payload[i], key[i % 4])
  {
    seq(|payload|, i requires 0 <= i < |payload| => Xor(payload[i], key[i % 4]))
  }

  lemma MaskTwice(payload: bytes, key: bytes)
    requires |key| == 4
    ensures Mask(Mask(payload, key), key) == payload
  {
    hide Xor;
    var r := Mask(Mask(payload, key), key);
    forall i | 0 <= i < |payload|
      ensures r[i] == payload[i]
    {
      XorTwice(payload[i], key[i % 4]);
    }
  }

  // ----- frames from the client -----

  /** A final, masked frame. `wide` chooses the two-byte length also where one byte would do. */
  datatype Frame = Frame(reserved: nat, opcode: nat, wide: bool, key: bytes, payload: bytes)

  predicate WellFormed(f: Frame) {
    && f.reserved < 8 && f.opcode < 16 && |f.key| == 4
    && |f.payload| <= 0xffff && (|f.payload| < 126 || f.wide)
  }

  /** The length part of a header; `flag` is the mask bit. */
  function LengthBytes(n: nat, wide: bool, flag: int): (r: bytes)
    requires n <= 0xffff && (n < 126 || wide) && flag in {0, MASKED}
    ensures |r| == if wide then 3 else 1
  {
    if wide then [flag + 126, n / 256, n % 256] else [flag + n]
  }

  function Encode(f: Frame): (r: bytes)
    requires WellFormed(f)
  {
    [FIN + 16 * f.reserved + f.opcode] + LengthBytes(|f.payload|, f.wide, MASKED) + f.key + Mask(f.payload, f.key)
  }

  function HeaderSize(f: Frame): nat {
    if f.wide then 8 else 6
  }

  // ----- the reader -----

  /** `Wait`: not enough has arrived. `Refuse`: the connection is to be closed. Neither consumes anything. */
  datatype Scan = Wait | Refuse | Take(length: nat, opcode: nat, payload: bytes)

  /** What `rt_ws_read_frame` makes of the bytes that have arrived and were not consumed. */
  function ScanFrame(s: bytes, ended: bool, outSize: nat): Scan {
    if outSize == 0 || (s == [] && ended) then Refuse
    else if |s| < 2 then Wait
    else if s[1] < MASKED || s[0] < FIN || s[1] % 128 == 127 then Refuse
    else if s[1] % 128 < 126 then ScanBody(s, 6, s[1] % 128, outSize)
    else if |s| < 4 then Wait
    else
      var high: int, low: int := s[2], s[3];
      ScanBody(s, 8, 256 * high + low, outSize)
  }

  /** The rest of the frame after a header of `header` bytes, mask included. */
  function ScanBody(s: bytes, header: nat, n: nat, outSize: nat): Scan
    requires 4 <= header && |s| >= 2
  {
    if n + 1 > outSize || header + n > FRAME_BUFFER then Refuse
    else if |s| < header + n then Wait
    else Take(header + n, s[0] % 16, Mask(s[header..header + n], s[header - 4..header]))
  }

  /** The reader can take this frame. */
  predicate Fits(f: Frame, outSize: nat) {
    |f.payload| + 1 <= outSize && HeaderSize(f) + |f.payload| <= FRAME_BUFFER
  }

  lemma EncodeParts(f: Frame)
    requires WellFormed(f)
    ensures var e, h, n := Encode(f), HeaderSize(f), |f.payload|;
            && |e| == h + n
            && e[0] == FIN + 16 * f.reserved + f.opcode
            && e[1] == MASKED + (if f.wide then 126 else n)
            && (f.wide ==> e[2] == n / 256 && e[3] == n % 256)
            && e[h - 4..h] == f.key && e[h..] == Mask(f.payload, f.key)
  {
  }

  /** A frame is taken as a whole, with its payload unmasked, whatever follows it on the stream; a frame
      that does not fit is refused. */
  lemma ScanWholeFrame(f: Frame, rest: bytes, ended: bool, outSize: nat)
    requires WellFormed(f)
    ensures ScanFrame(Encode(f) + rest, ended, outSize) ==
            if Fits(f, outSize) then Take(|Encode(f)|, f.opcode, f.payload) else Refuse
  {
    hide Encode, Mask;
    var e, h, n := Encode(f), HeaderSize(f), |f.payload|;
    var s := e + rest;
    EncodeParts(f);
    MaskTwice(f.payload, f.key);
    assert s[0] == e[0] && s[1] == e[1] && (f.wide ==> s[2] == e[2] && s[3] == e[3]);
    assert s[h..h + n] == e[h..] && s[h - 4..h] == e[h - 4..h];
    assert ScanFrame(s, ended, outSize) == if outSize == 0 then Refuse else ScanBody(s, h, n, outSize);
  }

  /** As long as part of a frame that fits is missing, the reader waits. */
  lemma ScanPartialFrame(f: Frame, k: nat, outSize: nat)
    requires WellFormed(f) && Fits(f, outSize) && k < |Encode(f)|
    ensures ScanFrame(Encode(f)[..k], false, outSize) == Wait
  {
  }

  // ----- any division of a stream into arrivals -----

  function EncodeAll(frames: seq<Frame>): bytes
    requires forall i :: 0 <= i < |frames| ==> WellFormed(frames[i])
  {
    if frames == [] then [] else Encode(frames[0]) + EncodeAll(frames[1..])
  }

  /** Bytes arrive, or the reader is called; a read may be interrupted. */
  datatype Event = Arrive(data: bytes) | Read(interrupted: bool)

  datatype Message = Message(opcode: nat, payload: bytes)

  /** What is waiting on the socket, and what the reads have taken so far. */
  datatype Stream = Stream(waiting: bytes, taken: seq<Message>, refused: bool)

  function Happen(t: Stream, e: Event, outSize: nat): Stream {
    match e
    case Arrive(data) => t.(waiting := t.waiting + data)
    case Read(interrupted) =>
      if interrupted then t
      else
        match ScanFrame(t.waiting, false, outSize)
        case Wait => t
        case Refuse => t.(refused := true)
        case Take(n, opcode, payload) =>
          if n <= |t.waiting| then
            t.(waiting := t.waiting[n..], taken := t.taken + [Message(opcode, payload)])
          else t
  }

  function HappenAll(t: Stream, events: seq<Event>, outSize: nat): Stream
    decreases |events|
  {
    if events == [] then t else HappenAll(Happen(t, events[0], outSize), events[1..], outSize)
  }

  function Arrivals(events: seq<Event>): bytes {
    if events == [] then []
    else (if events[0].Arrive? then events[0].data else []) + Arrivals(events[1..])
  }

  function Messages(frames: seq<Frame>): (r: seq<Message>)
    ensures |r| == |frames|
    ensures forall i :: 0 <= i < |r| ==> r[i] == Message(frames[i].opcode, frames[i].payload)
  {
    seq(|frames|, i requires 0 <= i < |frames| => Message(frames[i].opcode, frames[i].payload))
  }

  ghost predicate AllFit(frames: seq<Frame>, outSize: nat) {
    forall i :: 0 <= i < |frames| ==> WellFormed(frames[i]) && Fits(frames[i], outSize)
  }

  /** The frames still to be taken begin on the waiting bytes: they are these bytes and what is to come. */
  ghost predicate Aligned(t: Stream, frames: seq<Frame>, coming: bytes, outSize: nat) {
    !t.refused && AllFit(frames, outSize) && EncodeAll(frames) == t.waiting + coming
  }

  /** One read, seen from the frames still to be taken: it takes the first frame if it has arrived as a
      whole, and nothing otherwise. */
  lemma ReadAligned(t: Stream, frames: seq<Frame>, coming: bytes, outSize: nat)
    requires Aligned(t, frames, coming, outSize) && outSize > 0
    ensures var u := Happen(t, Read(false), outSize);
            if frames != [] && |Encode(frames[0])| <= |t.waiting| then
              Aligned(u, frames[1..], coming, outSize)
              && u.taken == t.taken + [Message(frames[0].opcode, frames[0].payload)]
              && |u.waiting| < |t.waiting|
            else u == t
  {
    hide Encode, ScanFrame;
    if frames == [] {
      assert ScanFrame([], false, outSize) == Wait by { ScanNothing(outSize); }
      assert t.waiting == [];
    } else {
      var f := frames[0];
      var e, all := Encode(f), EncodeAll(frames);
      assert all == e + EncodeAll(frames[1..]);
      EncodeParts(f);
      if |e| <= |t.waiting| {
        var rest := t.waiting[|e|..];
        assert t.waiting == e + rest by {
          assert t.waiting == all[..|t.waiting|];
        }
        ScanWholeFrame(f, rest, false, outSize);
        assert rest + coming == EncodeAll(frames[1..]) by {
          assert all[|e|..] == rest + coming;
        }
      } else {
        assert t.waiting == e[..|t.waiting|] by {
          assert t.waiting == all[..|t.waiting|];
        }
        ScanPartialFrame(f, |t.waiting|, outSize);
      }
    }
  }

  lemma ScanNothing(outSize: nat)
    requires outSize > 0
    ensures ScanFrame([], false, outSize) == Wait
  {
  }

  /** Whatever the division into arrivals and whenever the reader is called, it takes whole frames only,
      and their payloads in order; it never refuses one. */
  lemma {:induction false} AnySplitting(t: Stream, events: seq<Event>, frames: seq<Frame>, coming: bytes, outSize: nat)
    returns (n: nat)
    requires Aligned(t, frames, Arrivals(events) + coming, outSize) && outSize > 0
    ensures n <= |frames|
    ensures var u := HappenAll(t, events, outSize);
            u.taken == t.taken + Messages(frames[..n]) && Aligned(u, frames[n..], coming, outSize)
    decreases |events|
  {
    hide Happen, Aligned, Messages, EncodeAll, AllFit;
    if events == [] {
      n := 0;
      NoneTaken(t, frames, coming, outSize);
    } else {
      var e, rest := events[0], events[1..];
      var u, more := Happen(t, e, outSize), Arrivals(rest) + coming;
      assert Arrivals(events) + coming == (if e.Arrive? then e.data else []) + more;
      match e
      case Arrive(data) =>
        ArriveAligned(t, data, frames, more, outSize);
        n := AnySplitting(u, rest, frames, coming, outSize);
      case Read(interrupted) =>
        assert [] + more == more;
        InterruptedChangesNothing(t, outSize);
        ReadAligned(t, frames, more, outSize);
        if u != t {
          var m := AnySplitting(u, rest, frames[1..], coming, outSize);
          n := m + 1;
          OneMore(t.taken, frames, m);
        } else {
          n := AnySplitting(u, rest, frames, coming, outSize);
        }
    }
  }

  lemma ArriveAligned(t: Stream, data: bytes, frames: seq<Frame>, more: bytes, outSize: nat)
    requires Aligned(t, frames, data + more, outSize)
    ensures Aligned(Happen(t, Arrive(data), outSize), frames, more, outSize)
    ensures Happen(t, Arrive(data), outSize).taken == t.taken
  {
  }

  lemma InterruptedChangesNothing(t: Stream, outSize: nat)
    ensures Happen(t, Read(true), outSize) == t
  {
  }

  lemma NoneTaken(t: Stream, frames: seq<Frame>, coming: bytes, outSize: nat)
    requires Aligned(t, frames, [] + coming, outSize)
    ensures t.taken == t.taken + Messages(frames[..0]) && Aligned(t, frames[0..], coming, outSize)
  {
  }

  lemma OneMore(taken: seq<Message>, frames: seq<Frame>, m: nat)
    requires m < |frames|
    ensures taken + [Message(frames[0].opcode, frames[0].payload)] + Messages(frames[1..][..m])
            == taken + Messages(frames[..m + 1])
    ensures frames[1..][m..] == frames[m + 1..]
  {
  }

  lemma FirstWaits(t: Stream, frames: seq<Frame>, outSize: nat)
    requires Aligned(t, frames, [], outSize)
    ensures !t.refused
    ensures frames == [] ==> t.waiting == []
    ensures frames != [] ==> WellFormed(frames[0]) && |Encode(frames[0])| <= |t.waiting|
  {
  }

  /** Once everything has arrived, as many further reads as there are frames take them all. */
  lemma {:induction false} ReadsDrain(t: Stream, frames: seq<Frame>, calls: nat, outSize: nat)
    requires Aligned(t, frames, [], outSize) && outSize > 0 && |frames| <= calls
    ensures HappenAll(t, seq(calls, _ => Read(false)), outSize) ==
            Stream([], t.taken + Messages(frames), false)
    decreases calls
  {
    hide Happen, Aligned, Encode, EncodeAll, AllFit;
    var events := seq(calls, _ => Read(false));
    FirstWaits(t, frames, outSize);
    if frames == [] {
      if calls > 0 {
        ReadAligned(t, frames, [], outSize);
        assert events[1..] == seq(calls - 1, _ => Read(false));
        ReadsDrain(t, frames, calls - 1, outSize);
      }
    } else {
      ReadAligned(t, frames, [], outSize);
      assert events[1..] == seq(calls - 1, _ => Read(false));
      var u := Happen(t, Read(false), outSize);
      ReadsDrain(u, frames[1..], calls - 1, outSize);
      assert u.taken + Messages(frames[1..]) == t.taken + Messages(frames);
    }
  }

  const READ_BUFFER: nat := 4096                                    // frame[] of `process_ws_connection`

  /** Every division of a sequence of frames with payloads up to 4095 bytes into arrivals, with reads and
      interruptions in between, delivers exactly the payloads, in order, once enough reads have followed. */
  lemma StreamDelivers(events: seq<Event>, frames: seq<Frame>, calls: nat)
    requires forall i :: 0 <= i < |frames| ==> WellFormed(frames[i]) && |frames[i].payload| <= 4095
    requires Arrivals(events) == EncodeAll(frames) && |frames| <= calls
    ensures HappenAll(Stream([], [], false), events + seq(calls, _ => Read(false)), READ_BUFFER) ==
            Stream([], Messages(frames), false)
  {
    hide Encode, EncodeAll, Happen, HappenAll, Arrivals;
    var t, reading := Stream([], [], false), seq(calls, _ => Read(false));
    assert Aligned(t, frames, Arrivals(events) + [], READ_BUFFER);
    var n := AnySplitting(t, events, frames, [], READ_BUFFER);
    var u := HappenAll(t, events, READ_BUFFER);
    HappenConcat(t, events, reading, READ_BUFFER);
    ReadsDrain(u, frames[n..], calls, READ_BUFFER);
    assert Messages(frames[..n]) + Messages(frames[n..]) == Messages(frames);
    assert u.taken == [] + Messages(frames[..n]) == Messages(frames[..n]);
  }

  lemma {:induction false} HappenConcat(t: Stream, a: seq<Event>, b: seq<Event>, outSize: nat)
    ensures HappenAll(t, a + b, outSize) == HappenAll(HappenAll(t, a, outSize), b, outSize)
    decreases |a|
  {
    hide Happen;
    if a == [] {
      assert a + b == b;
    } else {
      assert (a + b)[0] == a[0] && (a + b)[1..] == a[1..] + b;
      HappenConcat(Happen(t, a[0], outSize), a[1..], b, outSize);
    }
  }

  // ----- frames from the server -----

  /** The bytes `ws_send_frame` writes for a payload it accepts. */
  function Sent(opcode: nat, payload: bytes): bytes
    requires opcode < 16 && |payload| <= MAX_SENT
  {
    [FIN + opcode] + LengthBytes(|payload|, |payload| >= 126, 0) + payload
  }

  /** The same frame as a client sends it: mask bit set, key inserted, payload masked. */
  function MaskedByClient(frame: bytes, key: bytes): bytes
    requires |frame| >= 2 && |key| == 4 && frame[1] < 128
    requires frame[1] == 126 ==> |frame| >= 4
  {
    var h := if frame[1] == 126 then 4 else 2;
    [frame[0], frame[1] + MASKED] + frame[2..h] + key + Mask(frame[h..], key)
  }

  /** A frame of `ws_send_frame`, masked by the client, reads back to opcode and payload exactly when the
      payload leaves room for the terminator: with the server's 4096-byte buffer, the longest payload
      that can be sent cannot be read. */
  lemma SentReadsBack(opcode: nat, payload: bytes, key: bytes, rest: bytes, ended: bool, outSize: nat)
    requires opcode < 16 && |payload| <= MAX_SENT && |key| == 4
    ensures var frame := Sent(opcode, payload);
            && |frame| >= 2 && frame[1] < 128 && (frame[1] == 126 ==> |frame| >= 4)
            && var masked := MaskedByClient(frame, key);
               ScanFrame(masked + rest, ended, outSize) ==
               if |payload| < outSize then Take(|masked|, opcode, payload) else Refuse
  {
    hide ScanFrame, Mask;
    var f := Frame(0, opcode, |payload| >= 126, key, payload);
    var frame := Sent(opcode, payload);
    var h := if f.wide then 4 else 2;
    assert frame[h..] == payload;
    assert MaskedByClient(frame, key) == Encode(f);
    ScanWholeFrame(f, rest, ended, outSize);
  }

  // ----- what the reader returns -----

  /** The return value of a read that meets no fault, how much it consumes, and what it sends. */
  datatype Reply = Reply(rc: int, consumed: nat, sent: bytes)

  /** `room`: how many bytes the connection still takes. */
  function ReplyTo(s: bytes, ended: bool, outSize: nat, room: nat): Reply {
    match ScanFrame(s, ended, outSize)
    case Wait => Reply(0, 0, [])
    case Refuse => Reply(-1, 0, [])
    case Take(n, opcode, payload) =>
      if opcode == CLOSE then Reply(-1, n, [])
      else if opcode == PING then
        if |payload| > MAX_SENT then Reply(-1, n, [])
        else
          var pong := Sent(PONG, payload);
          if |pong| <= room then Reply(0, n, pong) else Reply(-1, n, pong[..room])
      else if opcode == TEXT then Reply(|payload|, n, [])
      else Reply(1, n, [])
  }

  /** A frame that is taken although the return value reads "nothing to read yet": text without payload, or
      a ping that is answered. */
  predicate Quiet(scan: Scan, room: nat) {
    && scan.Take?
    && ((scan.opcode == TEXT && scan.payload == [])
        || (scan.opcode == PING && |scan.payload| <= MAX_SENT && |Sent(PONG, scan.payload)| <= room))
  }

  /** What the return value 0 means, for all bytes that may have arrived: either nothing can be taken yet,
      or a quiet frame has been taken, and a frame has been taken exactly in the second case. */
  lemma ZeroMeans(s: bytes, ended: bool, outSize: nat, room: nat)
    ensures var scan, r := ScanFrame(s, ended, outSize), ReplyTo(s, ended, outSize, room);
            && (r.rc == 0 <==> scan == Wait || Quiet(scan, room))
            && (r.rc == 0 && r.consumed > 0 <==> Quiet(scan, room))
  {
    hide Mask, Sent;
  }

  /** Text of no length and a ping: both are consumed, and both give 0. */
  lemma ZeroWitnesses()
    ensures var empty := Encode(Frame(0, TEXT, false, [1, 2, 3, 4], []));
            ReplyTo(empty, false, READ_BUFFER, 0) == Reply(0, |empty|, [])
    ensures var ping := Encode(Frame(0, PING, false, [1, 2, 3, 4], [7]));
            ReplyTo(ping, false, READ_BUFFER, 100) == Reply(0, |ping|, Sent(PONG, [7]))
  {
    hide Encode, ScanFrame, Mask;
    var empty, ping := Frame(0, TEXT, false, [1, 2, 3, 4], []), Frame(0, PING, false, [1, 2, 3, 4], [7]);
    ScanWholeFrame(empty, [], false, READ_BUFFER);
    ScanWholeFrame(ping, [], false, READ_BUFFER);
    assert Encode(empty) + [] == Encode(empty) && Encode(ping) + [] == Encode(ping);
  }

  // ----- how far one round of reads goes -----

  /** After this frame the loop of `process_ws_connection` goes on reading. */
  predicate Continues(f: Frame) {
    f.opcode != CLOSE && f.opcode != PING && (f.opcode == TEXT ==> f.payload != [])
  }

  /** How many of the frames that have arrived the loop takes: all up to and including the first one after
      which it stops. */
  function Batch(frames: seq<Frame>): (n: nat)
    ensures n <= |frames|
    ensures forall i :: 0 <= i < n - 1 ==> Continues(frames[i])
    ensures n < |frames| ==> n > 0 && !Continues(frames[n - 1])
  {
    if frames == [] then 0
    else if Continues(frames[0]) then 1 + Batch(frames[1..])
    else 1
  }
}

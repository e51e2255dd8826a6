/** Sending and reading WebSocket frames over a socket (realtime_ws.c). */
module WebSocket {
  import opened Bytes
  import opened Frames

  /** How a `recv` call ends when it does not deliver: it is to be repeated, or the connection is lost. */
  datatype Fault = Fine | Again | Broken

  /** None of the `recv` calls of one read fails. */
  ghost predicate Faultless(faults: nat -> Fault) {
    forall k: nat :: k < 4 ==> faults(k) == Fine
  }

  /** A close frame, or a ping that cannot be answered. */
  predicate Closes(f: Frame, room: nat) {
    f.opcode == CLOSE || (f.opcode == PING && (|f.payload| > MAX_SENT || |Sent(PONG, f.payload)| > room))
  }

  datatype Received = Data(data: bytes) | Closed | Fails(again: bool)

  /** A connected stream socket as this side sees it. */
  class Socket {
    var arrived: bytes                                              // received and not consumed
    var ended: bool                                                 // the peer has stopped sending
    var sent: bytes                                                 // written so far
    var room: nat                                                   // bytes it still takes before failing

    constructor ()
      ensures arrived == [] && sent == [] && !ended
    {
      arrived, ended, sent, room := [], false, [], 0;
    }

    /** `recv` without blocking; `peek` leaves the bytes on the socket. */
    method Receive(n: nat, peek: bool, fault: Fault) returns (r: Received)
      requires n > 0
      modifies this`arrived
      ensures fault == Broken ==> r == Fails(false)
      ensures fault == Again ==> r == Fails(true)
      ensures fault == Fine ==>
                r == if old(arrived) == [] then (if ended then Closed else Fails(true))
                     else Data(if n < |old(arrived)| then old(arrived)[..n] else old(arrived))
      ensures arrived == if r.Data? && !peek then old(arrived)[|r.data|..] else old(arrived)
    {
      if fault != Fine {
        return Fails(fault == Again);
      }
      if arrived == [] {
        return if ended then Closed else Fails(true);
      }
      var data := if n < |arrived| then arrived[..n] else arrived;
      if !peek {
        arrived := arrived[|data|..];
      }
      return Data(data);
    }

    /** `send_bytes`: everything is written, or what the connection took before it failed. */
    method SendBytes(data: bytes) returns (rc: int)
      modifies this`sent, this`room
      ensures rc == if |data| <= old(room) then 0 else -1
      ensures sent == old(sent) + if rc == 0 then data else data[..old(room)]
      ensures room == if rc == 0 then old(room) - |data| else 0
    {
      if |data| <= room {
        sent, room := sent + data, room - |data|;
        return 0;
      }
      sent, room := sent + data[..room], 0;
      return -1;
    }

    /** Header and payload, one after the other. */
    method SendTwo(header: bytes, payload: bytes) returns (rc: int)
      modifies this`sent, this`room
      ensures rc == if |header| + |payload| <= old(room) then 0 else -1
      ensures sent == old(sent) + if rc == 0 then header + payload else (header + payload)[..old(room)]
      ensures room == if rc == 0 then old(room) - |header| - |payload| else 0
    {
      rc := SendBytes(header);
      if rc == 0 && |payload| > 0 {
        rc := SendBytes(payload);
      }
    }

    /** `ws_send_frame`. */
    method SendFrame(opcode: nat, payload: bytes) returns (rc: int)
      requires opcode < 16
      modifies this`sent, this`room
      ensures rc == 0 <==> |payload| <= MAX_SENT && |Sent(opcode, payload)| <= old(room)
      ensures rc == 0 ==> sent == old(sent) + Sent(opcode, payload) && room == old(room) - |Sent(opcode, payload)|
      ensures rc != 0 ==> rc == -1
      ensures |payload| > MAX_SENT ==> sent == old(sent) && room == old(room)
      ensures |payload| <= MAX_SENT && rc != 0 ==>
                room == 0 && sent == old(sent) + Sent(opcode, payload)[..old(room)]
    {
      if |payload| > MAX_SENT {
        return -1;
      }
      var header := new byte[4];
      var length: nat := 0;
      header[0], length := FIN + opcode, 1;
      if |payload| < 126 {
        header[1], length := |payload|, 2;
      } else {
        header[1], header[2], header[3], length := 126, |payload| / 256 % 256, |payload| % 256, 4;
      }
      ghost var head := [FIN + opcode] + LengthBytes(|payload|, |payload| >= 126, 0);
      assert header[..length] == head;
      rc := SendTwo(header[..length], payload);
    }

    /** The connection ends the way `rc` says, or is untouched. */
    twostate predicate Untouched(out: array<byte>)
      reads this, out
    {
      arrived == old(arrived) && sent == old(sent) && room == old(room) && out[..] == old(out[..])
    }

    /** `rt_ws_read_frame`: a frame that has arrived is consumed as a whole, unmasked into `out` and
        terminated there; otherwise nothing changes. `faults(k)` is how the k-th `recv` call ends. */
    method ReadFrame(out: array<byte>, faults: nat -> Fault) returns (rc: int)
      modifies this`arrived, this`sent, this`room, out
      ensures Faultless(faults) ==> Outcome(out, rc)
      ensures Outcome(out, rc) || (Untouched(out) && rc in {0, -1})
      ensures Faultless(faults) ==>
                (rc == 0 && arrived != old(arrived) <==> Quiet(ScanFrame(old(arrived), ended, out.Length), old(room)))
    {
      hide Mask, Sent, Quiet, ScanFrame;
      ghost var before, space := arrived, room;
      rc := ReadArrived(out, faults);
      ZeroMeans(before, ended, out.Length, space);
    }

    /** The reading itself. */
    method ReadArrived(out: array<byte>, faults: nat -> Fault) returns (rc: int)
      modifies this`arrived, this`sent, this`room, out
      ensures Faultless(faults) ==> Outcome(out, rc)
      ensures Outcome(out, rc) || (Untouched(out) && rc in {0, -1})
    {
      rc := -1;
      if out.Length > 0 {
        var first := Receive(2, true, faults(0));
        if first.Fails? {
          rc := if first.again then 0 else -1;
        } else if first.Data? {
          if |first.data| < 2 {
            rc := 0;
          } else if first.data[1] < MASKED || first.data[0] < FIN {
            rc := -1;
          } else {
            rc := ReadLength(out, first.data, faults);
          }
        }
      }
    }

    /** `process_ws_connection`, without faults: it takes the frames that have arrived up to the first
        one whose return value is not positive, and closes the connection on a negative one. */
    method ProcessConnection(ghost frames: seq<Frame>, ghost partial: bytes) returns (close: bool)
      requires AllFit(frames, READ_BUFFER) && arrived == EncodeAll(frames) + partial && !ended
      requires ScanFrame(partial, false, READ_BUFFER) == Wait
      modifies this`arrived, this`sent, this`room
      ensures var n := Batch(frames);
              && arrived == EncodeAll(frames[n..]) + partial
              && (close <==> n > 0 && Closes(frames[n - 1], old(room)))
              && (n > 0 && frames[n - 1].opcode == PING && !close ==>
                    sent == old(sent) + Sent(PONG, frames[n - 1].payload))
    {
      hide Batch, EncodeAll, ScanFrame, Sent, Mask, Encode;
      var out := new byte[READ_BUFFER];
      ghost var i := 0;
      assert frames[0..] == frames;
      while true
        invariant i <= |frames| && arrived == EncodeAll(frames[i..]) + partial
        invariant Batch(frames) == i + Batch(frames[i..])
        invariant sent == old(sent) && room == old(room) && (i > 0 ==> Continues(frames[i - 1]))
        decreases |frames| - i
      {
        var rc := ReadOne(out, frames, i, partial);
        if rc <= 0 {
          return rc < 0;
        }
        i := i + 1;
      }
    }

    /** One read of a frame that has arrived as a whole, if there is one. */
    method ReadOne(out: array<byte>, ghost frames: seq<Frame>, ghost i: nat, ghost partial: bytes) returns (rc: int)
      requires i <= |frames| && AllFit(frames, READ_BUFFER) && out.Length == READ_BUFFER
      requires arrived == EncodeAll(frames[i..]) + partial && !ended
      requires ScanFrame(partial, false, READ_BUFFER) == Wait
      modifies this`arrived, this`sent, this`room, out
      ensures i == |frames| ==> rc == 0 && arrived == old(arrived) && sent == old(sent) && Batch(frames[i..]) == 0
      ensures i < |frames| ==> arrived == EncodeAll(frames[i + 1..]) + partial
      ensures i < |frames| && Continues(frames[i]) ==>
                rc > 0 && sent == old(sent) && room == old(room) && Batch(frames[i..]) == 1 + Batch(frames[i + 1..])
      ensures i < |frames| && !Continues(frames[i]) ==> rc <= 0 && Batch(frames[i..]) == 1
      ensures i < |frames| && !Continues(frames[i]) ==>
                (rc < 0 <==> Closes(frames[i], old(room)))
      ensures i < |frames| && frames[i].opcode == PING && rc == 0 ==>
                sent == old(sent) + Sent(PONG, frames[i].payload)
    {
      hide Sent, Mask, Encode;
      ghost var rest := frames[i..];
      if i < |frames| {
        assert rest[1..] == frames[i + 1..] && EncodeAll(rest) == Encode(frames[i]) + EncodeAll(rest[1..]);
        ghost var more := EncodeAll(rest[1..]) + partial;
        assert arrived == Encode(frames[i]) + more;
        ScanWholeFrame(frames[i], more, false, READ_BUFFER);
      } else {
        assert rest == [] && EncodeAll(rest) + partial == partial;
      }
      rc := ReadFrame(out, _ => Fine);
    }

    /** What a read without faults does. */
    twostate predicate Outcome(out: array<byte>, rc: int)
      reads this, out
    {
      match ScanFrame(old(arrived), ended, out.Length)
      case Wait => rc == 0 && Untouched(out)
      case Refuse => rc == -1 && Untouched(out)
      case Take(n, opcode, payload) => Taken(out, rc, n, opcode, payload)
    }

    /** A frame was taken. */
    twostate predicate Taken(out: array<byte>, rc: int, n: nat, opcode: nat, payload: bytes)
      reads this, out
    {
      n <= |old(arrived)| && arrived == old(arrived)[n..] && Answered(out, rc, opcode, payload)
    }

    /** The payload is in `out`; a close frame ends the connection, a ping is answered with a pong of the
        same payload, text gives its length. */
    twostate predicate Answered(out: array<byte>, rc: int, opcode: nat, payload: bytes)
      reads this, out
    {
      && |payload| < out.Length
      && out[..] == payload + [0] + old(out[..])[|payload| + 1..]
      && (opcode != PING ==> sent == old(sent) && room == old(room))
      && (opcode == CLOSE ==> rc == -1)
      && (opcode == PING ==> |payload| <= MAX_SENT ==>
            if |Sent(PONG, payload)| <= old(room) then rc == 0 && sent == old(sent) + Sent(PONG, payload)
            else rc == -1 && sent == old(sent) + Sent(PONG, payload)[..old(room)])
      && (opcode == PING ==> |payload| > MAX_SENT ==> rc == -1 && sent == old(sent))
      && (opcode == TEXT ==> rc == |payload|)
      && (opcode !in {CLOSE, PING, TEXT} ==> rc == 1)
    }

    /** The part of `rt_ws_read_frame` that finds out the payload length. */
    method ReadLength(out: array<byte>, peeked: bytes, faults: nat -> Fault) returns (rc: int)
      requires out.Length > 0 && |peeked| == 2 && peeked <= arrived
      requires peeked[1] >= MASKED && peeked[0] >= FIN
      modifies this`arrived, this`sent, this`room, out
      ensures Faultless(faults) ==> Outcome(out, rc)
      ensures Outcome(out, rc) || (Untouched(out) && rc in {0, -1})
    {
      var length := peeked[1] % 128;
      if length == 127 {
        return -1;
      }
      if length < 126 {
        rc := ReadBody(out, 6, length, faults);
        return;
      }
      var more := Receive(4, true, faults(1));
      if more.Closed? {
        return 0;
      } else if more.Fails? {
        return if more.again then 0 else -1;
      } else if |more.data| < 4 {
        return 0;
      }
      var high: int, low: int := more.data[2], more.data[3];
      rc := ReadBody(out, 8, 256 * high + low, faults);
    }

    /** The part that consumes the frame. */
    method ReadBody(out: array<byte>, header: nat, n: nat, faults: nat -> Fault) returns (rc: int)
      requires out.Length > 0 && header in {6, 8} && 2 <= |arrived|
      requires ScanFrame(arrived, ended, out.Length) == ScanBody(arrived, header, n, out.Length)
      modifies this`arrived, this`sent, this`room, out
      ensures Faultless(faults) ==> Outcome(out, rc)
      ensures Outcome(out, rc) || (Untouched(out) && rc in {0, -1})
    {
      hide Mask, Sent, ScanFrame;
      ghost var before := arrived;
      if n + 1 > out.Length || header + n > FRAME_BUFFER {
        return -1;
      }
      var frame;
      rc, frame := ReceiveWhole(header + n, faults);
      if frame.None? {
        return;
      }
      TakeParts(before, header, n, out.Length);
      ghost var payload := Mask(frame.value[header..], frame.value[header - 4..header]);
      assert frame.value == before[..header + n] && arrived == before[header + n..];
      rc := Deliver(frame.value, header, n, out);
      assert Answered(out, rc, frame.value[0] % 16, payload);
      assert Taken(out, rc, header + n, frame.value[0] % 16, payload);
    }

    /** Takes exactly `size` bytes off the socket, if so many have arrived. */
    method ReceiveWhole(size: nat, faults: nat -> Fault) returns (rc: int, frame: Option<bytes>)
      requires size > 0 && arrived != []
      modifies this`arrived
      ensures frame.None? ==> arrived == old(arrived) && rc in {0, -1}
      ensures frame.None? ==> faults(2) != Fine || faults(3) != Fine || (rc == 0 && |old(arrived)| < size)
      ensures frame.Some? ==> size <= |old(arrived)| && frame.value == old(arrived)[..size]
      ensures frame.Some? ==> arrived == old(arrived)[size..]
    {
      rc, frame := 0, None;
      var all := Receive(size, true, faults(2));
      if all.Fails? {
        rc := if all.again then 0 else -1;
      } else if |all.data| == size {
        var taken := Receive(size, false, faults(3));
        if taken.Fails? {
          rc := if taken.again then 0 else -1;
        } else {
          frame := Some(taken.data);
        }
      }
    }

    /** The frame, consumed, is unmasked into `out` and acted on. */
    method Deliver(frame: bytes, header: nat, n: nat, out: array<byte>) returns (rc: int)
      requires 4 <= header && |frame| == header + n && n < out.Length
      modifies this`sent, this`room, out
      ensures var payload := Mask(frame[header..], frame[header - 4..header]);
              Answered(out, rc, frame[0] % 16, payload)
    {
      hide Mask, Sent;
      Unmask(frame, header, n, out);
      var opcode := frame[0] % 16;
      assert out[..n] == Mask(frame[header..], frame[header - 4..header]);
      if opcode == CLOSE {
        rc := -1;
      } else if opcode == PING {
        rc := SendFrame(PONG, out[..n]);
      } else if opcode != TEXT {
        rc := 1;
      } else {
        rc := n;
      }
    }
  }

  lemma TakeParts(s: bytes, header: nat, n: nat, outSize: nat)
    requires 4 <= header && header + n <= |s| && 2 <= |s| && n + 1 <= outSize && header + n <= FRAME_BUFFER
    ensures var frame := s[..header + n];
            ScanBody(s, header, n, outSize) ==
            Take(header + n, frame[0] % 16, Mask(frame[header..], frame[header - 4..header]))
  {
    var frame := s[..header + n];
    assert frame[header..] == s[header..header + n] && frame[header - 4..header] == s[header - 4..header];
  }

  /** The unmasking loop. */
  method Unmask(frame: bytes, header: nat, n: nat, out: array<byte>)
    requires 4 <= header && |frame| == header + n && n < out.Length
    modifies out
    ensures out[..] == Mask(frame[header..], frame[header - 4..header]) + [0] + old(out[..])[n + 1..]
  {
    hide Xor;
    ghost var plain := Mask(frame[header..], frame[header - 4..header]);
    var i := 0;
    while i < n
      invariant 0 <= i <= n
      invariant out[..i] == plain[..i]
      invariant forall j :: i <= j < out.Length ==> out[j] == old(out[j])
    {
      out[i] := Xor(frame[header + i], frame[header - 4 + i % 4]);
      i := i + 1;
    }
    out[n] := 0;
    assert out[..n] == plain;
  }
}

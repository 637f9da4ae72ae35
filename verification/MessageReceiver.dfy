/**
  The receiving side of the WebSocket client: control frames and message
  fragments arriving in one caller-supplied buffer.
 */
module MessageReceiver {
  import opened Bytes
  import opened Netx
  import opened Rfc6455
  import opened Frames
  import opened Messages

  /** A PING is answered, a PONG is not; then, or if the answer fails, what is left
      is as the specification says. */
  lemma ControlPassed(c: Chan, total: nat)
    requires total > 0 && AnyFrame(c, total).err == NoErr
    requires AnyFrame(c, total).opcode == OP_PING || AnyFrame(c, total).opcode == OP_PONG
    ensures var f := AnyFrame(c, total);
      var s := SendFrame(f.chan, OP_PONG | FIN_FLAG, Present(f.payload));
      if f.opcode == OP_PONG then
        RecvFrame(c, total) == RecvFrame(f.chan, total) && |f.chan.input| < |c.input|
      else if s.err == NoErr then
        RecvFrame(c, total) == RecvFrame(s.chan, total) && |s.chan.input| < |c.input|
      else
        RecvFrame(c, total)
        == f.(err := s.err, payload := Masked(f.payload, f.chan.masks(f.chan.drawn)), chan := s.chan)
  {
    hide AnyFrame, SendFrame, Masked;
    AnyFrameQuiet(c, total);
    var f := AnyFrame(c, total);
    AnyFrameShrinks(c, total);
    SendKeepsInput(f.chan, OP_PONG | FIN_FLAG, Present(f.payload));
  }

  lemma NoRoom(c: Chan)
    ensures RecvFrame(c, 0) == FrameOut(InvalidArgument, 0, false, [], c)
  {
  }

  /** A data frame, a CLOSE or an error ends the loop. */
  lemma FrameEnds(c: Chan, total: nat)
    requires total > 0
    requires var f := AnyFrame(c, total); f.err == NoErr ==> f.opcode != OP_PING && f.opcode != OP_PONG
    ensures var f := AnyFrame(c, total);
      RecvFrame(c, total) ==
        if f.err == NoErr && f.opcode == OP_CLOSE then
          f.(err := Eof, chan := SendFrame(f.chan, OP_CLOSE | FIN_FLAG, Absent(0)).chan)
        else f
  {
  }

  /** Sends the payload just received back as a PONG, masked where it is. */
  method SendPong(conn: Conn, base: array<byte>, start: nat, count: Size, ghost total: nat) returns (err: Err)
    requires count <= total && start + total <= base.Length && count <= SIZE_MAX - 14
    modifies conn`tx, conn`sent, conn`drawn, base
    ensures var out := SendFrame(old(conn.View()), OP_PONG | FIN_FLAG, Present(old(base[start..start + count])));
      err == out.err && conn.View() == out.chan
    ensures base[start..start + count] == Masked(old(base[start..start + count]),
          old(conn.View()).masks(old(conn.View()).drawn))
    ensures base[..start] == old(base[..start])
    ensures base[start + total..] == old(base[start + total..])
  {
    hide SendFrame, Overlay, Masked, Arriving, InFault, Capacity, OutFault;
    ghost var was, masked := base[..], Masked(base[start..start + count], conn.masks(conn.drawn));
    err := WsSendFrame(conn, OP_PONG | FIN_FLAG, base, start, count);
    OverlaySlices(was, start, masked, start + total);
  }

  /** Receives one frame into `base[start..start + total]` and, unless it is one
      to hand over, deals with it; then there is `more` to receive. */
  method RecvOnce(conn: Conn, base: array<byte>, start: nat, total: Size)
    returns (more: bool, err: Err, opcode: byte, fin: bool, count: Size)
    requires start + total <= base.Length && total > 0
    modifies conn`rx, conn`tx, conn`sent, conn`drawn, base
    ensures var out := RecvFrame(old(conn.View()), total);
      if more then
        RecvFrame(conn.View(), total) == out && |conn.View().input| < |old(conn.View()).input|
      else
        && err == out.err && opcode == out.opcode && fin == out.fin && count == |out.payload|
        && conn.View() == out.chan
        && count <= total
        && base[start..start + count] == out.payload
    ensures base[..start] == old(base[..start])
    ensures base[start + total..] == old(base[start + total..])
  {
    hide RecvFrame, AnyFrame, SendFrame, Masked, conn.View;
    ghost var c := conn.View();
    more := false;
    err, opcode, fin, count := WsRecvAnyFrame(conn, base, start, total);
    if err != NoErr {
      FrameEnds(c, total);
    } else if opcode == OP_CLOSE {
      FrameEnds(c, total);
      var _ := WsSendFrame(conn, OP_CLOSE | FIN_FLAG, null, 0, 0);
      err := Eof;
    } else if opcode == OP_PONG {
      ControlPassed(c, total);
      more := true;
    } else if opcode == OP_PING {
      ControlPassed(c, total);
      AnyFrameShrinks(c, total);
      err := SendPong(conn, base, start, count, total);
      more := err == NoErr;
    } else {
      FrameEnds(c, total);
    }
  }

  /** Receives the next data frame into `base[start..start + total]`, answering
      PING, ignoring PONG and replying to CLOSE on the way. All payloads, those
      of control frames too, land in that part of the buffer and nowhere else. */
  method WsRecvFrame(conn: Conn, base: array<byte>, start: nat, total: Size)
    returns (err: Err, opcode: byte, fin: bool, count: Size)
    requires start + total <= base.Length
    modifies conn`rx, conn`tx, conn`sent, conn`drawn, base
    ensures var out := RecvFrame(old(conn.View()), total);
      && err == out.err && opcode == out.opcode && fin == out.fin && count == |out.payload|
      && conn.View() == out.chan
      && count <= total
      && base[start..start + count] == out.payload
    ensures base[..start] == old(base[..start])
    ensures base[start + total..] == old(base[start + total..])
  {
    hide RecvFrame, conn.View;
    if total == 0 {
      NoRoom(conn.View());
      return InvalidArgument, 0, false, 0;
    }
    while true
      invariant RecvFrame(conn.View(), total) == RecvFrame(old(conn.View()), total)
      invariant base[..start] == old(base[..start])
      invariant base[start + total..] == old(base[start + total..])
      decreases |conn.View().input|
    {
      var more;
      more, err, opcode, fin, count := RecvOnce(conn, base, start, total);
      if !more {
        return;
      }
    }
  }

  /** Receives one more continuation frame of a message of which `have` bytes are
      there, behind them; there is `more` to receive unless it is the last. */
  method RecvPart(conn: Conn, base: array<byte>, total: Size, opcode: byte, have: Size)
    returns (more: bool, err: Err, count: Size)
    requires have < total <= base.Length
    modifies conn`rx, conn`tx, conn`sent, conn`drawn, base
    ensures var out := MsgRest(old(conn.View()), total, opcode, old(base[..have]));
      if more then
        && have <= count <= total
        && MsgRest(conn.View(), total, opcode, base[..count]) == out
        && |conn.View().input| < |old(conn.View()).input|
      else
        && err == out.err && out.opcode == opcode && count == |out.data|
        && conn.View() == out.chan
        && count <= total
        && base[..count] == out.data
    ensures base[total..] == old(base[total..])
  {
    hide RecvFrame, conn.View, MsgRest;
    ghost var c, data := conn.View(), base[..have];
    MsgRestStep(c, total, opcode, data);
    var op, fin, n;
    err, op, fin, n := WsRecvFrame(conn, base, have, total - have);
    more, count := false, have;
    if err == NoErr {
      JoinPrefix(base[..], have, n);
      assert have <= SIZE_MAX - n;  // the overflow check never fires
      count := have + n;
      if op != OP_CONTINUE {
        err := WsProto;
      } else {
        more := !fin;
      }
    }
  }

  /** Receives the continuation frames of a message of which `have` bytes are there. */
  method WsRecvRest(conn: Conn, base: array<byte>, total: Size, opcode: byte, have: Size)
        returns (err: Err, count: Size)
    requires have <= total <= base.Length
    modifies conn`rx, conn`tx, conn`sent, conn`drawn, base
    ensures var out := MsgRest(old(conn.View()), total, opcode, old(base[..have]));
      && err == out.err && out.opcode == opcode && count == |out.data|
      && conn.View() == out.chan
      && count <= total
      && base[..count] == out.data
    ensures base[total..] == old(base[total..])
  {
    hide RecvFrame, conn.View, MsgRest;
    count := have;
    ghost var out := MsgRest(conn.View(), total, opcode, base[..have]);
    while count < total
      invariant count <= total
      invariant MsgRest(conn.View(), total, opcode, base[..count]) == out
      invariant base[total..] == old(base[total..])
      decreases |conn.View().input|
    {
      var more;
      more, err, count := RecvPart(conn, base, total, opcode, count);
      if !more {
        return;
      }
    }
    MsgRestFull(conn.View(), total, opcode, base[..count]);
    err := MessageSize;
  }

  lemma JoinPrefix(s: bytes, i: nat, n: nat)
    requires i + n <= |s|
    ensures s[..i + n] == s[..i] + s[i..i + n]
  {
  }

  lemma MsgRestStep(c: Chan, total: nat, opcode: byte, data: bytes)
    requires |data| < total
    ensures var f, out := RecvFrame(c, total - |data|), MsgRest(c, total, opcode, data);
      if f.err != NoErr then out == MsgOut(f.err, opcode, data, f.chan)
      else if f.opcode != OP_CONTINUE then out == MsgOut(WsProto, opcode, data + f.payload, f.chan)
      else if f.fin then out == MsgOut(NoErr, opcode, data + f.payload, f.chan)
      else |f.chan.input| < |c.input| && out == MsgRest(f.chan, total, opcode, data + f.payload)
  {
    hide RecvFrame;
    if RecvFrame(c, total - |data|).err == NoErr {
      RecvFrameShrinks(c, total - |data|);
    }
  }

  lemma MsgRestFull(c: Chan, total: nat, opcode: byte, data: bytes)
    requires |data| >= total
    ensures MsgRest(c, total, opcode, data) == MsgOut(MessageSize, opcode, data, c)
  {
  }

  /** Receives one message, in as many frames as it takes, into the buffer. */
  method WsRecvMsg(conn: Conn, base: array<byte>, total: Size) returns (err: Err, opcode: byte, count: Size)
    requires total <= base.Length
    modifies conn`rx, conn`tx, conn`sent, conn`drawn, base
    ensures var out := RecvMsg(old(conn.View()), total);
      && err == out.err && opcode == out.opcode && count == |out.data|
      && conn.View() == out.chan
      && count <= total
      && base[..count] == out.data
    ensures base[total..] == old(base[total..])
  {
    hide RecvFrame, MsgRest, conn.View;
    if total == 0 {
      return InvalidArgument, 0, 0;
    }
    var fin;
    err, opcode, fin, count := WsRecvFrame(conn, base, 0, total);
    assert base[0..count] == base[..count];
    if err != NoErr {
      return;
    }
    if opcode != OP_BINARY && opcode != OP_TEXT {
      return WsProto, opcode, count;
    }
    if fin {
      return;
    }
    err, count := WsRecvRest(conn, base, total, opcode, count);
  }
}

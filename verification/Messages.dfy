/**
  Messages made of several frames, with control frames in between
  (sections 5.4 and 5.5 of RFC 6455): answering PING, ignoring PONG, replying
  to CLOSE, and putting the fragments of a message together in one buffer.
 */
module Messages {
  import opened Bytes
  import opened Netx
  import opened Rfc6455
  import opened Frames

  // ----- what the methods compute, on the one-shot view -----

  /** Receiving the next data frame; control frames are dealt with on the way. */
  function RecvFrame(c: Chan, total: nat): FrameOut
    decreases |c.input|
  {
    if total == 0 then FrameOut(InvalidArgument, 0, false, [], c)
    else
      var f := AnyFrame(c, total);
      if f.err != NoErr then f
      else if f.opcode == OP_CLOSE then
        f.(err := Eof, chan := SendFrame(f.chan, OP_CLOSE | FIN_FLAG, Absent(0)).chan)
      else if f.opcode == OP_PONG then
        AnyFrameShrinks(c, total);
        RecvFrame(f.chan, total)
      else if f.opcode == OP_PING then
        var s := SendFrame(f.chan, OP_PONG | FIN_FLAG, Present(f.payload));
        if s.err != NoErr then
          f.(err := s.err, payload := Masked(f.payload, c.masks(f.chan.drawn)), chan := s.chan)
        else
          AnyFrameShrinks(c, total);
          RecvFrame(s.chan, total)
      else f
  }

  lemma AnyFrameShrinks(c: Chan, total: nat)
    requires AnyFrame(c, total).err == NoErr
    ensures |AnyFrame(c, total).chan.input| + 2 <= |c.input|
    ensures IsControl(AnyFrame(c, total).opcode) ==> |AnyFrame(c, total).payload| <= 125
  {
    var w := AnyFrameOnly(c, total);
  }

  lemma SendKeepsInput(c: Chan, first: byte, body: Body)
    ensures var c' := SendFrame(c, first, body).chan;
      && c'.input == c.input && c'.inFault == c.inFault && c'.outFault == c.outFault
      && c'.masks == c.masks && c'.tls == c.tls && c'.drawn == c.drawn + 1
  {
  }

  lemma {:induction false} RecvFrameShrinks(c: Chan, total: nat)
    requires RecvFrame(c, total).err == NoErr
    ensures |RecvFrame(c, total).chan.input| + 2 <= |c.input|
    decreases |c.input|
  {
    hide AnyFrame, SendFrame;
    var f := AnyFrame(c, total);
    AnyFrameShrinks(c, total);
    SendKeepsInput(f.chan, OP_PONG | FIN_FLAG, Present(f.payload));
    if f.opcode == OP_PONG {
      RecvFrameShrinks(f.chan, total);
    } else if f.opcode == OP_PING {
      RecvFrameShrinks(SendFrame(f.chan, OP_PONG | FIN_FLAG, Present(f.payload)).chan, total);
    }
  }

  /** `data` is what the first `*count` bytes of the buffer hold. */
  datatype MsgOut = MsgOut(err: Err, opcode: byte, data: bytes, chan: Chan)

  /** Receiving the continuation frames of a message of which `data` is there. */
  function MsgRest(c: Chan, total: nat, opcode: byte, data: bytes): MsgOut
    decreases |c.input|
  {
    if |data| >= total then MsgOut(MessageSize, opcode, data, c)
    else
      var f := RecvFrame(c, total - |data|);
      if f.err != NoErr then MsgOut(f.err, opcode, data, f.chan)
      else if f.opcode != OP_CONTINUE then MsgOut(WsProto, opcode, data + f.payload, f.chan)
      else if f.fin then MsgOut(NoErr, opcode, data + f.payload, f.chan)
      else
        RecvFrameShrinks(c, total - |data|);
        MsgRest(f.chan, total, opcode, data + f.payload)
  }

  /** Receiving one message into a buffer of `total` bytes. */
  function RecvMsg(c: Chan, total: nat): MsgOut {
    if total == 0 then MsgOut(InvalidArgument, 0, [], c)
    else
      var f := RecvFrame(c, total);
      if f.err != NoErr then MsgOut(f.err, f.opcode, f.payload, f.chan)
      else if f.opcode != OP_BINARY && f.opcode != OP_TEXT then MsgOut(WsProto, f.opcode, f.payload, f.chan)
      else if f.fin then MsgOut(NoErr, f.opcode, f.payload, f.chan)
      else MsgRest(f.chan, total, f.opcode, f.payload)
  }

  // ----- what a message is, on the wire -----

  ghost predicate AllLegal(ws: seq<Wire>) {
    forall i :: 0 <= i < |ws| ==> LegalWire(ws[i])
  }

  function Encode(ws: seq<Wire>): bytes
    requires AllLegal(ws)
  {
    if ws == [] then [] else ServerFrame(ws[0]) + Encode(ws[1..])
  }

  /** The frames of one message: PING and PONG frames anywhere, one text or
      binary frame (unless `started`), then continuation frames, the FIN flag on
      the last data frame and only there. `got` bytes are in the buffer already.
      Every payload fits in what is left of `total`, and every fragment but the
      last leaves some of it. */
  ghost predicate IsMessage(ws: seq<Wire>, total: nat, limit: nat, got: nat, started: bool) {
    && got < total
    && ws != []
    && LegalWire(ws[0])
    && |ws[0].payload| <= Min(total - got, limit)
    && if ws[0].opcode == OP_PING || ws[0].opcode == OP_PONG then
         IsMessage(ws[1..], total, limit, got, started)
       else
         && ws[0].opcode != OP_CLOSE
         && (ws[0].opcode == OP_CONTINUE <==> started)
         && if ws[0].fin then |ws| == 1
            else IsMessage(ws[1..], total, limit, got + |ws[0].payload|, true)
  }

  /** The message that the frames carry. */
  function Payload(ws: seq<Wire>): bytes {
    if ws == [] then []
    else (if IsData(ws[0].opcode) then ws[0].payload else []) + Payload(ws[1..])
  }

  /** The opcode of the first data frame. */
  function Opcode(ws: seq<Wire>): byte {
    if ws == [] then OP_CONTINUE
    else if IsData(ws[0].opcode) then ws[0].opcode
    else Opcode(ws[1..])
  }

  const PONG_BYTE: byte := OP_PONG | FIN_FLAG
  const CLOSE_BYTE: byte := OP_CLOSE | FIN_FLAG

  function Reply(w: Wire): seq<ClientMsg> {
    if w.opcode == OP_PING then [ClientMsg(PONG_BYTE, w.payload)]
    else if w.opcode == OP_CLOSE then [ClientMsg(CLOSE_BYTE, [])]
    else []
  }

  /** The answers that some frames call for: one PONG for every PING, with the
      same payload and in the same order, and an empty CLOSE for a CLOSE. */
  function Replies(ws: seq<Wire>): seq<ClientMsg> {
    if ws == [] then [] else Reply(ws[0]) + Replies(ws[1..])
  }

  /** The `n` masking keys from number `start` on. */
  function Keys(masks: nat -> Mask, start: nat, n: nat): (keys: seq<Mask>)
    ensures |keys| == n
    decreases n
  {
    if n == 0 then [] else [masks(start)] + Keys(masks, start + 1, n - 1)
  }

  /** The bytes of the given frames, if they are the next ones to be sent. */
  function Stream(c: Chan, msgs: seq<ClientMsg>): bytes {
    ClientStream(msgs, Keys(c.masks, c.drawn, |msgs|))
  }

  /** The connection when `rest` is still to come and the given frames have
      been sent in full. */
  function Advance(c: Chan, rest: bytes, msgs: seq<ClientMsg>): Chan
    requires |Stream(c, msgs)| <= c.room
  {
    c.(input := rest, sent := c.sent + Stream(c, msgs), room := c.room - |Stream(c, msgs)|, drawn := c.drawn + |msgs|)
  }

  lemma {:induction false} KeysSplit(masks: nat -> Mask, start: nat, m: nat, n: nat)
    ensures Keys(masks, start, m + n) == Keys(masks, start, m) + Keys(masks, start + m, n)
    decreases m
  {
    if m > 0 {
      KeysSplit(masks, start + 1, m - 1, n);
    }
  }

  lemma StreamSplit(c: Chan, c': Chan, ms: seq<ClientMsg>, ns: seq<ClientMsg>)
    requires c'.masks == c.masks && c'.drawn == c.drawn + |ms|
    ensures Stream(c, ms + ns) == Stream(c, ms) + Stream(c', ns)
  {
    KeysSplit(c.masks, c.drawn, |ms|, |ns|);
    ClientStreamAppend(ms, Keys(c.masks, c.drawn, |ms|), ns, Keys(c'.masks, c'.drawn, |ns|));
  }

  lemma StreamOne(c: Chan, msg: ClientMsg)
    ensures Stream(c, [msg]) == ClientFrame(msg.first, c.masks(c.drawn), msg.payload)
  {
    assert Keys(c.masks, c.drawn, 1) == [c.masks(c.drawn)];
    ClientStreamOne(msg, c.masks(c.drawn));
  }

  lemma AdvanceTwice(c: Chan, r: bytes, ms: seq<ClientMsg>, r': bytes, ns: seq<ClientMsg>)
    requires |Stream(c, ms + ns)| <= c.room
    ensures |Stream(c, ms)| <= c.room
    ensures var c' := Advance(c, r, ms);
      |Stream(c', ns)| <= c'.room && Advance(c', r', ns) == Advance(c, r', ms + ns)
  {
    StreamSplit(c, c.(drawn := c.drawn + |ms|), ms, ns);
    var c' := Advance(c, r, ms);
    StreamSplit(c, c', ms, ns);
    Associate(c.sent, Stream(c, ms), Stream(c', ns));
  }

  lemma AdvanceSilently(c: Chan, rest: bytes)
    ensures |Stream(c, [])| <= c.room && Advance(c, rest, []) == c.(input := rest)
  {
  }

  /** A small frame is sent if and only if there is room for it. */
  lemma SendFrameInFull(c: Chan, msg: ClientMsg)
    requires |msg.payload| <= 125
    ensures var out := SendFrame(c, msg.first, Present(msg.payload));
      (out.err == NoErr <==> |Stream(c, [msg])| <= c.room)
      && (out.err == NoErr ==> out.chan == Advance(c, c.input, [msg]))
  {
    StreamOne(c, msg);
    assert 0 < |Stream(c, [msg])| <= 131;
  }

  // ----- one frame at a time -----

  /** A PING or PONG in front of anything is answered as it should be, and what
      follows is received as if it had not been there. */
  lemma PassesControl(c: Chan, total: nat, w: Wire, rest: bytes)
    requires LegalWire(w) && (w.opcode == OP_PING || w.opcode == OP_PONG) && c.input == ServerFrame(w) + rest
    requires total > 0 && |w.payload| <= MaxPayload(c, total)
    requires |Stream(c, Reply(w))| <= c.room
    ensures RecvFrame(c, total) == RecvFrame(Advance(c, rest, Reply(w)), total)
  {
    AnyFrameDecodes(c, total, w, rest);
    var c' := c.(input := rest);
    if w.opcode == OP_PING {
      SendFrameInFull(c', ClientMsg(PONG_BYTE, w.payload));
      assert Advance(c', rest, Reply(w)) == Advance(c, rest, Reply(w));
    } else {
      AdvanceSilently(c, rest);
    }
  }

  /** A data frame is handed over. */
  lemma TakesData(c: Chan, total: nat, w: Wire, rest: bytes)
    requires LegalWire(w) && IsData(w.opcode) && c.input == ServerFrame(w) + rest
    requires total > 0 && |w.payload| <= MaxPayload(c, total)
    ensures |Stream(c, Reply(w))| <= c.room
    ensures RecvFrame(c, total) == FrameOut(NoErr, w.opcode, w.fin, w.payload, Advance(c, rest, Reply(w)))
  {
    AnyFrameDecodes(c, total, w, rest);
    AdvanceSilently(c, rest);
  }

  // ----- whole messages -----

  /** Receiving a message of which `data` has been put together, or, if not
      even its first data frame has come yet, from the start. */
  function Recv(c: Chan, total: nat, opcode: byte, data: bytes, started: bool): MsgOut {
    if started then MsgRest(c, total, opcode, data) else RecvMsg(c, total)
  }

  /** Only the next data frame matters for how a message goes on. */
  lemma RecvSkips(c: Chan, c': Chan, total: nat, opcode: byte, data: bytes, started: bool)
    requires |data| < total && (!started ==> data == [])
    requires RecvFrame(c, total - |data|) == RecvFrame(c', total - |data|)
    ensures Recv(c, total, opcode, data, started) == Recv(c', total, opcode, data, started)
  {
  }

  /** How a data frame continues a message. */
  lemma RecvTakes(c: Chan, total: nat, opcode: byte, data: bytes, started: bool)
    requires |data| < total && (!started ==> data == [])
    requires RecvFrame(c, total - |data|).err == NoErr
    requires IsData(RecvFrame(c, total - |data|).opcode)
    ensures var f, out := RecvFrame(c, total - |data|), Recv(c, total, opcode, data, started);
      var opcode' := if started then opcode else f.opcode;
      out == if f.opcode == OP_CONTINUE <==> !started then MsgOut(WsProto, opcode', data + f.payload, f.chan)
             else if f.fin then MsgOut(NoErr, opcode', data + f.payload, f.chan)
             else Recv(f.chan, total, opcode', data + f.payload, true)
  {
    hide RecvFrame;
    var f := RecvFrame(c, total - |data|);
    assert !started ==> data + f.payload == f.payload;
  }

  /** Reassembly is transparent: if the stream starts with the frames of a
      message, whatever its fragments and whatever PING and PONG frames are in
      between, and the PONGs can be sent, then the message is received, exactly
      those frames are consumed and exactly those PONGs are sent. */
  lemma {:induction false} RecvComplete(c: Chan, total: nat, opcode: byte, data: bytes, started: bool, ws: seq<Wire>,
        rest: bytes)
    requires !started ==> data == []
    requires AllLegal(ws) && IsMessage(ws, total, IoLimit(c.tls), |data|, started)
    requires c.input == Encode(ws) + rest
    requires |Stream(c, Replies(ws))| <= c.room
    ensures Recv(c, total, opcode, data, started)
         == MsgOut(NoErr, if started then opcode else Opcode(ws), data + Payload(ws), Advance(c, rest, Replies(ws)))
    decreases |ws|
  {
    hide Recv, RecvFrame, ServerFrame, Stream, FitsForm;
    var w, tail, room := ws[0], ws[1..], total - |data|;
    var rest' := Encode(tail) + rest;
    Associate(ServerFrame(w), Encode(tail), rest);
    AdvanceTwice(c, rest', Reply(w), rest, Replies(tail));
    var c' := Advance(c, rest', Reply(w));
    if IsControl(w.opcode) {
      PassesControl(c, room, w, rest');
      RecvSkips(c, c', total, opcode, data, started);
      RecvComplete(c', total, opcode, data, started, tail, rest);
      assert Payload(ws) == Payload(tail);
    } else {
      TakesData(c, room, w, rest');
      RecvTakes(c, total, opcode, data, started);
      if w.fin {
        assert tail == [];
        assert Payload(ws) == w.payload;
      } else {
        RecvComplete(c', total, if started then opcode else w.opcode, data + w.payload, true, tail, rest);
        Associate(data, w.payload, Payload(tail));
      }
    }
  }

  /** What the first frame on the wire was if receiving goes well. */
  lemma RecvFrameFirst(c: Chan, total: nat) returns (w: Wire, rest: bytes)
    requires RecvFrame(c, total).err == NoErr
    ensures LegalWire(w) && w.opcode != OP_CLOSE && c.input == ServerFrame(w) + rest && |rest| < |c.input|
    ensures total > 0 && |w.payload| <= MaxPayload(c, total)
    ensures |Stream(c, Reply(w))| <= c.room
  {
    w := AnyFrameOnly(c, total);
    rest := AnyFrame(c, total).chan.input;
    AdvanceSilently(c, rest);
    if w.opcode == OP_PING {
      SendFrameInFull(c.(input := rest), ClientMsg(PONG_BYTE, w.payload));
    }
  }

  /** Nothing else is ever taken for a message: whenever receiving succeeds, the
      stream starts with the frames of a message, and there was room for the
      PONGs. */
  lemma {:induction false} RecvSound(c: Chan, total: nat, opcode: byte, data: bytes, started: bool)
        returns (ws: seq<Wire>, after: bytes)
    requires !started ==> data == []
    requires Recv(c, total, opcode, data, started).err == NoErr
    ensures AllLegal(ws) && IsMessage(ws, total, IoLimit(c.tls), |data|, started)
    ensures c.input == Encode(ws) + after
    ensures |Stream(c, Replies(ws))| <= c.room
    decreases |c.input|
  {
    hide RecvFrame, RecvMsg, MsgRest, Recv, ServerFrame, Stream, IsMessage, LegalWire, MaxPayload, Reply, Write,
          SendFrame, AnyFrame, Prepared, ClientFrame;
    var w, rest := RecvOneFrame(c, total, opcode, data, started);
    var c' := Advance(c, rest, Reply(w));
    var tail: seq<Wire>;
    if IsControl(w.opcode) {
      tail, after := RecvSound(c', total, opcode, data, started);
    } else if w.fin {
      tail, after := [], rest;
      assert Encode(tail) + after == rest;
      assert Replies(tail) == [];
      AdvanceSilently(c', rest);
    } else {
      tail, after := RecvSound(c', total, if started then opcode else w.opcode, data + w.payload, true);
    }
    FrontFrame(c, total, |data|, started, w, rest, tail, after);
    ws := [w] + tail;
  }

  /** Putting one frame in front of the rest of a message. */
  lemma FrontFrame(c: Chan, total: nat, got: nat, started: bool, w: Wire, rest: bytes, tail: seq<Wire>, after: bytes)
    requires got < total && LegalWire(w) && w.opcode != OP_CLOSE && |w.payload| <= MaxPayload(c, total - got)
    requires IsControl(w.opcode) ==> IsMessage(tail, total, IoLimit(c.tls), got, started)
    requires IsData(w.opcode) ==> (w.opcode == OP_CONTINUE <==> started)
    requires IsData(w.opcode) && w.fin ==> tail == []
    requires IsData(w.opcode) && !w.fin ==> IsMessage(tail, total, IoLimit(c.tls), got + |w.payload|, true)
    requires AllLegal(tail) && c.input == ServerFrame(w) + rest && rest == Encode(tail) + after
    requires |Stream(c, Reply(w))| <= c.room
    requires var c' := Advance(c, rest, Reply(w)); |Stream(c', Replies(tail))| <= c'.room
    ensures var ws := [w] + tail;
      && AllLegal(ws) && IsMessage(ws, total, IoLimit(c.tls), got, started)
      && c.input == Encode(ws) + after
      && |Stream(c, Replies(ws))| <= c.room
  {
    hide ServerFrame, Stream;
    var ws := [w] + tail;
    assert ws[0] == w && ws[1..] == tail;
    assert AllLegal(ws);
    Associate(ServerFrame(w), Encode(tail), after);
    StreamSplit(c, Advance(c, rest, Reply(w)), Reply(w), Replies(tail));
  }

  /** If receiving a message goes well, then so does its first frame, and what
      is left after it. */
  lemma RecvOneFrame(c: Chan, total: nat, opcode: byte, data: bytes, started: bool) returns (w: Wire, rest: bytes)
    requires !started ==> data == []
    requires Recv(c, total, opcode, data, started).err == NoErr
    ensures |data| < total && |w.payload| <= MaxPayload(c, total - |data|)
    ensures LegalWire(w) && w.opcode != OP_CLOSE && c.input == ServerFrame(w) + rest && |rest| < |c.input|
    ensures IsControl(w.opcode) != IsData(w.opcode)
    ensures |Stream(c, Reply(w))| <= c.room
    ensures var c' := Advance(c, rest, Reply(w));
      && (IsControl(w.opcode) ==> Recv(c', total, opcode, data, started).err == NoErr)
      && (IsData(w.opcode) ==> (w.opcode == OP_CONTINUE <==> started))
      && (IsData(w.opcode) && !w.fin ==>
            Recv(c', total, if started then opcode else w.opcode, data + w.payload, true).err == NoErr)
  {
    hide Recv, RecvMsg, MsgRest, RecvFrame, ServerFrame, Stream, FitsForm;
    RecvSucceeds(c, total, opcode, data, started);
    var room := total - |data|;
    w, rest := RecvFrameFirst(c, room);
    if IsControl(w.opcode) {
      PassesControl(c, room, w, rest);
      RecvSkips(c, Advance(c, rest, Reply(w)), total, opcode, data, started);
    } else {
      TakesData(c, room, w, rest);
      RecvTakes(c, total, opcode, data, started);
    }
  }

  lemma RecvSucceeds(c: Chan, total: nat, opcode: byte, data: bytes, started: bool)
    requires !started ==> data == []
    requires Recv(c, total, opcode, data, started).err == NoErr
    ensures |data| < total && RecvFrame(c, total - |data|).err == NoErr
  {
  }

  /** Exactly when a message is received, and what comes of it. */
  lemma RecvMsgExact(c: Chan, total: nat)
    ensures RecvMsg(c, total).err == NoErr <==>
      exists ws :: StartsWith(c, ws, total)
    ensures forall ws, rest :: StartsWith(c, ws, total) && c.input == Encode(ws) + rest ==>
      RecvMsg(c, total) == MsgOut(NoErr, Opcode(ws), Payload(ws), Advance(c, rest, Replies(ws)))
  {
    hide RecvMsg, Encode, Stream, Replies, IsMessage;
    if RecvMsg(c, total).err == NoErr {
      var ws, after := RecvSound(c, total, 0, [], false);
      assert StartsWith(c, ws, total);
    }
    forall ws, rest | StartsWith(c, ws, total) && c.input == Encode(ws) + rest
      ensures RecvMsg(c, total) == MsgOut(NoErr, Opcode(ws), Payload(ws), Advance(c, rest, Replies(ws)))
    {
      RecvComplete(c, total, 0, [], false, ws, rest);
    }
    forall ws | StartsWith(c, ws, total)
      ensures RecvMsg(c, total).err == NoErr
    {
      assert c.input == Encode(ws) + c.input[|Encode(ws)|..];
    }
  }

  /** The stream starts with the frames of a message that fits, and there is
      room to answer its PINGs. */
  ghost predicate StartsWith(c: Chan, ws: seq<Wire>, total: nat) {
    && AllLegal(ws)
    && IsMessage(ws, total, IoLimit(c.tls), 0, false)
    && Encode(ws) <= c.input
    && |Stream(c, Replies(ws))| <= c.room
  }

  /** The frames of a message can be told from the stream in one way only. */
  lemma {:induction false} MessageUnique(ws: seq<Wire>, vs: seq<Wire>, s: bytes, total: nat, limit: nat, got: nat,
        started: bool)
    requires AllLegal(ws) && IsMessage(ws, total, limit, got, started) && Encode(ws) <= s
    requires AllLegal(vs) && IsMessage(vs, total, limit, got, started) && Encode(vs) <= s
    ensures ws == vs
    decreases |ws|
  {
    hide ServerFrame;
    var a, b := s[|Encode(ws)|..], s[|Encode(vs)|..];
    Associate(ServerFrame(ws[0]), Encode(ws[1..]), a);
    Associate(ServerFrame(vs[0]), Encode(vs[1..]), b);
    ServerFrameUnique(ws[0], Encode(ws[1..]) + a, vs[0], Encode(vs[1..]) + b);
    assert ws == [ws[0]] + ws[1..] && vs == [vs[0]] + vs[1..];
    var s' := Encode(ws[1..]) + a;
    if IsControl(ws[0].opcode) {
      MessageUnique(ws[1..], vs[1..], s', total, limit, got, started);
    } else if !ws[0].fin {
      MessageUnique(ws[1..], vs[1..], s', total, limit, got + |ws[0].payload|, true);
    }
  }

  // ----- what is sent, however receiving ends -----

  /** At most `n` bytes from the front. */
  function Cut(s: bytes, n: nat): bytes {
    s[..Min(n, |s|)]
  }

  /** No frame is complete in `s`. */
  ghost predicate Partial(s: bytes) {
    forall w :: LegalWire(w) ==> !(ServerFrame(w) <= s)
  }

  predicate Suffix(s: bytes, rest: bytes) {
    |rest| <= |s| && s[|s| - |rest|..] == rest
  }

  /** From `s` to `rest` less than a frame has been taken. */
  ghost predicate TakesPart(s: bytes, rest: bytes) {
    Suffix(s, rest) && Partial(s[..|s| - |rest|])
  }

  /** Between `c` and `c'` exactly the frames `ws` have been received in full, and
      behind them at most a part of one more, and exactly the answers they call
      for have been sent; only where the peer stopped accepting bytes is the last
      answer cut short. A CLOSE is the last frame received, so its answer is the
      last one sent. If all went well then nothing was cut short and nothing else
      has happened to the connection. */
  ghost predicate Answered(c: Chan, c': Chan, err: Err, ws: seq<Wire>) {
    && AllLegal(ws)
    && Encode(ws) <= c.input
    && TakesPart(c.input[|Encode(ws)|..], c'.input)
    && c'.sent == c.sent + Cut(Stream(c, Replies(ws)), c.room)
    && (forall i :: 0 <= i < |ws| && ws[i].opcode == OP_CLOSE ==> i == |ws| - 1 && err == Eof)
    && (err == NoErr ==>
         && |Stream(c, Replies(ws))| <= c.room
         && c.input == Encode(ws) + c'.input
         && c' == Advance(c, c'.input, Replies(ws)))
  }

  lemma {:induction false} JoinFrames(ws: seq<Wire>, vs: seq<Wire>)
    requires AllLegal(ws) && AllLegal(vs)
    ensures AllLegal(ws + vs)
    ensures Encode(ws + vs) == Encode(ws) + Encode(vs)
    ensures Replies(ws + vs) == Replies(ws) + Replies(vs)
  {
    hide ServerFrame, LegalWire, Reply;
    assert AllLegal(ws + vs);
    if ws == [] {
      assert ws + vs == vs;
    } else {
      var all, tail := ws + vs, ws[1..];
      JoinFrames(tail, vs);
      assert all[0] == ws[0] && all[1..] == tail + vs;
      Associate(ServerFrame(ws[0]), Encode(tail), Encode(vs));
    }
  }

  lemma CutJoined(a: bytes, b: bytes, n: nat)
    requires |a| <= n
    ensures a + Cut(b, n - |a|) == Cut(a + b, n)
  {
  }

  lemma AnsweredThen(c: Chan, c1: Chan, ws: seq<Wire>, c2: Chan, err: Err, vs: seq<Wire>)
    requires Answered(c, c1, NoErr, ws) && Answered(c1, c2, err, vs)
    ensures Answered(c, c2, err, ws + vs)
  {
    hide Stream, ServerFrame, Encode, Replies, LegalWire, TakesPart;
    JoinFrames(ws, vs);
    CutTwice(c.input, |Encode(ws)|, |Encode(vs)|);
    StreamSplit(c, c1, Replies(ws), Replies(vs));
    CutJoined(Stream(c, Replies(ws)), Stream(c1, Replies(vs)), c.room);
    Associate(c.sent, Stream(c, Replies(ws)), Cut(Stream(c1, Replies(vs)), c1.room));
    if err == NoErr {
      Associate(Encode(ws), Encode(vs), c2.input);
      AdvanceTwice(c, c1.input, Replies(ws), c2.input, Replies(vs));
    }
  }

  /** Receiving frames takes bytes off the stream and does nothing else. */
  lemma AnyFrameQuiet(c: Chan, total: nat)
    ensures var out := AnyFrame(c, total);
      out.chan == c.(input := out.chan.input)
  {
    hide ReadHeader, Read;
    ReadHeaderQuiet(c);
    ReadQuiet(ReadHeader(c).chan, ReadHeader(c).length);
  }

  lemma ReadHeaderQuiet(c: Chan)
    ensures ReadHeader(c).chan == c.(input := ReadHeader(c).chan.input)
  {
    hide CheckHeader, FromBigEndian, Read;
    ReadQuiet(c, 2);
    ReadQuiet(Read(c, 2).chan, 2);
    ReadQuiet(Read(c, 2).chan, 8);
  }

  lemma ReadQuiet(c: Chan, n: nat)
    ensures Read(c, n).chan == c.(input := Read(c, n).chan.input)
  {
  }

  /** A small frame reaches the wire as far as there is room for it. */
  lemma SendFrameCut(c: Chan, msg: ClientMsg, body: Body)
    requires |msg.payload| <= 125 && (body == Present(msg.payload) || (msg.payload == [] && body == Absent(0)))
    ensures SendFrame(c, msg.first, body).chan.sent == c.sent + Cut(Stream(c, [msg]), c.room)
  {
    StreamOne(c, msg);
    var frame := ClientFrame(msg.first, c.masks(c.drawn), msg.payload);
    assert Prepared(msg.first, c.masks(c.drawn), body) == frame;
    assert 0 < |frame| <= 131;
    assert |frame| <= c.room ==> Cut(frame, c.room) == frame;
  }

  lemma ClosingReply(c: Chan, total: nat, w: Wire, err: Err)
    requires LegalWire(w) && ServerFrame(w) <= c.input && (w.opcode == OP_CLOSE ==> err == Eof) && err != NoErr
    requires w.opcode == OP_CLOSE || w.opcode == OP_PING
    requires AnyFrame(c, total).err == NoErr && AnyFrame(c, total).payload == w.payload
    requires c.input == ServerFrame(w) + AnyFrame(c, total).chan.input
    ensures var body := if w.opcode == OP_CLOSE then Absent(0) else Present(w.payload);
      Answered(c, SendFrame(AnyFrame(c, total).chan, Reply(w)[0].first, body).chan, err, [w])
  {
    hide ServerFrame, AnyFrame, SendFrame, Stream, TakesPart;
    AnyFrameQuiet(c, total);
    AllTaken(c.input, ServerFrame(w), AnyFrame(c, total).chan.input);
    SendKeepsInput(AnyFrame(c, total).chan, Reply(w)[0].first,
          if w.opcode == OP_CLOSE then Absent(0) else Present(w.payload));
    var c1 := AnyFrame(c, total).chan;
    var body := if w.opcode == OP_CLOSE then Absent(0) else Present(w.payload);
    SendFrameCut(c1, Reply(w)[0], body);
    assert Stream(c1, Reply(w)) == Stream(c, Reply(w)) by {
      StreamOne(c1, Reply(w)[0]);
      StreamOne(c, Reply(w)[0]);
    }
    OneFrame(w);
  }

  lemma OneFrame(w: Wire)
    requires LegalWire(w)
    ensures AllLegal([w]) && Encode([w]) == ServerFrame(w) && Replies([w]) == Reply(w)
  {
  }

  lemma NothingYet(c: Chan, c': Chan, err: Err)
    requires c' == c.(input := c'.input) && TakesPart(c.input, c'.input) && (err == NoErr ==> c'.input == c.input)
    ensures Answered(c, c', err, [])
  {
    assert Encode([]) == [] && Replies([]) == [] && Stream(c, []) == [];
    assert Cut([], c.room) == [];
    AdvanceSilently(c, c'.input);
    hide Encode, Replies, Stream, TakesPart, Cut;
    assert c.input[|Encode([])|..] == c.input;
    assert [] + c'.input == c'.input && c.sent + [] == c.sent;
  }

  lemma NothingTaken(s: bytes)
    ensures TakesPart(s, s)
  {
  }

  lemma SuffixTwice(s: bytes, t: bytes, u: bytes)
    requires Suffix(s, t) && Suffix(t, u)
    ensures Suffix(s, u)
  {
  }

  lemma ReadSuffix(c: Chan, n: nat)
    ensures Suffix(c.input, Read(c, n).chan.input)
  {
    hide IoLimit;
    var rest := Read(c, n).chan.input;
    assert rest == c.input || rest == [] || rest == c.input[n..];
  }

  lemma ReadHeaderSuffix(c: Chan)
    ensures Suffix(c.input, ReadHeader(c).chan.input)
  {
    hide Read, CheckHeader, FromBigEndian, Suffix;
    var h := Read(c, 2);
    ReadSuffix(c, 2);
    ReadSuffix(h.chan, 2);
    ReadSuffix(h.chan, 8);
    SuffixTwice(c.input, h.chan.input, Read(h.chan, 2).chan.input);
    SuffixTwice(c.input, h.chan.input, Read(h.chan, 8).chan.input);
  }

  lemma AnyFrameSuffix(c: Chan, total: nat)
    ensures Suffix(c.input, AnyFrame(c, total).chan.input)
  {
    NothingTaken(c.input);
    hide Read, ReadHeader, Suffix;
    var h := ReadHeader(c);
    ReadHeaderSuffix(c);
    ReadSuffix(h.chan, h.length);
    SuffixTwice(c.input, h.chan.input, Read(h.chan, h.length).chan.input);
  }

  /** A frame that is not received is not taken off the stream as a whole. */
  lemma AnyFrameFails(c: Chan, total: nat)
    requires AnyFrame(c, total).err != NoErr
    ensures TakesPart(c.input, AnyFrame(c, total).chan.input)
  {
    AnyFrameSuffix(c, total);
    var rest := AnyFrame(c, total).chan.input;
    var taken := c.input[..|c.input| - |rest|];
    forall w | LegalWire(w)
      ensures !(ServerFrame(w) <= taken)
    {
      if ServerFrame(w) <= taken {
        NotReceived(c, total, w, c.input[|ServerFrame(w)|..]);
      }
    }
  }

  lemma NotReceived(c: Chan, total: nat, w: Wire, rest: bytes)
    requires LegalWire(w) && c.input == ServerFrame(w) + rest
    requires AnyFrame(c, total).err != NoErr
    ensures |AnyFrame(c, total).chan.input| > |rest|
  {
    hide ServerFrame, ReadHeader, LegalWire;
    ReadHeaderDecodes(c, w, rest);
    if w.payload != [] {
      if |w.payload| <= IoLimit(c.tls) {
        ReadExactly(c.(input := w.payload + rest), w.payload, rest);
      }
    }
  }

  /** Every PING is answered once and in order, and a CLOSE ends it all, over
      every way of receiving a data frame, successful or not. */
  lemma {:induction false} RecvFrameAnswers(c: Chan, total: nat) returns (ws: seq<Wire>)
    ensures Answered(c, RecvFrame(c, total).chan, RecvFrame(c, total).err, ws)
    decreases |c.input|
  {
    hide AnyFrame, SendFrame, ServerFrame, Stream, LegalWire, Answered, Encode, Replies;
    if total == 0 {
      NothingTaken(c.input);
      NothingYet(c, c, InvalidArgument);
      return [];
    }
    var f := AnyFrame(c, total);
    if f.err != NoErr {
      AnyFrameQuiet(c, total);
      AnyFrameFails(c, total);
      NothingYet(c, f.chan, f.err);
      return [];
    }
    var w := AnyFrameOnly(c, total);
    var rest := f.chan.input;
    AnyFrameShrinks(c, total);
    if w.opcode == OP_CLOSE {
      ClosingReply(c, total, w, Eof);
      return [w];
    }
    if w.opcode == OP_PING {
      SendFrameInFull(f.chan, ClientMsg(PONG_BYTE, w.payload));
      var s := SendFrame(f.chan, PONG_BYTE, Present(w.payload));
      if s.err != NoErr {
        ClosingReply(c, total, w, s.err);
        return [w];
      }
      StreamOne(c, ClientMsg(PONG_BYTE, w.payload));
      StreamOne(f.chan, ClientMsg(PONG_BYTE, w.payload));
    } else {
      AdvanceSilently(c, rest);
    }
    var c' := Advance(c, rest, Reply(w));
    PassedFrame(c, w, rest);
    if IsData(w.opcode) {
      return [w];
    }
    var tail := RecvFrameAnswers(c', total);
    AnsweredThen(c, c', [w], RecvFrame(c, total).chan, RecvFrame(c, total).err, tail);
    ws := [w] + tail;
  }

  lemma AllTaken(s: bytes, done: bytes, rest: bytes)
    requires s == done + rest
    ensures done <= s && TakesPart(s[|done|..], rest)
  {
  }

  lemma PassedFrame(c: Chan, w: Wire, rest: bytes)
    requires LegalWire(w) && w.opcode != OP_CLOSE && c.input == ServerFrame(w) + rest
    requires |Stream(c, Reply(w))| <= c.room
    ensures Answered(c, Advance(c, rest, Reply(w)), NoErr, [w])
  {
    hide ServerFrame, Stream, TakesPart, LegalWire, Encode;
    AllTaken(c.input, ServerFrame(w), rest);
    OneFrame(w);
    CutWhole(Stream(c, Reply(w)), c.room);
  }

  lemma CutWhole(s: bytes, n: nat)
    requires |s| <= n
    ensures Cut(s, n) == s
  {
  }

  lemma AnsweredInFull(c: Chan, ws: seq<Wire>, rest: bytes)
    requires AllLegal(ws) && forall i :: 0 <= i < |ws| ==> ws[i].opcode != OP_CLOSE
    requires c.input == Encode(ws) + rest && |Stream(c, Replies(ws))| <= c.room
    ensures Answered(c, Advance(c, rest, Replies(ws)), NoErr, ws)
  {
  }

  lemma {:induction false} MessageHasNoClose(ws: seq<Wire>, total: nat, limit: nat, got: nat, started: bool)
    requires IsMessage(ws, total, limit, got, started)
    ensures forall i :: 0 <= i < |ws| ==> ws[i].opcode != OP_CLOSE
    decreases |ws|
  {
    if ws[0].opcode == OP_PING || ws[0].opcode == OP_PONG {
      MessageHasNoClose(ws[1..], total, limit, got, started);
    } else if !ws[0].fin {
      MessageHasNoClose(ws[1..], total, limit, got + |ws[0].payload|, true);
    }
    assert forall i :: 0 < i < |ws| ==> ws[i] == ws[1..][i - 1];
  }

  lemma AnsweredAnyway(c: Chan, c': Chan, err: Err, ws: seq<Wire>)
    requires Answered(c, c', NoErr, ws)
    ensures Answered(c, c', err, ws)
  {
  }

  /** The same over every way of receiving a message. */
  lemma {:induction false} RecvAnswers(c: Chan, total: nat, opcode: byte, data: bytes, started: bool)
        returns (ws: seq<Wire>)
    requires started || data == []
    ensures var out := Recv(c, total, opcode, data, started);
      Answered(c, out.chan, out.err, ws)
    decreases |c.input|
  {
    hide RecvFrame, Answered;
    var out := Recv(c, total, opcode, data, started);
    if |data| >= total {
      NothingTaken(c.input);
      NothingYet(c, c, out.err);
      return [];
    }
    var f := RecvFrame(c, total - |data|);
    ws := RecvFrameAnswers(c, total - |data|);
    if f.err != NoErr {
      return;
    }
    AnsweredAnyway(c, f.chan, out.err, ws);
    if out.chan != f.chan {
      RecvFrameShrinks(c, total - |data|);
      var vs := RecvAnswers(f.chan, total, if started then opcode else f.opcode, data + f.payload, true);
      assert !started ==> data + f.payload == f.payload;
      AnsweredThen(c, f.chan, ws, out.chan, out.err, vs);
      ws := ws + vs;
    }
  }

  /** What the server sees while a message is received: one PONG for every PING
      before the end of the message, each with the payload of its PING, in the
      order of the PINGs, unmasked by the server to the same bytes that were
      masked on top of the receive buffer; and nothing else. */
  lemma ServerSeesPongs(c: Chan, total: nat) returns (ws: seq<Wire>)
    requires RecvMsg(c, total).err == NoErr
    ensures var c' := RecvMsg(c, total).chan;
      && AllLegal(ws) && c.input == Encode(ws) + c'.input
      && c.sent <= c'.sent
      && SplitMasked(c'.sent[|c.sent|..]) == Whole(Replies(ws))
    ensures forall i :: 0 <= i < |Replies(ws)| ==> Replies(ws)[i].first == PONG_BYTE
  {
    ws := RecvAnswers(c, total, 0, [], false);
    hide RecvMsg, ServerFrame;
    var c' := RecvMsg(c, total).chan;
    RepliesAreSmall(ws);
    ClientStreamSplits(Replies(ws), Keys(c.masks, c.drawn, |Replies(ws)|));
    assert c'.sent[|c.sent|..] == Stream(c, Replies(ws));
  }

  lemma {:induction false} RepliesAreSmall(ws: seq<Wire>)
    requires AllLegal(ws)
    ensures forall i :: 0 <= i < |Replies(ws)| ==> |Replies(ws)[i].payload| <= 125
    ensures (forall i :: 0 <= i < |ws| ==> ws[i].opcode != OP_CLOSE) ==>
      forall i :: 0 <= i < |Replies(ws)| ==> Replies(ws)[i].first == PONG_BYTE
  {
    if ws == [] {
    } else {
      RepliesAreSmall(ws[1..]);
    }
  }
}

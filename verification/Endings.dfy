/**
  Exactly when receiving a message reports the end of the stream: the way in
  which a download succeeds.
 */
module Endings {
  import opened Bytes
  import opened Netx
  import opened Rfc6455
  import opened Frames
  import opened Messages

  // ----- a frame that is cut off -----

  /** The stream ends within a frame that would have been received: within its
      first two bytes, within its length, or within a payload for which there is
      room. What there is of the first two bytes or of the length has not been
      looked at by then. */
  ghost predicate BreaksOff(s: bytes, room: nat) {
    || |s| < 2
    || exists w: Wire :: LegalWire(w) && BreaksOffIn(s, w, room)
  }

  ghost predicate BreaksOffIn(s: bytes, w: Wire, room: nat)
    requires LegalWire(w)
  {
    || (FirstTwo(w) <= s && |s| < 2 + ExtraBytes(w.form))
    || (|w.payload| <= room && s <= ServerFrame(w) && s != ServerFrame(w))
  }

  function Zeros(n: nat): (s: bytes)
    ensures |s| == n
  {
    seq(n, _ => 0)
  }

  /** Some frame begins with any two acceptable bytes. */
  lemma SomeFrame(two: bytes) returns (w: Wire)
    requires |two| == 2 && CheckHeader(two).0 == NoErr
    ensures LegalWire(w) && FirstTwo(w) == two && SevenBits(w.form, |w.payload|) == Seven(two[1])
  {
    var h, seven := CheckHeader(two), Seven(two[1]);
    HeaderBytes(two);
    Pow256Values();
    w := if seven == 126 then Wire(h.2, h.1, Len16, []) else if seven == 127 then Wire(h.2, h.1, Len64, [])
         else Wire(h.2, h.1, Len7, Zeros(seven));
  }

  lemma ReadFails(c: Chan, n: nat)
    requires Read(c, n).err != NoErr
    ensures if n > IoLimit(c.tls) then Read(c, n).err == InvalidArgument
            else Read(c, n).err == c.inFault && |c.input| < n
  {
  }

  lemma ReadTooMuch(c: Chan, n: nat)
    requires |c.input| < n <= IoLimit(c.tls)
    ensures Read(c, n).err == c.inFault
  {
  }

  /** Two good bytes at the front have been read and found good. */
  lemma HeaderStart(c: Chan, w: Wire)
    requires LegalWire(w) && FirstTwo(w) <= c.input
    ensures var h, l := ReadHeader(c), ReadLength(c.(input := c.input[2..]), SevenBits(w.form, |w.payload|));
      && h.err == l.err && h.length == l.length && h.chan == l.chan
  {
    HeaderOfWire(w);
    ReadExactly(c, FirstTwo(w), c.input[2..]);
    hide CheckHeader, ReadLength;
    assert c.input == FirstTwo(w) + c.input[2..];
  }

  lemma LengthCut(c: Chan, w: Wire)
    requires LegalWire(w)
    ensures var l := ReadLength(c, SevenBits(w.form, |w.payload|));
      && (|c.input| < ExtraBytes(w.form) ==> l.err == c.inFault)
      && (|c.input| >= ExtraBytes(w.form) ==> l.err != Eof)
  {
  }

  /** What is left of the stream when a frame is cut off within its payload. */
  lemma PayloadCut(c: Chan, w: Wire, total: nat)
    requires LegalWire(w) && |w.payload| <= MaxPayload(c, total) && total > 0
    requires c.input <= ServerFrame(w) && c.input != ServerFrame(w) && |c.input| >= 2 + ExtraBytes(w.form)
    ensures AnyFrame(c, total).err == c.inFault
  {
    var extra := BigEndian(|w.payload|, ExtraBytes(w.form));
    ServerFrameLayout(w, []);
    assert ServerFrame(w) + [] == ServerFrame(w) && w.payload + [] == w.payload;
    assert |extra| == ExtraBytes(w.form);
    hide ServerFrame, FirstTwo, BigEndian, ReadHeader;
    var n := 2 + |extra|;
    assert ServerFrame(w)[..2] == FirstTwo(w) && ServerFrame(w)[2..n] == extra && |ServerFrame(w)| == n + |w.payload|;
    assert c.input[..2] == FirstTwo(w);
    assert c.input[2..] == extra + c.input[n..];
    HeaderStart(c, w);
    LengthOfWire(c.(input := c.input[2..]), w, c.input[n..]);
    ReadTooMuch(c.(input := c.input[n..]), |w.payload|);
  }

  /** Exactly when receiving a frame reports the end of the stream. */
  lemma FrameEofExact(c: Chan, total: nat)
    requires total > 0
    ensures AnyFrame(c, total).err == Eof <==> c.inFault == Eof && BreaksOff(c.input, MaxPayload(c, total))
  {
    if AnyFrame(c, total).err == Eof {
      EofBreaksOff(c, total);
    }
    if |c.input| < 2 {
      ReadTooMuch(c, 2);
    } else if w: Wire :| LegalWire(w) && BreaksOffIn(c.input, w, MaxPayload(c, total)) {
      BreaksOffEof(c, total, w);
    }
  }

  lemma BreaksOffEof(c: Chan, total: nat, w: Wire)
    requires total > 0 && |c.input| >= 2 && LegalWire(w) && BreaksOffIn(c.input, w, MaxPayload(c, total))
    ensures AnyFrame(c, total).err == c.inFault
  {
    if |c.input| < 2 + ExtraBytes(w.form) {
      ServerFrameLayout(w, []);
      hide ServerFrame, FirstTwo, ReadHeader, ReadLength;
      assert ServerFrame(w) + [] == ServerFrame(w);
      assert FirstTwo(w) <= c.input;
      HeaderStart(c, w);
      LengthCut(c.(input := c.input[2..]), w);
    } else {
      PayloadCut(c, w, total);
    }
  }

  lemma EofBreaksOff(c: Chan, total: nat)
    requires total > 0 && AnyFrame(c, total).err == Eof
    ensures c.inFault == Eof && BreaksOff(c.input, MaxPayload(c, total))
  {
    hide FirstTwo, ServerFrame, ReadLength;
    if |c.input| < 2 {
      ReadTooMuch(c, 2);
      return;
    }
    ReadExactly(c, c.input[..2], c.input[2..]);
    assert c.input == c.input[..2] + c.input[2..];
    assert CheckHeader(c.input[..2]).0 == NoErr;
    hide CheckHeader;
    var w := SomeFrame(c.input[..2]);
    HeaderStart(c, w);
    LengthCut(c.(input := c.input[2..]), w);
    if ReadHeader(c).err == Eof {
      assert BreaksOffIn(c.input, w, MaxPayload(c, total));
    } else {
      EofInPayload(c, total);
    }
  }

  /** A header with less behind it than it announces is the front of a frame. */
  lemma {:induction false} FilledUp(fin: bool, opcode: byte, form: LengthForm, n: nat, rest: bytes) returns (w: Wire)
    requires FitsForm(form, n) && (IsData(opcode) || IsControl(opcode)) && |rest| < n
    requires IsControl(opcode) ==> fin && form == Len7 && n <= 125
    ensures LegalWire(w) && |w.payload| == n
    ensures var s := [FirstByte(fin, opcode), LengthByte(false, SevenBits(form, n))]
                     + (BigEndian(n, ExtraBytes(form)) + rest);
      s <= ServerFrame(w) && s != ServerFrame(w)
  {
    hide FirstByte, LengthByte, BigEndian, ServerFrame;
    var fill := Zeros(n - |rest|);
    w := Wire(fin, opcode, form, rest + fill);
    ServerFrameLayout(w, []);
    var two, extra := FirstTwo(w), BigEndian(n, ExtraBytes(form));
    assert ServerFrame(w) == ServerFrame(w) + [] && w.payload + [] == w.payload;
    InFront(two, extra, rest, fill);
  }

  lemma InFront(a: bytes, b: bytes, rest: bytes, fill: bytes)
    requires fill != []
    ensures a + (b + rest) <= a + (b + (rest + fill)) && a + (b + rest) != a + (b + (rest + fill))
  {
  }

  lemma EofInPayload(c: Chan, total: nat)
    requires total > 0 && AnyFrame(c, total).err == Eof && ReadHeader(c).err == NoErr
    ensures c.inFault == Eof && BreaksOff(c.input, MaxPayload(c, total))
  {
    hide ReadHeader, ServerFrame, BigEndian, FirstByte, LengthByte, IsData, IsControl, Read;
    var form := ReadHeaderOnly(c);
    var h := ReadHeader(c);
    ReadFails(h.chan, h.length);
    var w := FilledUp(h.fin, h.opcode, form, h.length, h.chan.input);
    assert BreaksOffIn(c.input, w, MaxPayload(c, total));
  }

  // ----- the end of the stream within a message -----

  /** The frames of a message that goes on: PING and PONG frames anywhere, and
      data frames as in `IsMessage`, none of them the last. */
  ghost predicate Unfinished(ws: seq<Wire>, total: nat, limit: nat, got: nat, started: bool) {
    && got < total
    && (ws == [] ||
        (&& LegalWire(ws[0])
         && |ws[0].payload| <= Min(total - got, limit)
         && if ws[0].opcode == OP_PING || ws[0].opcode == OP_PONG then
              Unfinished(ws[1..], total, limit, got, started)
            else
              && ws[0].opcode != OP_CLOSE
              && (ws[0].opcode == OP_CONTINUE <==> started)
              && !ws[0].fin
              && Unfinished(ws[1..], total, limit, got + |ws[0].payload|, true)))
  }

  /** The next frame is a CLOSE; or the stream ends before it is complete; or it
      is a PING and sending ends before it is answered. */
  ghost predicate EndsNext(c: Chan, room: nat) {
    || (exists w: Wire :: LegalWire(w) && NextIs(c, w, OP_CLOSE, room))
    || (c.inFault == Eof && BreaksOff(c.input, MaxPayload(c, room)))
    || (&& c.outFault == Eof
        && exists w: Wire :: LegalWire(w) && NextIs(c, w, OP_PING, room) && c.room < |Stream(c, Reply(w))|)
  }

  ghost predicate NextIs(c: Chan, w: Wire, opcode: byte, room: nat)
    requires LegalWire(w)
  {
    w.opcode == opcode && |w.payload| <= MaxPayload(c, room) && ServerFrame(w) <= c.input
  }

  /** Behind the frames `ws` of a message that goes on, whose PINGs there is room
      to answer, the next frame ends it all. */
  ghost predicate EndsIn(c: Chan, ws: seq<Wire>, rest: bytes, total: nat, got: nat, started: bool) {
    && AllLegal(ws) && Unfinished(ws, total, IoLimit(c.tls), got, started)
    && c.input == Encode(ws) + rest
    && |Stream(c, Replies(ws))| <= c.room
    && got + |Payload(ws)| < total
    && EndsNext(Advance(c, rest, Replies(ws)), total - got - |Payload(ws)|)
  }

  /** The frame that ends it all does so. */
  lemma NextEnds(c: Chan, room: nat)
    requires room > 0 && EndsNext(c, room)
    ensures RecvFrame(c, room).err == Eof
  {
    hide AnyFrame, ServerFrame, Stream, BreaksOff;
    FrameEofExact(c, room);
    if w: Wire :| LegalWire(w) && NextIs(c, w, OP_CLOSE, room) {
      AnyFrameDecodes(c, room, w, c.input[|ServerFrame(w)|..]);
    } else if AnyFrame(c, room).err != Eof {
      var w: Wire :| LegalWire(w) && NextIs(c, w, OP_PING, room) && c.room < |Stream(c, Reply(w))|;
      AnyFrameDecodes(c, room, w, c.input[|ServerFrame(w)|..]);
      PingUnanswered(AnyFrame(c, room).chan, c, w);
    }
  }

  lemma PingUnanswered(c': Chan, c: Chan, w: Wire)
    requires c' == c.(input := c'.input) && |w.payload| <= 125 && w.opcode == OP_PING
    ensures var s := SendFrame(c', PONG_BYTE, Present(w.payload));
      s.err == if |Stream(c, Reply(w))| <= c.room then NoErr else c.outFault
  {
    StreamOne(c, ClientMsg(PONG_BYTE, w.payload));
    assert 0 < |Stream(c, Reply(w))| <= 131;
    hide Stream, ClientFrame, FrameHead;
    assert Prepared(PONG_BYTE, c.masks(c.drawn), Present(w.payload)) == Stream(c, Reply(w));
  }

  /** And a receive in which no data frame comes first reports the end only then. */
  lemma EndsNow(c: Chan, room: nat)
    requires room > 0 && RecvFrame(c, room).err == Eof
    requires var f := AnyFrame(c, room);
      f.err == NoErr && f.opcode == OP_PING ==> SendFrame(f.chan, PONG_BYTE, Present(f.payload)).err != NoErr
    requires AnyFrame(c, room).err == NoErr ==> AnyFrame(c, room).opcode != OP_PONG
    ensures EndsNext(c, room)
  {
    hide AnyFrame, ServerFrame, Stream, BreaksOff, SendFrame;
    FrameEofExact(c, room);
    var f := AnyFrame(c, room);
    if f.err == NoErr {
      var w := AnyFrameOnly(c, room);
      assert NextIs(c, w, w.opcode, room);
      if w.opcode == OP_PING {
        PingUnanswered(f.chan, c, w);
      }
    }
  }

  // ----- exactly when a message ends in the end of the stream -----

  /** One frame more in front of the frames of a message that goes on. */
  lemma FrontGoesOn(c: Chan, total: nat, got: nat, started: bool, w: Wire, rest: bytes,
                    tail: seq<Wire>, after: bytes)
    requires got < total && LegalWire(w) && w.opcode != OP_CLOSE && |w.payload| <= MaxPayload(c, total - got)
    requires IsData(w.opcode) ==> (w.opcode == OP_CONTINUE <==> started) && !w.fin
    requires c.input == ServerFrame(w) + rest && |Stream(c, Reply(w))| <= c.room
    requires EndsIn(Advance(c, rest, Reply(w)), tail, after, total,
                    if IsControl(w.opcode) then got else got + |w.payload|, started || IsData(w.opcode))
    ensures EndsIn(c, [w] + tail, after, total, got, started)
  {
    hide ServerFrame, Stream, EndsNext, FitsForm;
    var ws, c' := [w] + tail, Advance(c, rest, Reply(w));
    assert ws[0] == w && ws[1..] == tail;
    assert AllLegal(ws);
    Associate(ServerFrame(w), Encode(tail), after);
    StreamSplit(c, c', Reply(w), Replies(tail));
    AdvanceTwice(c, rest, Reply(w), after, Replies(tail));
    assert Payload(ws) == (if IsData(w.opcode) then w.payload else []) + Payload(tail);
  }

  lemma EndsAtOnce(c: Chan, total: nat, got: nat, started: bool)
    requires got < total && EndsNext(c, total - got)
    ensures EndsIn(c, [], c.input, total, got, started)
  {
    AdvanceSilently(c, c.input);
    hide EndsNext;
    assert Encode([]) + c.input == c.input;
  }

  /** What a receive that reports the end of the stream does first. */
  lemma EofStep(c: Chan, total: nat, opcode: byte, data: bytes, started: bool)
        returns (done: bool, w: Wire, rest: bytes)
    requires !started ==> data == []
    requires Recv(c, total, opcode, data, started).err == Eof
    ensures |data| < total
    ensures done ==> EndsNext(c, total - |data|)
    ensures !done ==>
      && LegalWire(w) && w.opcode != OP_CLOSE && |w.payload| <= MaxPayload(c, total - |data|)
      && c.input == ServerFrame(w) + rest && |rest| < |c.input| && |Stream(c, Reply(w))| <= c.room
      && (IsData(w.opcode) ==> (w.opcode == OP_CONTINUE <==> started) && !w.fin)
      && var c' := Advance(c, rest, Reply(w));
         if IsControl(w.opcode) then Recv(c', total, opcode, data, started).err == Eof
         else Recv(c', total, if started then opcode else w.opcode, data + w.payload, true).err == Eof
  {
    hide Recv, RecvMsg, MsgRest, RecvFrame, AnyFrame, SendFrame, ServerFrame, Stream, FitsForm, EndsNext;
    RecvNeedsRoom(c, total, opcode, data, started);
    var room := total - |data|;
    var f := AnyFrame(c, room);
    w := Wire(true, 0, Len7, []);
    rest := [];
    done := f.err != NoErr || f.opcode == OP_CLOSE
            || (f.opcode == OP_PING && SendFrame(f.chan, PONG_BYTE, Present(f.payload)).err != NoErr);
    if done {
      StopsHere(c, room);
      RecvFails(c, total, opcode, data, started);
      EndsNow(c, room);
      return;
    }
    w := AnyFrameOnly(c, room);
    rest := f.chan.input;
    if IsControl(w.opcode) {
      if w.opcode == OP_PING {
        PingUnanswered(f.chan, c, w);
      } else {
        AdvanceSilently(c, rest);
      }
      PassesControl(c, room, w, rest);
      RecvSkips(c, Advance(c, rest, Reply(w)), total, opcode, data, started);
    } else {
      TakesData(c, room, w, rest);
      RecvTakes(c, total, opcode, data, started);
    }
  }

  lemma RecvNeedsRoom(c: Chan, total: nat, opcode: byte, data: bytes, started: bool)
    requires (!started ==> data == []) && Recv(c, total, opcode, data, started).err == Eof
    ensures |data| < total
  {
  }

  lemma StopsHere(c: Chan, room: nat)
    requires room > 0
    requires var f := AnyFrame(c, room);
      f.err == NoErr && f.opcode != OP_CLOSE ==>
        f.opcode == OP_PING && SendFrame(f.chan, PONG_BYTE, Present(f.payload)).err != NoErr
    ensures RecvFrame(c, room).err != NoErr
  {
  }

  lemma RecvFails(c: Chan, total: nat, opcode: byte, data: bytes, started: bool)
    requires (!started ==> data == []) && |data| < total && RecvFrame(c, total - |data|).err != NoErr
    ensures Recv(c, total, opcode, data, started).err == RecvFrame(c, total - |data|).err
  {
  }

  lemma {:induction false} RecvEofSound(c: Chan, total: nat, opcode: byte, data: bytes, started: bool)
        returns (ws: seq<Wire>, after: bytes)
    requires !started ==> data == []
    requires Recv(c, total, opcode, data, started).err == Eof
    ensures EndsIn(c, ws, after, total, |data|, started)
    decreases |c.input|
  {
    hide Recv, RecvMsg, MsgRest, ServerFrame, Stream, EndsIn, EndsNext, FitsForm;
    var done, w, rest := EofStep(c, total, opcode, data, started);
    if done {
      EndsAtOnce(c, total, |data|, started);
      return [], c.input;
    }
    var c' := Advance(c, rest, Reply(w));
    if IsControl(w.opcode) {
      ws, after := RecvEofSound(c', total, opcode, data, started);
    } else {
      ws, after := RecvEofSound(c', total, if started then opcode else w.opcode, data + w.payload, true);
    }
    FrontGoesOn(c, total, |data|, started, w, rest, ws, after);
    ws := [w] + ws;
  }

  lemma UnfinishedLater(ws: seq<Wire>, total: nat, limit: nat, got: nat, started: bool)
    requires ws != [] && AllLegal(ws) && Unfinished(ws, total, limit, got, started)
    ensures var w, tail := ws[0], ws[1..];
      && got < total && LegalWire(w) && w.opcode != OP_CLOSE && |w.payload| <= Min(total - got, limit)
      && (IsData(w.opcode) ==> (w.opcode == OP_CONTINUE <==> started) && !w.fin)
      && AllLegal(tail) && Encode(ws) == ServerFrame(w) + Encode(tail)
      && Replies(ws) == Reply(w) + Replies(tail)
      && var got' := if IsControl(w.opcode) then got else got + |w.payload|;
         && got + |Payload(ws)| == got' + |Payload(tail)|
         && Unfinished(tail, total, limit, got', started || IsData(w.opcode))
  {
  }

  /** What is left of the frames behind the first. */
  lemma EndsInLater(c: Chan, ws: seq<Wire>, after: bytes, total: nat, got: nat, started: bool)
    requires ws != [] && EndsIn(c, ws, after, total, got, started)
    ensures var w, rest := ws[0], Encode(ws[1..]) + after;
      && got < total && LegalWire(w) && w.opcode != OP_CLOSE && |w.payload| <= MaxPayload(c, total - got)
      && (IsData(w.opcode) ==> (w.opcode == OP_CONTINUE <==> started) && !w.fin)
      && c.input == ServerFrame(w) + rest && |Stream(c, Reply(w))| <= c.room
      && EndsIn(Advance(c, rest, Reply(w)), ws[1..], after, total,
                if IsControl(w.opcode) then got else got + |w.payload|, started || IsData(w.opcode))
  {
    UnfinishedLater(ws, total, IoLimit(c.tls), got, started);
    hide ServerFrame, Stream, EndsNext, LegalWire, Reply, Replies, Payload, Unfinished, Encode, IsControl, IsData;
    var w, tail := ws[0], ws[1..];
    var rest := Encode(tail) + after;
    Associate(ServerFrame(w), Encode(tail), after);
    AdvanceTwice(c, rest, Reply(w), after, Replies(tail));
  }

  lemma {:induction false} RecvEofComplete(c: Chan, total: nat, opcode: byte, data: bytes, started: bool,
                                           ws: seq<Wire>, after: bytes)
    requires !started ==> data == []
    requires EndsIn(c, ws, after, total, |data|, started)
    ensures Recv(c, total, opcode, data, started).err == Eof
    decreases |ws|
  {
    hide Recv, RecvMsg, MsgRest, RecvFrame, ServerFrame, Stream, EndsNext, FitsForm;
    if ws == [] {
      AdvanceSilently(c, c.input);
      assert Encode([]) + after == after;
      NextEnds(c, total - |data|);
      RecvFails(c, total, opcode, data, started);
    } else {
      EndsInLater(c, ws, after, total, |data|, started);
      hide EndsIn;
      var w, room, rest := ws[0], total - |data|, Encode(ws[1..]) + after;
      var c' := Advance(c, rest, Reply(w));
      if IsControl(w.opcode) {
        PassesControl(c, room, w, rest);
        RecvSkips(c, c', total, opcode, data, started);
        RecvEofComplete(c', total, opcode, data, started, ws[1..], after);
      } else {
        TakesData(c, room, w, rest);
        RecvTakes(c, total, opcode, data, started);
        RecvEofComplete(c', total, if started then opcode else w.opcode, data + w.payload, true, ws[1..], after);
      }
    }
  }

  /** Exactly when receiving a message reports the end of the stream. */
  lemma RecvEofExact(c: Chan, total: nat)
    ensures RecvMsg(c, total).err == Eof <==> exists ws, rest :: EndsIn(c, ws, rest, total, 0, false)
  {
    hide RecvMsg, EndsIn;
    if RecvMsg(c, total).err == Eof {
      var ws, rest := RecvEofSound(c, total, 0, [], false);
    }
    if ws, rest :| EndsIn(c, ws, rest, total, 0, false) {
      RecvEofComplete(c, total, 0, [], false, ws, rest);
    }
  }
}

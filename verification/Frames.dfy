/**
  Single WebSocket frames: preparing and sending a masked frame, and receiving
  an unmasked one into a caller's buffer.
 */
module Frames {
  import opened Bytes
  import opened Netx
  import opened Rfc6455

  // ----- what the methods compute, on the one-shot view -----

  /** Sending one frame masked with the next key. */
  function SendFrame(c: Chan, first: byte, body: Body): WriteOut {
    Write(c.(drawn := c.drawn + 1), Prepared(first, c.masks(c.drawn), body))
  }

  datatype LengthRead = LengthRead(err: Err, length: nat, chan: Chan)

  /** The payload length, given its seven-bit part. */
  function ReadLength(c: Chan, seven: nat): LengthRead {
    if seven == 126 then
      var r := Read(c, 2);
      if r.err != NoErr then LengthRead(r.err, 0, r.chan)
      else LengthRead(NoErr, FromBigEndian(r.data), r.chan)
    else if seven == 127 then
      var r := Read(c, 8);
      if r.err != NoErr then LengthRead(r.err, 0, r.chan)
      else if r.data[0] & 0x80 != 0 then LengthRead(WsProto, 0, r.chan)
      else LengthRead(NoErr, FromBigEndian(r.data), r.chan)
    else LengthRead(NoErr, seven, c)
  }

  /** `payload` is what the first `*count` bytes of the buffer hold. */
  datatype FrameOut = FrameOut(err: Err, opcode: byte, fin: bool, payload: bytes, chan: Chan)

  /** The checks on the two header bytes, in the order they are made. The error
      comes with what has been stored through `opcode` and `fin` by then. */
  function CheckHeader(h: bytes): (r: (Err, byte, bool))
    requires |h| == 2
  {
    var fin, opcode := h[0] & FIN_FLAG != 0, h[0] & OPCODE_MASK;
    if h[0] & RESERVED_MASK != 0 then (WsProto, 0, fin)
    else if !IsData(opcode) && !IsControl(opcode) then (WsProto, opcode, fin)
    else if h[1] & MASK_FLAG != 0 then (InvalidArgument, opcode, fin)
    else if IsControl(opcode) && (h[1] & LEN_MASK > 125 || !fin) then (WsProto, opcode, fin)
    else (NoErr, opcode, fin)
  }

  datatype HeaderRead = HeaderRead(err: Err, opcode: byte, fin: bool, length: nat, chan: Chan)

  /** Everything before the payload. */
  function ReadHeader(c: Chan): HeaderRead {
    var h := Read(c, 2);
    if h.err != NoErr then HeaderRead(h.err, 0, false, 0, h.chan)
    else
      var (err, opcode, fin) := CheckHeader(h.data);
      if err != NoErr then HeaderRead(err, opcode, fin, 0, h.chan)
      else
        var l := ReadLength(h.chan, (h.data[1] & LEN_MASK) as int);
        HeaderRead(l.err, opcode, fin, l.length, l.chan)
  }

  /** Receiving any one frame into a buffer of `total` bytes. */
  function AnyFrame(c: Chan, total: nat): FrameOut {
    if total == 0 then FrameOut(InvalidArgument, 0, false, [], c)
    else
      var h := ReadHeader(c);
      if h.err != NoErr then FrameOut(h.err, h.opcode, h.fin, [], h.chan)
      else if h.length > total then FrameOut(MessageSize, h.opcode, h.fin, [], h.chan)
      else
        var b := Read(h.chan, h.length);
        FrameOut(b.err, h.opcode, h.fin, if b.err == NoErr then b.data else [], b.chan)
  }

  // ----- receiving a frame inverts the server's encoding -----

  /** The longest payload that fits the buffer and a single read. */
  function MaxPayload(c: Chan, total: nat): nat {
    Min(total, IoLimit(c.tls))
  }

  lemma HeaderOfWire(w: Wire)
    requires LegalWire(w)
    ensures var h := [FirstByte(w.fin, w.opcode), LengthByte(false, SevenBits(w.form, |w.payload|))];
      && CheckHeader(h) == (NoErr, w.opcode, w.fin)
      && (h[1] & LEN_MASK) as int == SevenBits(w.form, |w.payload|)
  {
  }

  lemma LengthOfWire(c: Chan, w: Wire, rest: bytes)
    requires LegalWire(w)
    requires c.input == BigEndian(|w.payload|, ExtraBytes(w.form)) + rest
    ensures ReadLength(c, SevenBits(w.form, |w.payload|)) == LengthRead(NoErr, |w.payload|, c.(input := rest))
  {
    var n, extra := |w.payload|, ExtraBytes(w.form);
    if w.form == Len7 {
      assert c.input == rest;
    } else {
      var field := BigEndian(n, extra);
      Pow256Values();
      BigEndianRoundTrip(n, extra);
      assert c.input[..extra] == field && c.input[extra..] == rest;
      if w.form == Len64 {
        TopBit(n);
      }
    }
  }

  /** The first of the eight length bytes has its top bit set exactly for
      lengths of 2^63 and more. */
  lemma TopBit(n: nat)
    requires n <= SIZE_MAX
    ensures BigEndian(n, 8)[0] & 0x80 != 0 <==> n >= TWO63
  {
    Pow256Values();
    assert Pow256(8) == 256 * Pow256(7);
    BigEndianByte(n, 8, 0);
    TopOctet(n, 7);
    HighBit(BigEndian(n, 8)[0]);
  }

  lemma ReadExactly(c: Chan, data: bytes, rest: bytes)
    requires c.input == data + rest && |data| <= IoLimit(c.tls)
    ensures Read(c, |data|) == ReadOut(NoErr, data, c.(input := rest))
  {
  }

  /** The two bytes that every frame starts with. */
  function FirstTwo(w: Wire): (h: bytes)
    requires LegalWire(w)
    ensures |h| == 2
  {
    [FirstByte(w.fin, w.opcode), LengthByte(false, SevenBits(w.form, |w.payload|))]
  }

  lemma ServerFrameLayout(w: Wire, rest: bytes)
    requires LegalWire(w)
    ensures ServerFrame(w) + rest == FirstTwo(w) + (BigEndian(|w.payload|, ExtraBytes(w.form)) + (w.payload + rest))
  {
  }

  lemma ReadHeaderDecodes(c: Chan, w: Wire, rest: bytes)
    requires LegalWire(w) && c.input == ServerFrame(w) + rest
    ensures ReadHeader(c) == HeaderRead(NoErr, w.opcode, w.fin, |w.payload|, c.(input := w.payload + rest))
  {
    var tail := BigEndian(|w.payload|, ExtraBytes(w.form)) + (w.payload + rest);
    ServerFrameLayout(w, rest);
    HeaderOfWire(w);
    ReadExactly(c, FirstTwo(w), tail);
    LengthOfWire(c.(input := tail), w, w.payload + rest);
  }

  /** A legal frame at the head of the stream is received, whatever its length
      form, as long as its payload has room; the stream goes on behind it.
      Without room it is refused before any of the payload is read. */
  lemma AnyFrameDecodes(c: Chan, total: nat, w: Wire, rest: bytes)
    requires LegalWire(w) && c.input == ServerFrame(w) + rest && total > 0
    ensures |w.payload| <= MaxPayload(c, total) ==>
      AnyFrame(c, total) == FrameOut(NoErr, w.opcode, w.fin, w.payload, c.(input := rest))
    ensures |w.payload| > total ==>
      AnyFrame(c, total) == FrameOut(MessageSize, w.opcode, w.fin, [], c.(input := w.payload + rest))
  {
    ReadHeaderDecodes(c, w, rest);
    if |w.payload| <= MaxPayload(c, total) {
      ReadExactly(c.(input := w.payload + rest), w.payload, rest);
    }
  }

  /** What the header bytes of an accepted frame were made from. */
  lemma HeaderOnly(h: bytes)
    requires |h| == 2 && CheckHeader(h).0 == NoErr
    ensures h[0] == FirstByte(CheckHeader(h).2, CheckHeader(h).1)
    ensures h[1] & MASK_FLAG == 0
    ensures IsData(CheckHeader(h).1) || IsControl(CheckHeader(h).1)
    ensures IsControl(CheckHeader(h).1) ==> CheckHeader(h).2 && (h[1] & LEN_MASK) as int <= 125
  {
  }

  lemma LengthOnly(c: Chan, seven: nat) returns (form: LengthForm)
    requires seven < 128 && ReadLength(c, seven).err == NoErr
    ensures var l := ReadLength(c, seven);
      && FitsForm(form, l.length)
      && SevenBits(form, l.length) == seven
      && c.input == BigEndian(l.length, ExtraBytes(form)) + l.chan.input
      && l.chan == c.(input := l.chan.input)
  {
    form := if seven < 126 then Len7 else if seven == 126 then Len16 else Len64;
    Pow256Values();
    if form != Len7 {
      ExtendedLength(c, ExtraBytes(form));
    }
    if form == Len64 {
      TopBit(ReadLength(c, seven).length);
    }
  }

  lemma ExtendedLength(c: Chan, extra: nat)
    requires Read(c, extra).err == NoErr
    ensures var r := Read(c, extra);
      && FromBigEndian(r.data) < Pow256(extra)
      && BigEndian(FromBigEndian(r.data), extra) == r.data
      && c.input == r.data + r.chan.input
      && r.chan == c.(input := r.chan.input)
  {
    ReadSplits(c, extra);
    FromBigEndianRoundTrip(Read(c, extra).data);
  }

  function Seven(b: byte): (n: nat)
    ensures n < 128
  {
    LowBits(b);
    (b & LEN_MASK) as int
  }

  /** The two header bytes of an accepted frame and what is read behind them. */
  lemma TwoBytesRead(c: Chan)
    requires ReadHeader(c).err == NoErr
    ensures var r, h := Read(c, 2), ReadHeader(c);
      && |r.data| == 2 && c.input == r.data + r.chan.input && r.chan == c.(input := r.chan.input)
      && CheckHeader(r.data) == (NoErr, h.opcode, h.fin)
      && ReadLength(r.chan, Seven(r.data[1])) == LengthRead(NoErr, h.length, h.chan)
  {
  }

  lemma HeaderBytes(two: bytes)
    requires |two| == 2 && CheckHeader(two).0 == NoErr
    ensures var h := CheckHeader(two);
      && two == [FirstByte(h.2, h.1), LengthByte(false, Seven(two[1]))]
      && (IsData(h.1) || IsControl(h.1))
      && (IsControl(h.1) ==> h.2 && Seven(two[1]) <= 125)
  {
    HeaderOnly(two);
    LengthByteOf(two[1]);
    hide CheckHeader, FirstByte, LengthByte;
    assert two == [two[0], two[1]];
  }

  lemma ReadHeaderOnly(c: Chan) returns (form: LengthForm)
    requires ReadHeader(c).err == NoErr
    ensures var h := ReadHeader(c);
      && h.chan == c.(input := h.chan.input)
      && FitsForm(form, h.length)
      && (IsData(h.opcode) || IsControl(h.opcode))
      && (IsControl(h.opcode) ==> h.fin && form == Len7 && h.length <= 125)
      && c.input == [FirstByte(h.fin, h.opcode), LengthByte(false, SevenBits(form, h.length))]
                    + (BigEndian(h.length, ExtraBytes(form)) + h.chan.input)
  {
    hide Read, ReadHeader, CheckHeader, ReadLength, FirstByte, LengthByte, BigEndian, Seven, IsData, IsControl;
    TwoBytesRead(c);
    var two := Read(c, 2).data;
    HeaderBytes(two);
    form := LengthOnly(Read(c, 2).chan, Seven(two[1]));
  }

  lemma ReadSplits(c: Chan, n: nat)
    requires Read(c, n).err == NoErr
    ensures var r := Read(c, n);
      |r.data| == n <= IoLimit(c.tls) && c.input == r.data + r.chan.input && r.chan == c.(input := r.chan.input)
  {
  }

  lemma AnyFrameBody(c: Chan, total: nat)
    requires AnyFrame(c, total).err == NoErr
    ensures var h, out := ReadHeader(c), AnyFrame(c, total);
      && h.err == NoErr
      && h.opcode == out.opcode && h.fin == out.fin && h.length == |out.payload| <= MaxPayload(c, total)
      && h.chan.input == out.payload + out.chan.input
      && out.chan == c.(input := out.chan.input)
  {
    hide ReadHeader, Read, FitsForm, SevenBits, BigEndian, FirstByte, LengthByte;
    var form := ReadHeaderOnly(c);
    ReadSplits(ReadHeader(c).chan, ReadHeader(c).length);
  }

  /** Whatever is received as a frame is a legal frame, complete, and exactly
      what has been taken off the stream. */
  lemma AnyFrameOnly(c: Chan, total: nat) returns (w: Wire)
    requires AnyFrame(c, total).err == NoErr
    ensures var out := AnyFrame(c, total);
      && LegalWire(w) && c.input == ServerFrame(w) + out.chan.input
      && |w.payload| <= MaxPayload(c, total)
      && out == FrameOut(NoErr, w.opcode, w.fin, w.payload, c.(input := out.chan.input))
  {
    AnyFrameBody(c, total);
    var form := ReadHeaderOnly(c);
    var out := AnyFrame(c, total);
    w := Wire(out.fin, out.opcode, form, out.payload);
    ServerFrameLayout(w, out.chan.input);
  }

  /** Exactly when a frame is received: the stream starts with a legal frame
      whose payload has room. */
  lemma AnyFrameExact(c: Chan, total: nat)
    ensures AnyFrame(c, total).err == NoErr <==>
      total > 0 && exists w: Wire :: LegalWire(w) && |w.payload| <= MaxPayload(c, total) && ServerFrame(w) <= c.input
  {
    if AnyFrame(c, total).err == NoErr {
      var w := AnyFrameOnly(c, total);
      assert ServerFrame(w) <= c.input;
    }
    forall w: Wire | total > 0 && LegalWire(w) && |w.payload| <= MaxPayload(c, total) && ServerFrame(w) <= c.input
      ensures AnyFrame(c, total).err == NoErr
    {
      AnyFrameDecodes(c, total, w, c.input[|ServerFrame(w)|..]);
    }
  }

  // ----- the methods -----

  /** The payload that a pointer and a count stand for. */
  ghost function BodyAt(base: array?<byte>, start: nat, count: Size): Body
    requires base != null ==> start + count <= base.Length
    reads base
  {
    if base == null then Absent(count) else Present(base[start..start + count])
  }

  /** The length bytes as the client writes them, one shift at a time. */
  function LengthBytes(count: Size): bytes {
    if count < 126 then [(ByteOf(count) & LEN_MASK) | MASK_FLAG]
    else if count < 0x1_0000 then
      [(126 & LEN_MASK) | MASK_FLAG] + [Shifted(count, 8), Shifted(count, 0)]
    else
      [(127 & LEN_MASK) | MASK_FLAG] + [
        Shifted(count, 56), Shifted(count, 48), Shifted(count, 40), Shifted(count, 32),
        Shifted(count, 24), Shifted(count, 16), Shifted(count, 8), Shifted(count, 0)]
  }

  lemma LengthBytesCorrect(count: Size)
    ensures LengthBytes(count) == LengthField(true, MinimalForm(count), count)
  {
    var form := MinimalForm(count);
    if form == Len7 {
      HighBit(ByteOf(count));
      OrMaskFlag(ByteOf(count));
    } else if form == Len16 {
      BigEndianTwo(count, ExtraBytes(form));
    } else {
      BigEndianEight(count, ExtraBytes(form));
    }
  }

  /** Returns the next frame, masked with the next key. The payload is masked in
      place, so afterwards the buffer holds what goes on the wire. */
  method WsPrepareFrame(conn: Conn, first: byte, base: array?<byte>, start: nat, count: Size) returns (frame: bytes)
    requires base != null ==> start + count <= base.Length
    modifies conn`drawn, base
    ensures frame == Prepared(first, conn.masks(old(conn.drawn)), old(BodyAt(base, start, count)))
    ensures conn.View() == old(conn.View()).(drawn := old(conn.drawn) + 1)
    ensures base != null ==>
      base[..] == Overlay(old(base[..]), start, Masked(old(base[start..start + count]), conn.masks(old(conn.drawn))))
  {
    var mask := conn.masks(conn.drawn);
    conn.drawn := conn.drawn + 1;
    frame := [first];
    frame := frame + LengthBytes(count);
    LengthBytesCorrect(count);
    frame := frame + mask;
    assert frame == FrameHead(first, mask, count);
    if base != null {
      frame := MaskInto(frame, mask, base, start, count);
    }
  }

  /** Masks `count` bytes of the buffer where they are and appends them. */
  method MaskInto(head: bytes, mask: Mask, base: array<byte>, start: nat, count: Size) returns (frame: bytes)
    requires start + count <= base.Length
    modifies base
    ensures frame == head + Masked(old(base[start..start + count]), mask)
    ensures base[..] == Overlay(old(base[..]), start, Masked(old(base[start..start + count]), mask))
  {
    ghost var masked := Masked(base[start..start + count], mask);
    frame := head;
    for i := 0 to count
      invariant frame == head + masked[..i]
      invariant forall k :: 0 <= k < i ==> base[start + k] == masked[k]
      invariant forall k :: 0 <= k < base.Length && !(start <= k < start + i) ==> base[k] == old(base[k])
    {
      base[start + i] := base[start + i] ^ mask[i % 4];
      frame := frame + [base[start + i]];
    }
    assert base[..] == Overlay(old(base[..]), start, masked);
  }

  lemma PreparedLength(first: byte, m: Mask, body: Body)
    ensures |Prepared(first, m, body)| <= body.Count() + 14
  {
  }

  /** Sends a frame. The buffer is left masked. */
  method WsSendFrame(conn: Conn, first: byte, base: array?<byte>, start: nat, count: Size) returns (err: Err)
    requires base != null ==> start + count <= base.Length
    requires count <= SIZE_MAX - 14
    modifies conn`drawn, conn`tx, conn`sent, base
    ensures var out := SendFrame(old(conn.View()), first, old(BodyAt(base, start, count)));
      err == out.err && conn.View() == out.chan
    ensures base != null ==>
      base[..] == Overlay(old(base[..]), start, Masked(old(base[start..start + count]), conn.masks(old(conn.drawn))))
  {
    hide Arriving, InFault, Capacity, OutFault, Overlay, Masked, Write, BigEndian, FrameHead;
    ghost var body := BodyAt(base, start, count);
    var prep := WsPrepareFrame(conn, first, base, start, count);
    PreparedLength(first, conn.masks(old(conn.drawn)), body);
    err := conn.Sendn(prep);
  }

  /** Receives the payload of a frame, if it has one. */
  method RecvBody(conn: Conn, base: array<byte>, start: nat, length: Size, ghost total: nat)
        returns (err: Err, count: Size)
    requires length <= total && start + total <= base.Length
    modifies conn`rx, base
    ensures var out := Read(old(conn.View()), length);
      && err == out.err && conn.View() == out.chan
      && (err == NoErr ==> count == length && base[start..start + count] == out.data)
      && (err != NoErr ==> count == 0)
    ensures base[..start] == old(base[..start])
    ensures base[start + total..] == old(base[start + total..])
  {
    hide conn.View, Overlay, IoLimit;
    count := 0;
    if length == 0 {
      return NoErr, 0;
    }
    ghost var c, was := conn.View(), base[..];
    err := conn.Recvn(base, start, length);
    OverlaySlices(was, start, Read(c, length).data, start + total);
    if err == NoErr {
      count := length;
    }
  }

  /** Receives one frame of any kind into `base[start..start + total]`. */
  method WsRecvAnyFrame(conn: Conn, base: array<byte>, start: nat, total: Size)
    returns (err: Err, opcode: byte, fin: bool, count: Size)
    requires start + total <= base.Length
    modifies conn`rx, base
    ensures var out := AnyFrame(old(conn.View()), total);
      && err == out.err && opcode == out.opcode && fin == out.fin && count == |out.payload|
      && conn.View() == out.chan
      && count <= total
      && base[start..start + count] == out.payload
    ensures base[..start] == old(base[..start])
    ensures base[start + total..] == old(base[start + total..])
  {
    hide conn.View, ReadHeader;
    if total == 0 {
      return InvalidArgument, 0, false, 0;
    }
    var length;
    err, opcode, fin, length := RecvHeader(conn);
    count := 0;
    if err != NoErr {
      return;
    }
    if length > total {
      return MessageSize, opcode, fin, count;
    }
    err, count := RecvBody(conn, base, start, length, total);
  }

  /** Everything before the payload. */
  method RecvHeader(conn: Conn) returns (err: Err, opcode: byte, fin: bool, length: Size)
    modifies conn`rx
    ensures var out := ReadHeader(old(conn.View()));
      && err == out.err && opcode == out.opcode && fin == out.fin && length == out.length
      && conn.View() == out.chan
  {
    hide conn.View, Read, CheckHeader, ReadLength;
    opcode, fin, length := 0, false, 0;
    var buf;
    err, buf := conn.RecvBytes(2);
    if err != NoErr {
      return;
    }
    err, opcode, fin := InspectHeader(buf);
    if err != NoErr {
      return;
    }
    LowBits(buf[1]);
    err, length := RecvLength(conn, (buf[1] & LEN_MASK) as int);
  }

  method InspectHeader(buf: bytes) returns (err: Err, opcode: byte, fin: bool)
    requires |buf| == 2
    ensures (err, opcode, fin) == CheckHeader(buf)
  {
    opcode, fin := 0, buf[0] & FIN_FLAG != 0;
    if buf[0] & RESERVED_MASK != 0 {
      return WsProto, opcode, fin;
    }
    opcode := buf[0] & OPCODE_MASK;
    if !IsData(opcode) && !IsControl(opcode) {
      return WsProto, opcode, fin;
    }
    if buf[1] & MASK_FLAG != 0 {
      return InvalidArgument, opcode, fin;
    }
    if IsControl(opcode) && (buf[1] & LEN_MASK > 125 || !fin) {
      return WsProto, opcode, fin;
    }
    err := NoErr;
  }

  /** The rest of the length, given its seven-bit part. */
  method RecvLength(conn: Conn, seven: nat) returns (err: Err, length: Size)
    requires seven < 128
    modifies conn`rx
    ensures var out := ReadLength(old(conn.View()), seven);
      err == out.err && length == out.length && conn.View() == out.chan
  {
    hide FromBigEndian, Pow256, conn.View;
    length := seven;
    if seven == 126 {
      var len;
      err, len := conn.RecvBytes(2);
      if err != NoErr {
        return err, 0;
      }
      FromBigEndianTwo(len);
      length := (len[0] as nat) * 0x100 + (len[1] as nat);
    } else if seven == 127 {
      var len;
      err, len := conn.RecvBytes(8);
      if err != NoErr {
        return err, 0;
      }
      if len[0] & 0x80 != 0 {
        return WsProto, 0;
      }
      Pow256Values();
      FromBigEndianRoundTrip(len);
      FromBigEndianEight(len);
      length := (len[0] as nat) * 0x100_0000_0000_0000 + (len[1] as nat) * 0x1_0000_0000_0000
              + (len[2] as nat) * 0x100_0000_0000 + (len[3] as nat) * 0x1_0000_0000
              + (len[4] as nat) * 0x100_0000 + (len[5] as nat) * 0x1_0000
              + (len[6] as nat) * 0x100 + (len[7] as nat);
    }
    err := NoErr;
  }
}

/**
  The frames byte by byte, as in the examples of section 5.7 of RFC 6455: what
  each first byte means to the client, and what the client puts on the wire.
 */
module WireExamples {
  import opened Bytes
  import opened Netx
  import opened Rfc6455
  import opened Frames
  import opened Messages

  // ----- frames from the server -----

  /** A frame with a short payload: its first byte, its length and the payload. */
  function Short(first: byte, p: bytes): bytes
    requires |p| < 126
  {
    [first, ByteOf(|p|)] + p
  }

  /** What the first byte says. */
  lemma FirstBytes()
    ensures FirstByte(false, OP_CONTINUE) == 0x00 && FirstByte(true, OP_CONTINUE) == 0x80
    ensures FirstByte(false, OP_TEXT) == 0x01 && FirstByte(true, OP_TEXT) == 0x81
    ensures FirstByte(false, OP_BINARY) == 0x02 && FirstByte(true, OP_BINARY) == 0x82
    ensures FirstByte(true, OP_CLOSE) == 0x88
    ensures FirstByte(true, OP_PING) == 0x89 && FirstByte(true, OP_PONG) == 0x8A
  {
  }

  lemma ShortIsFrame(fin: bool, opcode: byte, p: bytes)
    requires |p| < 126 && (IsData(opcode) || (IsControl(opcode) && fin))
    ensures var w := Wire(fin, opcode, Len7, p);
      LegalWire(w) && ServerFrame(w) == Short(FirstByte(fin, opcode), p)
  {
  }

  /** A PING is answered by a PONG with its payload, whatever comes then. */
  lemma PingAnswered(c: Chan, total: nat, p: bytes, rest: bytes)
    requires |p| <= 125 && |p| <= total && total > 0
    requires c.input == Short(0x89, p) + rest && 6 + |p| <= c.room
    ensures var sent := RecvFrame(c, total).chan.sent;
      && c.sent <= sent
      && var d := DecodeMasked(sent[|c.sent|..]); d.Frame? && d.first == 0x8A && d.payload == p
  {
    FirstBytes();
    hide RecvFrame, ServerFrame, Stream, ClientFrame, DecodeMasked;
    var w, msg := Wire(true, OP_PING, Len7, p), ClientMsg(0x8A, p);
    ShortIsFrame(true, OP_PING, p);
    assert Reply(w) == [msg];
    PongSize(c, p);
    PassesControl(c, total, w, rest);
    var c' := Advance(c, rest, [msg]);
    var _ := RecvFrameAnswers(c', total);
    var more := RecvFrame(c', total).chan.sent[|c'.sent|..];
    StreamOne(c, msg);
    ClientFrameRoundTrip(0x8A, c.masks(c.drawn), p, more);
    assert RecvFrame(c', total).chan.sent[|c.sent|..] == Stream(c, [msg]) + more;
  }

  lemma PongSize(c: Chan, p: bytes)
    requires |p| <= 125
    ensures |Stream(c, [ClientMsg(0x8A, p)])| == 6 + |p|
  {
    StreamOne(c, ClientMsg(0x8A, p));
  }

  /** A PONG is dropped. */
  lemma PongDropped(c: Chan, total: nat, p: bytes, rest: bytes)
    requires |p| <= 125 && |p| <= total && total > 0 && c.input == Short(0x8A, p) + rest
    ensures RecvFrame(c, total) == RecvFrame(c.(input := rest), total)
    ensures rest == [] ==> RecvFrame(c, total).chan.sent == c.sent
  {
    FirstBytes();
    hide RecvFrame, ServerFrame, Stream;
    ShortIsFrame(true, OP_PONG, p);
    AdvanceSilently(c, rest);
    PassesControl(c, total, Wire(true, OP_PONG, Len7, p), rest);
    NothingToReceive(c.(input := []), total);
  }

  lemma NothingToReceive(c: Chan, total: nat)
    requires c.input == [] && total > 0
    ensures RecvFrame(c, total).err == c.inFault && RecvFrame(c, total).chan == c
  {
  }

  /** A CLOSE is answered by an empty CLOSE, and is the end. */
  lemma CloseAnswered(c: Chan, total: nat, p: bytes, rest: bytes)
    requires |p| <= 125 && |p| <= total && total > 0
    requires c.input == Short(0x88, p) + rest && 6 <= c.room
    ensures var out := RecvFrame(c, total);
      && out.err == Eof && out.chan.input == rest
      && c.sent <= out.chan.sent && DecodeMasked(out.chan.sent[|c.sent|..]) == Frame(0x88, [], [])
  {
    FirstBytes();
    ShortIsFrame(true, OP_CLOSE, p);
    hide ServerFrame, ClientFrame, DecodeMasked;
    AnyFrameDecodes(c, total, Wire(true, OP_CLOSE, Len7, p), rest);
    var key := c.masks(c.drawn);
    PreparedFrameDecodes(0x88, key, Absent(0));
    FrameHeadAlone(0x88, key, 0);
    HeadSize(0x88, key);
  }

  lemma HeadSize(first: byte, m: Mask)
    ensures |FrameHead(first, m, 0)| == 6
  {
  }

  /** The other frames are handed over with their opcode and FIN flag. */
  lemma DataReceived(c: Chan, total: nat, first: byte, p: bytes, rest: bytes)
    requires |p| < 126 && |p| <= total && total > 0 && c.input == Short(first, p) + rest
    requires first in {0x00, 0x80, 0x01, 0x81, 0x02, 0x82}
    ensures RecvFrame(c, total)
      == FrameOut(NoErr, if first in {0x00, 0x80} then 0 else if first in {0x01, 0x81} then 1 else 2,
                  first in {0x80, 0x81, 0x82}, p, c.(input := rest))
  {
    FirstBytes();
    hide RecvFrame, ServerFrame, Stream;
    var fin := first in {0x80, 0x81, 0x82};
    var opcode := if first in {0x00, 0x80} then OP_CONTINUE else if first in {0x01, 0x81} then OP_TEXT else OP_BINARY;
    ShortIsFrame(fin, opcode, p);
    AdvanceSilently(c, rest);
    TakesData(c, total, Wire(fin, opcode, Len7, p), rest);
  }

  /** A message in one frame: 0x81 begins a text and 0x82 a binary message. */
  lemma MessageReceived(c: Chan, total: nat, first: byte, p: bytes, rest: bytes)
    requires |p| < 126 && |p| <= total && total > 0 && c.input == Short(first, p) + rest
    requires first == 0x81 || first == 0x82
    ensures RecvMsg(c, total) == MsgOut(NoErr, if first == 0x81 then 1 else 2, p, c.(input := rest))
  {
    hide RecvFrame;
    DataReceived(c, total, first, p, rest);
  }

  /** A message in two: 0x01 or 0x02, and then 0x80. */
  lemma FragmentsReceived(c: Chan, total: nat, first: byte, p: bytes, q: bytes, rest: bytes)
    requires |p| < 126 && |q| < 126 && |p| + |q| <= total && |p| < total
    requires c.input == Short(first, p) + (Short(0x80, q) + rest)
    requires first == 0x01 || first == 0x02
    ensures RecvMsg(c, total) == MsgOut(NoErr, if first == 0x01 then 1 else 2, p + q, c.(input := rest))
  {
    hide RecvFrame;
    DataReceived(c, total, first, p, Short(0x80, q) + rest);
    DataReceived(c.(input := Short(0x80, q) + rest), total - |p|, 0x80, q, rest);
  }

  /** A first fragment that fills the buffer is one too few. */
  lemma BufferFull(c: Chan, first: byte, p: bytes, rest: bytes)
    requires 0 < |p| < 126 && (first == 0x01 || first == 0x02) && c.input == Short(first, p) + rest
    ensures RecvMsg(c, |p|) == MsgOut(MessageSize, if first == 0x01 then 1 else 2, p, c.(input := rest))
  {
    hide RecvFrame;
    DataReceived(c, |p|, first, p, rest);
  }

  /** A message does not begin with a continuation, */
  lemma ContinuationRefused(c: Chan, total: nat, first: byte, p: bytes, rest: bytes)
    requires |p| < 126 && |p| <= total && total > 0 && (first == 0x00 || first == 0x80)
    requires c.input == Short(first, p) + rest
    ensures RecvMsg(c, total) == MsgOut(WsProto, 0, p, c.(input := rest))
  {
    hide RecvFrame;
    DataReceived(c, total, first, p, rest);
  }

  /** and does not go on with anything else. */
  lemma RestartRefused(c: Chan, total: nat, first: byte, p: bytes, second: byte, q: bytes, rest: bytes)
    requires |p| < 126 && |q| < 126 && |p| + |q| <= total && |p| < total
    requires first == 0x01 || first == 0x02
    requires second in {0x01, 0x02, 0x81, 0x82}
    requires c.input == Short(first, p) + (Short(second, q) + rest)
    ensures RecvMsg(c, total) == MsgOut(WsProto, if first == 0x01 then 1 else 2, p + q, c.(input := rest))
  {
    hide RecvFrame;
    DataReceived(c, total, first, p, Short(second, q) + rest);
    DataReceived(c.(input := Short(second, q) + rest), total - |p|, second, q, rest);
  }

  lemma LongLength(form: LengthForm, n: nat)
    requires form != Len7
    ensures LengthField(false, form, n)
      == [if form == Len16 then 126 else 127] + BigEndian(n, if form == Len16 then 2 else 8)
  {
    hide BigEndian;
    SameByte(ByteOf(126), 126);
    SameByte(ByteOf(127), 127);
  }

  lemma LongHead(fin: bool, opcode: byte, form: LengthForm, p: bytes)
    requires LegalWire(Wire(fin, opcode, form, p)) && form != Len7
    ensures ServerFrame(Wire(fin, opcode, form, p))
      == [FirstByte(fin, opcode), if form == Len16 then 126 else 127]
         + BigEndian(|p|, if form == Len16 then 2 else 8) + p
  {
    hide FirstByte, BigEndian, LegalWire, LengthField;
    LongLength(form, |p|);
    var first, second := FirstByte(fin, opcode), if form == Len16 then 126 else 127;
    var extra := BigEndian(|p|, if form == Len16 then 2 else 8);
    assert [first] + (([second] + extra) + p) == [first, second] + extra + p;
  }

  /** A longer binary message, with its length in two bytes behind 126 or in eight
      behind 127. */
  lemma LongMessageReceived(c: Chan, total: nat, form: LengthForm, p: bytes, rest: bytes)
    requires FitsForm(form, |p|) && form != Len7 && |p| <= MaxPayload(c, total) && total > 0
    requires c.input == [0x82, if form == Len16 then 126 else 127]
      + BigEndian(|p|, if form == Len16 then 2 else 8) + p + rest
    ensures RecvMsg(c, total) == MsgOut(NoErr, 2, p, c.(input := rest))
  {
    FirstBytes();
    hide RecvFrame, ServerFrame, Stream, BigEndian, FirstByte;
    LongHead(true, OP_BINARY, form, p);
    AdvanceSilently(c, rest);
    TakesData(c, total, Wire(true, OP_BINARY, form, p), rest);
  }

  // ----- frames that are refused -----

  /** The parts of a header byte, as numbers. */
  lemma ByteParts(b: byte)
    ensures b & FIN_FLAG != 0 <==> b as int >= 128
    ensures b & RESERVED_MASK != 0 <==> b as int / 16 % 8 != 0
    ensures (b & OPCODE_MASK) as int == b as int % 16
    ensures (b & LEN_MASK) as int == b as int % 128
  {
    ByteRange(b);
    hide Bits;
    var high, three, four := Digits(b as int);
    BitsRead(high, three, four);
    SameByte(b, Bits(high, three, four));
  }

  lemma Digits(x: nat) returns (high: bool, three: nat, four: nat)
    requires x < 256
    ensures three < 8 && four < 16 && x == (if high then 128 else 0) + 16 * three + four
    ensures (high <==> x >= 128) && three == x / 16 % 8 && four == x % 16 && x % 128 == 16 * three + four
  {
    high, three, four := x >= 128, x / 16 % 8, x % 16;
  }

  /** A byte from its high bit, the three bits below it and the four low bits. */
  function Bits(high: bool, three: nat, four: nat): (b: byte)
    requires three < 8 && four < 16
    ensures b as int == (if high then 128 else 0) + 16 * three + four
  {
    ByteOf((if high then 128 else 0) + 16 * three + four)
  }

  lemma BitsRead(high: bool, three: nat, four: nat)
    requires three < 8 && four < 16
    ensures var b := Bits(high, three, four);
      && (b & FIN_FLAG != 0 <==> high)
      && (b & RESERVED_MASK != 0 <==> three != 0)
      && (b & OPCODE_MASK) as int == four
      && (b & LEN_MASK) as int == 16 * three + four
  {
  }

  /** What is wrong with two header bytes, if anything: reserved bits, an unknown
      opcode, a mask, or a control frame that is long or not final. */
  function HeaderFault(a: int, b: int): Err {
    if a / 16 % 8 != 0 then WsProto
    else if a % 16 !in {0, 1, 2, 8, 9, 10} then WsProto
    else if b >= 128 then InvalidArgument
    else if a % 16 >= 8 && (b > 125 || a < 128) then WsProto
    else NoErr
  }

  lemma OpcodeNumbers(opcode: byte)
    ensures IsData(opcode) <==> opcode as int in {0, 1, 2}
    ensures IsControl(opcode) <==> opcode as int in {8, 9, 10}
  {
  }

  lemma CheckHeaderIs(a: byte, b: byte)
    ensures CheckHeader([a, b]).0 == HeaderFault(a as int, b as int)
  {
    ByteParts(a);
    ByteParts(b);
    ByteRange(a);
    ByteRange(b);
    OpcodeNumbers(a & OPCODE_MASK);
    BigMask(b);
    hide IsData, IsControl;
  }

  lemma BigMask(b: byte)
    ensures b & LEN_MASK > 125 <==> (b & LEN_MASK) as int > 125
  {
  }

  /** Such a header is refused, and nothing behind it is read. */
  lemma HeaderRefused(c: Chan, total: nat, a: byte, b: byte, rest: bytes)
    requires total > 0 && c.input == [a, b] + rest && HeaderFault(a as int, b as int) != NoErr
    ensures AnyFrame(c, total).err == HeaderFault(a as int, b as int)
    ensures AnyFrame(c, total).chan.input == rest && AnyFrame(c, total).payload == []
  {
    CheckHeaderIs(a, b);
    hide CheckHeader, HeaderFault;
    ReadExactly(c, [a, b], rest);
  }

  // ----- frames from the client -----

  /** A frame on its way to the server, with its length in one, three or nine bytes. */
  lemma ClientFrameBytes(first: byte, m: Mask, p: bytes)
    requires |p| <= SIZE_MAX
    ensures ClientFrame(first, m, p) == [first] + ClientLength(|p|) + m + Masked(p, m)
  {
    var form := MinimalForm(|p|);
    var seven := SevenBits(form, |p|);
    MarkedLength(seven);
    hide Masked, BigEndian, LengthByte;
  }

  function ClientLength(n: nat): bytes
    requires n <= SIZE_MAX
  {
    if n < 126 then [ByteOf(128 + n)]
    else if n < 65536 then [0xFE] + BigEndian(n, 2)
    else [0xFF] + BigEndian(n, 8)
  }

  lemma MarkedLength(n: nat)
    requires n < 128
    ensures LengthByte(true, n) == ByteOf(128 + n)
    ensures n == 126 ==> LengthByte(true, n) == 0xFE
    ensures n == 127 ==> LengthByte(true, n) == 0xFF
  {
    LengthByteBits(true, n);
    ByteParts(LengthByte(true, n));
    ByteRange(LengthByte(true, n));
    SameByte(LengthByte(true, n), ByteOf(128 + n));
    if n == 126 {
      SameByte(LengthByte(true, n), 0xFE);
    } else if n == 127 {
      SameByte(LengthByte(true, n), 0xFF);
    }
  }
}

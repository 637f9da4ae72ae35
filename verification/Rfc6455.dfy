/**
  The wire format of RFC 6455, sections 5.2 and 5.3, independently of how the
  client reads and writes it: what a server may send, what a client must send,
  and how a server takes a client's frame apart.
 */
module Rfc6455 {
  import opened Bytes
  import opened Netx

  const FIN_FLAG: byte := 0x80
  const RESERVED_MASK: byte := 0x70
  const OPCODE_MASK: byte := 0x0F
  const MASK_FLAG: byte := 0x80
  const LEN_MASK: byte := 0x7F

  const OP_CONTINUE: byte := 0
  const OP_TEXT: byte := 1
  const OP_BINARY: byte := 2
  const OP_CLOSE: byte := 8
  const OP_PING: byte := 9
  const OP_PONG: byte := 10

  const TWO63: nat := 0x8000_0000_0000_0000

  predicate IsData(opcode: byte) {
    opcode == OP_CONTINUE || opcode == OP_TEXT || opcode == OP_BINARY
  }

  predicate IsControl(opcode: byte) {
    opcode == OP_CLOSE || opcode == OP_PING || opcode == OP_PONG
  }

  // ----- the payload length, in 7, 16 or 64 bits -----

  datatype LengthForm = Len7 | Len16 | Len64

  /** How many bytes follow the byte with the seven-bit length. */
  function ExtraBytes(form: LengthForm): nat {
    match form
    case Len7 => 0
    case Len16 => 2
    case Len64 => 8
  }

  predicate FitsForm(form: LengthForm, n: nat) {
    match form
    case Len7 => n < 126
    case Len16 => n < 0x1_0000
    case Len64 => n < TWO63
  }

  /** The form that takes the fewest bytes. */
  function MinimalForm(n: nat): LengthForm {
    if n < 126 then Len7 else if n < 0x1_0000 then Len16 else Len64
  }

  function SevenBits(form: LengthForm, n: nat): (r: nat)
    requires form == Len7 ==> n < 126
    ensures r < 128
  {
    match form
    case Len7 => n
    case Len16 => 126
    case Len64 => 127
  }

  /** The mask flag, the seven-bit length and the extended length. */
  function LengthField(flag: bool, form: LengthForm, n: nat): bytes
    requires form == Len7 ==> n < 126
  {
    [LengthByte(flag, SevenBits(form, n))] + BigEndian(n, ExtraBytes(form))
  }

  function LengthByte(flag: bool, n: nat): byte
    requires n < 128
  {
    if flag then ByteOf(n) | MASK_FLAG else ByteOf(n)
  }

  lemma HighBit(b: byte)
    ensures b & MASK_FLAG != 0 <==> b as int >= 128
  {
  }

  lemma LowBits(b: byte)
    ensures (b & LEN_MASK) as int < 128
  {
  }

  lemma OrMaskFlag(b: byte)
    requires b & MASK_FLAG == 0
    ensures (b | MASK_FLAG) & MASK_FLAG != 0
    ensures b & LEN_MASK == b && (b | MASK_FLAG) & LEN_MASK == b
  {
  }

  lemma LengthByteOf(b: byte)
    requires b & MASK_FLAG == 0
    ensures (b & LEN_MASK) as int < 128 && LengthByte(false, (b & LEN_MASK) as int) == b
  {
  }

  lemma LengthByteBits(flag: bool, n: nat)
    requires n < 128
    ensures LengthByte(flag, n) & MASK_FLAG != 0 <==> flag
    ensures (LengthByte(flag, n) & LEN_MASK) as int == n
  {
  }

  datatype LengthOut =
    | Length(flag: bool, form: LengthForm, n: nat, rest: bytes)
    | NoLength

  /** Takes a length field off a byte string. */
  function TakeLength(s: bytes): (r: LengthOut)
    ensures r.Length? ==> |r.rest| < |s|
  {
    if s == [] then NoLength
    else
      var flag, seven := s[0] & MASK_FLAG != 0, (s[0] & LEN_MASK) as int;
      var form := if seven < 126 then Len7 else if seven == 126 then Len16 else Len64;
      var extra := ExtraBytes(form);
      if |s| < 1 + extra then NoLength
      else Length(flag, form, if form == Len7 then seven else FromBigEndian(s[1..1 + extra]), s[1 + extra..])
  }

  lemma Pow256Values()
    ensures Pow256(2) == 0x1_0000 && Pow256(8) == 0x1_0000_0000_0000_0000
  {
  }

  predicate FitsField(form: LengthForm, n: nat) {
    if form == Len7 then n < 126 else n < Pow256(ExtraBytes(form))
  }

  /** What a length field says is what it was made from, and nothing beyond the
      field is looked at. */
  lemma LengthFieldRoundTrip(flag: bool, form: LengthForm, n: nat, rest: bytes)
    requires FitsField(form, n)
    ensures TakeLength(LengthField(flag, form, n) + rest) == Length(flag, form, n, rest)
  {
    LengthByteBits(flag, SevenBits(form, n));
    var extra := BigEndian(n, ExtraBytes(form));
    var s := LengthField(flag, form, n) + rest;
    assert s == [LengthByte(flag, SevenBits(form, n))] + (extra + rest);
    assert s[1..1 + |extra|] == extra && s[1 + |extra|..] == rest;
    if form != Len7 {
      BigEndianRoundTrip(n, ExtraBytes(form));
    }
  }

  // ----- masking -----

  /** The masking of section 5.3: byte `i` is combined with key byte `i mod 4`. */
  function Masked(p: bytes, m: Mask): (r: bytes)
    ensures |r| == |p|
    ensures forall i :: 0 <= i < |p| ==> r[i] == p[i] ^ m[i % 4]
  {
    seq(|p|, i requires 0 <= i < |p| => p[i] ^ m[i % 4])
  }

  lemma MaskedTwice(p: bytes, m: Mask)
    ensures Masked(Masked(p, m), m) == p
  {
  }

  // ----- frames from client to server -----

  /** What precedes the payload: the first byte, the length in its shortest
      form, and the masking key. */
  function FrameHead(first: byte, m: Mask, n: nat): bytes {
    [first] + (LengthField(true, MinimalForm(n), n) + m)
  }

  function ClientFrame(first: byte, m: Mask, payload: bytes): bytes {
    FrameHead(first, m, |payload|) + Masked(payload, m)
  }

  /** The payload of a frame to prepare: bytes in memory, or none at all behind
      a length that promises `count` of them. */
  datatype Body =
    | Present(data: bytes)
    | Absent(count: Size)
  {
    function Count(): nat {
      if Present? then |data| else count
    }
  }

  function Prepared(first: byte, m: Mask, body: Body): bytes {
    match body
    case Present(data) => ClientFrame(first, m, data)
    case Absent(count) => FrameHead(first, m, count)
  }

  datatype Decoded =
    | Frame(first: byte, payload: bytes, rest: bytes)
    | Malformed

  /** How a server takes one masked frame off a byte stream: the mask flag must
      be set, the length must be in its shortest form and below 2^63, and the
      whole frame must be there. */
  function DecodeMasked(s: bytes): (d: Decoded)
    ensures d.Frame? ==> |d.rest| < |s|
  {
    if s == [] then Malformed
    else match TakeLength(s[1..])
      case NoLength => Malformed
      case Length(flag, form, n, rest) =>
        if !flag || form != MinimalForm(n) || n >= TWO63 || |rest| < 4 + n then Malformed
        else Frame(s[0], Masked(rest[4..4 + n], rest[..4]), rest[4 + n..])
  }

  lemma Regroup(first: byte, field: bytes, m: Mask, p: bytes, rest: bytes)
    ensures var s := [first] + (field + m) + p + rest;
      && s[0] == first
      && s[1..] == field + (m + p + rest)
    ensures var body := m + p + rest;
      && body[..4] == m
      && body[4..4 + |p|] == p
      && body[4 + |p|..] == rest
  {
  }

  /** What a server makes of a client frame followed by anything: it gets back
      the first byte, the payload and the stream after the frame, if the payload
      has fewer than 2^63 bytes; otherwise it refuses the frame. */
  lemma ClientFrameRoundTrip(first: byte, m: Mask, payload: bytes, rest: bytes)
    requires |payload| <= SIZE_MAX
    ensures DecodeMasked(ClientFrame(first, m, payload) + rest)
         == if |payload| < TWO63 then Frame(first, payload, rest) else Malformed
  {
    var n, form := |payload|, MinimalForm(|payload|);
    var field, body := LengthField(true, form, n), m + Masked(payload, m) + rest;
    Pow256Values();
    LengthFieldRoundTrip(true, form, n, body);
    Regroup(first, field, m, Masked(payload, m), rest);
    MaskedTwice(payload, m);
  }

  /** A head without its payload is a frame only if it promises none. */
  lemma FrameHeadAlone(first: byte, m: Mask, count: Size)
    ensures DecodeMasked(FrameHead(first, m, count)) == if count == 0 then Frame(first, [], []) else Malformed
  {
  }

  /** Exactly when a prepared frame reaches the server as intended: the payload
      is there, unless it is empty, and its length leaves the top bit clear. */
  lemma PreparedFrameDecodes(first: byte, m: Mask, body: Body)
    requires body.Count() <= SIZE_MAX
    ensures var d := DecodeMasked(Prepared(first, m, body));
      && (d.Frame? <==> body.Count() < TWO63 && (body.Present? || body.Count() == 0))
      && (body.Present? && body.Count() < TWO63 ==> d == Frame(first, body.data, []))
  {
    match body
    case Present(data) =>
      ClientFrameRoundTrip(first, m, data, []);
      assert ClientFrame(first, m, data) + [] == ClientFrame(first, m, data);
    case Absent(count) =>
      FrameHeadAlone(first, m, count);
  }

  /** What a server sees of a client's frame. */
  datatype ClientMsg = ClientMsg(first: byte, payload: bytes)

  /** Client frames, each masked with its own key. */
  function ClientFrames(msgs: seq<ClientMsg>, keys: seq<Mask>): seq<bytes>
    requires |msgs| == |keys|
  {
    seq(|msgs|, i requires 0 <= i < |msgs| => ClientFrame(msgs[i].first, keys[i], msgs[i].payload))
  }

  function ClientStream(msgs: seq<ClientMsg>, keys: seq<Mask>): bytes
    requires |msgs| == |keys|
  {
    Concat(ClientFrames(msgs, keys))
  }

  lemma ClientStreamAppend(m1: seq<ClientMsg>, k1: seq<Mask>, m2: seq<ClientMsg>, k2: seq<Mask>)
    requires |m1| == |k1| && |m2| == |k2|
    ensures ClientStream(m1 + m2, k1 + k2) == ClientStream(m1, k1) + ClientStream(m2, k2)
  {
    assert ClientFrames(m1 + m2, k1 + k2) == ClientFrames(m1, k1) + ClientFrames(m2, k2);
    ConcatAppend(ClientFrames(m1, k1), ClientFrames(m2, k2));
  }

  lemma ClientStreamCons(msgs: seq<ClientMsg>, keys: seq<Mask>)
    requires |msgs| == |keys| && msgs != []
    ensures ClientStream(msgs, keys)
         == ClientFrame(msgs[0].first, keys[0], msgs[0].payload) + ClientStream(msgs[1..], keys[1..])
  {
    assert ClientFrames(msgs, keys)[1..] == ClientFrames(msgs[1..], keys[1..]);
  }

  lemma ClientStreamOne(msg: ClientMsg, key: Mask)
    ensures ClientStream([msg], [key]) == ClientFrame(msg.first, key, msg.payload)
  {
    assert ClientFrames([msg], [key]) == [ClientFrame(msg.first, key, msg.payload)];
    ConcatOne(ClientFrame(msg.first, key, msg.payload));
  }

  datatype SplitOut =
    | Whole(msgs: seq<ClientMsg>)
    | Broken

  /** How a server takes a whole byte stream apart; Broken unless it is a
      sequence of complete frames with nothing left over. */
  function SplitMasked(s: bytes): SplitOut
    decreases |s|
  {
    if s == [] then Whole([])
    else match DecodeMasked(s)
      case Malformed => Broken
      case Frame(first, payload, rest) =>
        match SplitMasked(rest)
        case Broken => Broken
        case Whole(msgs) => Whole([ClientMsg(first, payload)] + msgs)
  }

  lemma SplitStep(first: byte, m: Mask, payload: bytes, rest: bytes, msgs: seq<ClientMsg>)
    requires |payload| < TWO63
    requires SplitMasked(rest) == Whole(msgs)
    ensures SplitMasked(ClientFrame(first, m, payload) + rest) == Whole([ClientMsg(first, payload)] + msgs)
  {
    assert ClientFrame(first, m, payload) != [];
    hide ClientFrame, DecodeMasked;
    ClientFrameRoundTrip(first, m, payload, rest);
  }

  lemma NothingSplits()
    ensures SplitMasked(ClientStream([], [])) == Whole([])
  {
  }

  predicate Sendable(msgs: seq<ClientMsg>) {
    forall i :: 0 <= i < |msgs| ==> |msgs[i].payload| < TWO63
  }

  lemma SendableTail(msgs: seq<ClientMsg>)
    requires msgs != [] && Sendable(msgs)
    ensures |msgs[0].payload| < TWO63 && Sendable(msgs[1..])
  {
  }

  /** Frames sent back to back split into exactly the same frames again. */
  lemma {:induction false} ClientStreamSplits(msgs: seq<ClientMsg>, keys: seq<Mask>)
    requires |msgs| == |keys| && Sendable(msgs)
    ensures SplitMasked(ClientStream(msgs, keys)) == Whole(msgs)
  {
    hide ClientFrame, ClientStream, SplitMasked, Sendable;
    if msgs == [] {
      NothingSplits();
    } else {
      var msg, tail := msgs[0], msgs[1..];
      SendableTail(msgs);
      ClientStreamSplits(tail, keys[1..]);
      ClientStreamCons(msgs, keys);
      SplitStep(msg.first, keys[0], msg.payload, ClientStream(tail, keys[1..]), tail);
      assert msgs == [msg] + tail;
    }
  }

  // ----- frames from server to client -----

  /** An unmasked frame together with the length form chosen for it. */
  datatype Wire = Wire(fin: bool, opcode: byte, form: LengthForm, payload: bytes)

  function FirstByte(fin: bool, opcode: byte): byte {
    (if fin then FIN_FLAG else 0) | opcode
  }

  lemma FirstByteBits(fin: bool, opcode: byte)
    requires opcode <= OPCODE_MASK
    ensures FirstByte(fin, opcode) & RESERVED_MASK == 0
    ensures FirstByte(fin, opcode) & OPCODE_MASK == opcode
    ensures FirstByte(fin, opcode) & FIN_FLAG != 0 <==> fin
  {
  }

  /** What section 5.2 and section 5.5 allow a server to send. The length need
      not be in its shortest form. */
  predicate LegalWire(w: Wire) {
    && (IsData(w.opcode) || IsControl(w.opcode))
    && FitsForm(w.form, |w.payload|)
    && (IsControl(w.opcode) ==> w.fin && w.form == Len7 && |w.payload| <= 125)
  }

  function ServerFrame(w: Wire): (s: bytes)
    requires LegalWire(w)
    ensures |s| >= 2
  {
    [FirstByte(w.fin, w.opcode)] + (LengthField(false, w.form, |w.payload|) + w.payload)
  }

  /** Where the parts of a server's frame are in a stream that starts with it. */
  lemma ServerFrameParts(w: Wire, rest: bytes)
    requires LegalWire(w)
    ensures var s := ServerFrame(w) + rest;
      && s[0] == FirstByte(w.fin, w.opcode)
      && TakeLength(s[1..]) == Length(false, w.form, |w.payload|, w.payload + rest)
    ensures (w.payload + rest)[..|w.payload|] == w.payload
    ensures (w.payload + rest)[|w.payload|..] == rest
  {
    var f, body := LengthField(false, w.form, |w.payload|), w.payload + rest;
    assert ServerFrame(w) + rest == [FirstByte(w.fin, w.opcode)] + (f + body);
    assert ([FirstByte(w.fin, w.opcode)] + (f + body))[1..] == f + body;
    Pow256Values();
    LengthFieldRoundTrip(false, w.form, |w.payload|, body);
  }

  /** No two sequences of bytes start with different frames: a frame can be
      read off a stream in at most one way. */
  lemma ServerFrameUnique(w: Wire, rest: bytes, w': Wire, rest': bytes)
    requires LegalWire(w) && LegalWire(w')
    requires ServerFrame(w) + rest == ServerFrame(w') + rest'
    ensures w == w' && rest == rest'
  {
    FirstByteBits(w.fin, w.opcode);
    FirstByteBits(w'.fin, w'.opcode);
    ServerFrameParts(w, rest);
    ServerFrameParts(w', rest');
  }
}

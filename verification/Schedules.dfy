/**
  Chunking independence: how the bytes are cut into segments, how often the
  socket is not ready in between and how the room for sending is granted makes
  no difference to any view of a connection, and so to nothing above it.
 */
module Schedules {
  import opened Bytes
  import opened Netx
  import opened Rfc6455
  import opened Messages

  /** A segment with bytes in it, or a report of a socket that is not ready but
      gets ready in time: readable, unless TLS has something to write. */
  predicate Brings(e: RxEvent) {
    match e
    case Segment(data) => data != []
    case RxReport(err, readable, writeable) =>
      if err == OperationWouldBlock || err == SslWantRead then readable == NoErr
      else err == SslWantWrite && writeable == NoErr
  }

  predicate Delivers(s: seq<RxEvent>) {
    forall e :: e in s ==> Brings(e)
  }

  function Delivered(s: seq<RxEvent>): bytes {
    if s == [] then []
    else (if s[0].Segment? then s[0].data else []) + Delivered(s[1..])
  }

  /** The same for sending: writeable, unless TLS has something to read. */
  predicate Admits(e: TxEvent) {
    match e
    case Credit(room) => room > 0
    case TxReport(err, readable, writeable) =>
      if err == OperationWouldBlock || err == SslWantWrite then writeable == NoErr
      else err == SslWantRead && readable == NoErr
  }

  predicate Grants(s: seq<TxEvent>) {
    forall e :: e in s ==> Admits(e)
  }

  function Granted(s: seq<TxEvent>): nat {
    if s == [] then 0
    else (if s[0].Credit? then s[0].room else 0) + Granted(s[1..])
  }

  lemma {:induction false} DeliveredFirst(s: seq<RxEvent>, t: seq<RxEvent>)
    requires Delivers(s)
    ensures Arriving(s + t) == Delivered(s) + Arriving(t)
    ensures InFault(s + t) == InFault(t)
  {
    if s == [] {
      assert s + t == t;
    } else {
      assert s[0] in s;
      assert (s + t)[0] == s[0] && (s + t)[1..] == s[1..] + t;
      DeliveredFirst(s[1..], t);
      if s[0].Segment? {
        Associate(s[0].data, Delivered(s[1..]), Arriving(t));
      }
    }
  }

  lemma {:induction false} GrantedFirst(s: seq<TxEvent>, t: seq<TxEvent>)
    requires Grants(s)
    ensures Capacity(s + t) == Granted(s) + Capacity(t)
    ensures OutFault(s + t) == OutFault(t)
  {
    if s == [] {
      assert s + t == t;
    } else {
      assert s[0] in s;
      assert (s + t)[0] == s[0] && (s + t)[1..] == s[1..] + t;
      GrantedFirst(s[1..], t);
    }
  }

  /** How receiving ends at an event: it is the end of the stream, or a wait that
      fails, or a report of anything else. */
  predicate EndsWith(e: RxEvent, err: Err) {
    match e
    case Segment(data) => data == [] && err == Eof
    case RxReport(reported, readable, writeable) =>
      if reported == OperationWouldBlock || reported == SslWantRead then err == readable != NoErr
      else if reported == SslWantWrite then err == writeable != NoErr
      else err == reported
  }

  /** What a script delivers before it ends, and with what error. */
  lemma DeliveredUntil(s: seq<RxEvent>, e: RxEvent, t: seq<RxEvent>, err: Err)
    requires Delivers(s) && EndsWith(e, err)
    ensures Arriving(s + ([e] + t)) == Delivered(s) && InFault(s + ([e] + t)) == err
  {
    DeliveredFirst(s, [e] + t);
    assert ([e] + t)[0] == e;
    assert Delivered(s) + [] == Delivered(s);
  }

  /** How sending ends at an event. */
  predicate StopsWith(e: TxEvent, err: Err) {
    match e
    case Credit(room) => room == 0 && err == IoError
    case TxReport(reported, readable, writeable) =>
      if reported == OperationWouldBlock || reported == SslWantWrite then err == writeable != NoErr
      else if reported == SslWantRead then err == readable != NoErr
      else err == reported
  }

  lemma GrantedUntil(s: seq<TxEvent>, e: TxEvent, t: seq<TxEvent>, err: Err)
    requires Grants(s) && StopsWith(e, err)
    ensures Capacity(s + ([e] + t)) == Granted(s) && OutFault(s + ([e] + t)) == err
  {
    GrantedFirst(s, [e] + t);
    assert ([e] + t)[0] == e;
  }

  /** A script that runs out ends with a timeout. */
  lemma TimesOut(s: seq<RxEvent>, g: seq<TxEvent>)
    requires Delivers(s) && Grants(g)
    ensures Arriving(s) == Delivered(s) && InFault(s) == TimedOut
    ensures Capacity(g) == Granted(g) && OutFault(g) == TimedOut
  {
    DeliveredFirst(s, []);
    GrantedFirst(g, []);
    assert s + [] == s && g + [] == g && Delivered(s) + [] == Delivered(s);
  }

  /** How many bytes a single read or write may ask for: 2^31 - 1 over TLS, and
      2^63 - 1 without. More is refused before anything is transferred. */
  lemma TransferLimits(c: Chan, data: bytes)
    requires data != []
    ensures var limit := if c.tls then 2147483647 else 9223372036854775807;
      if |data| > limit then
        Read(c, |data|) == ReadOut(InvalidArgument, [], c) && Write(c, data) == WriteOut(InvalidArgument, c)
      else
        && (Read(c, |data|).err == NoErr <==> |data| <= |c.input|)
        && (Write(c, data).err == NoErr <==> |data| <= c.room)
  {
  }

  /** The connection that two scripts make up. */
  function Over(rx: seq<RxEvent>, tx: seq<TxEvent>, c: Chan): Chan {
    c.(input := Arriving(rx), inFault := InFault(rx), room := Capacity(tx), outFault := OutFault(tx))
  }

  /** Two schedules that deliver the same bytes and grant the same room, each
      followed by the same events, cannot be told apart. */
  lemma SameView(s: seq<RxEvent>, s': seq<RxEvent>, t: seq<RxEvent>,
                 g: seq<TxEvent>, g': seq<TxEvent>, u: seq<TxEvent>, c: Chan)
    requires Delivers(s) && Delivers(s') && Delivered(s) == Delivered(s')
    requires Grants(g) && Grants(g') && Granted(g) == Granted(g')
    ensures Over(s + t, g + u, c) == Over(s' + t, g' + u, c)
  {
    DeliveredFirst(s, t);
    DeliveredFirst(s', t);
    GrantedFirst(g, u);
    GrantedFirst(g', u);
  }

  /** All bytes in one segment, then the error. */
  function OneShot(data: bytes, fault: Fault): seq<RxEvent> {
    Surplus(data) + [RxReport(OperationWouldBlock, fault, fault)]
  }

  /** Every script at all is the same to the client as one that delivers all it
      will ever deliver at once. */
  lemma {:induction false} AsOneShot(rx: seq<RxEvent>, tx: seq<TxEvent>, c: Chan)
    ensures Over(OneShot(Arriving(rx), InFault(rx)), tx, c) == Over(rx, tx, c)
  {
    var data, last := Arriving(rx), [RxReport(OperationWouldBlock, InFault(rx), InFault(rx))];
    var s := if data == [] then [] else [Segment(data)];
    assert Arriving(last) == [] && InFault(last) == InFault(rx);
    if data == [] {
      assert Delivered(s) == data;
    } else {
      assert s[1..] == [];
      assert Delivered(s) == data + Delivered([]) == data;
    }
    DeliveredFirst(s, last);
  }

  /** What is left of a segment that was read in part. */
  function Surplus(data: bytes): seq<RxEvent> {
    if data == [] then [] else [Segment(data)]
  }

  /** What is left of the room granted. */
  function Spare(room: nat): seq<TxEvent> {
    if room == 0 then [] else [Credit(room)]
  }

  lemma SurplusFirst(data: bytes, t: seq<RxEvent>)
    ensures Arriving(Surplus(data) + t) == data + Arriving(t) && InFault(Surplus(data) + t) == InFault(t)
  {
    assert [] + t == t && [] + Arriving(t) == Arriving(t);
    assert data != [] ==> (Surplus(data) + t)[1..] == t;
  }

  lemma SpareFirst(room: nat, u: seq<TxEvent>)
    ensures Capacity(Spare(room) + u) == room + Capacity(u) && OutFault(Spare(room) + u) == OutFault(u)
  {
    assert [] + u == u;
    assert room > 0 ==> (Spare(room) + u)[1..] == u;
  }

  /** Reassembly over every schedule: however the frames of a message are cut
      into segments, also if the last one goes on with what comes next, and
      however slowly the room for the answers is granted, the message is received,
      exactly the PONGs are sent, and the stream goes on with exactly the bytes
      and the events behind it. */
  lemma MessageOverAnySchedule(s: seq<RxEvent>, t: seq<RxEvent>, g: seq<TxEvent>, u: seq<TxEvent>,
                               c: Chan, ws: seq<Wire>, total: nat)
    requires AllLegal(ws) && IsMessage(ws, total, IoLimit(c.tls), 0, false)
    requires Delivers(s) && Encode(ws) <= Delivered(s)
    requires Grants(g) && |Stream(c, Replies(ws))| <= Granted(g)
    ensures var out := RecvMsg(Over(s + t, g + u, c), total);
      var surplus, spare := Delivered(s)[|Encode(ws)|..], Granted(g) - |Stream(c, Replies(ws))|;
      && out.err == NoErr && out.opcode == Opcode(ws) && out.data == Payload(ws)
      && out.chan == Over(Surplus(surplus) + t, Spare(spare) + u, c)
                       .(sent := c.sent + Stream(c, Replies(ws)), drawn := c.drawn + |Replies(ws)|)
  {
    hide RecvMsg, Encode, IsMessage, AllLegal, Arriving, InFault, Capacity, OutFault, Payload, Opcode, Delivered,
          Granted, Surplus, Spare;
    DeliveredFirst(s, t);
    GrantedFirst(g, u);
    var surplus, spare := Delivered(s)[|Encode(ws)|..], Granted(g) - |Stream(c, Replies(ws))|;
    SurplusFirst(surplus, t);
    SpareFirst(spare, u);
    var c' := Over(s + t, g + u, c);
    assert Stream(c', Replies(ws)) == Stream(c, Replies(ws));
    assert c'.input == Encode(ws) + (surplus + Arriving(t));
    RecvComplete(c', total, 0, [], false, ws, surplus + Arriving(t));
    assert [] + Payload(ws) == Payload(ws);
  }
}

/**
  The socket layer: exact transfer of byte strings over a connection whose
  reads and writes are short, delayed or failing in any way the operating
  system pleases.

  What the operating system does with one connection is a pair of finite
  scripts, one per direction. `Chan` is the one-shot view of the same
  connection: the bytes that will ever arrive, the number of bytes that will
  ever be accepted, and the error that ends each direction. Every method
  equates the view after the call with a pure function of the view before it.
 */
module Netx {
  import opened Bytes

  datatype Err =
    | NoErr
    | BrokenPipe
    | ConnectionAborted
    | ConnectionRefused
    | ConnectionReset
    | FunctionNotSupported
    | HostUnreachable
    | Interrupted
    | InvalidArgument
    | IoError
    | MessageSize
    | NetworkDown
    | NetworkReset
    | NetworkUnreachable
    | OperationInProgress
    | OperationWouldBlock
    | TimedOut
    | ValueTooLarge
    | AiGeneric
    | AiAgain
    | AiFail
    | AiNoname
    | SslGeneric
    | SslWantRead
    | SslWantWrite
    | SslSyscall
    | Eof
    | Socks5h
    | WsProto

  type Fault = e: Err | e != NoErr witness IoError

  /** A masking key as the client draws it for each frame. */
  type Mask = m: bytes | |m| == 4 witness [0, 0, 0, 0]

  /** What the next nonblocking receive meets: bytes that have arrived (none
      means that the peer shut its side down), or an error together with the
      outcomes of waiting for the socket to become readable or writeable. */
  datatype RxEvent =
    | Segment(data: bytes)
    | RxReport(err: Fault, readable: Err, writeable: Err)

  /** What the next nonblocking send meets: room for some bytes (zero is a send
      that returns zero), or an error, as for receiving. */
  datatype TxEvent =
    | Credit(room: nat)
    | TxReport(err: Fault, readable: Err, writeable: Err)

  /** The largest transfer that a single read or write may ask for. */
  function IoLimit(tls: bool): (n: Size)
    ensures n >= 0x7FFF_FFFF
  {
    if tls then 0x7FFF_FFFF else 0x7FFF_FFFF_FFFF_FFFF
  }

  /** How a receive that reported an error goes on: NoErr means "try again". */
  function RxVerdict(e: RxEvent): Err
    requires e.RxReport?
  {
    if e.err == OperationWouldBlock || e.err == SslWantRead then e.readable
    else if e.err == SslWantWrite then e.writeable
    else e.err
  }

  function TxVerdict(e: TxEvent): Err
    requires e.TxReport?
  {
    if e.err == SslWantRead then e.readable
    else if e.err == OperationWouldBlock || e.err == SslWantWrite then e.writeable
    else e.err
  }

  /** Every byte that a receive script delivers before it fails for good. */
  function Arriving(script: seq<RxEvent>): bytes {
    if script == [] then []
    else match script[0]
      case Segment(data) => if data == [] then [] else data + Arriving(script[1..])
      case RxReport(_, _, _) => if RxVerdict(script[0]) == NoErr then Arriving(script[1..]) else []
  }

  /** The error that ends a receive script. A script that runs out is a peer
      that stays silent until the wait times out. */
  function InFault(script: seq<RxEvent>): Fault {
    if script == [] then TimedOut
    else match script[0]
      case Segment(data) => if data == [] then Eof else InFault(script[1..])
      case RxReport(_, _, _) => if RxVerdict(script[0]) == NoErr then InFault(script[1..]) else RxVerdict(script[0])
  }

  /** How many bytes a send script accepts before it fails for good. */
  function Capacity(script: seq<TxEvent>): nat {
    if script == [] then 0
    else match script[0]
      case Credit(room) => if room == 0 then 0 else room + Capacity(script[1..])
      case TxReport(_, _, _) => if TxVerdict(script[0]) == NoErr then Capacity(script[1..]) else 0
  }

  function OutFault(script: seq<TxEvent>): Fault {
    if script == [] then TimedOut
    else match script[0]
      case Credit(room) => if room == 0 then IoError else OutFault(script[1..])
      case TxReport(_, _, _) => if TxVerdict(script[0]) == NoErr then OutFault(script[1..]) else TxVerdict(script[0])
  }

  /** What is left of a script after its first segment gave up `n` bytes. */
  function AfterSegment(script: seq<RxEvent>, n: nat): seq<RxEvent>
    requires script != [] && script[0].Segment? && 0 < n <= |script[0].data|
  {
    if n == |script[0].data| then script[1..] else [Segment(script[0].data[n..])] + script[1..]
  }

  lemma AfterSegmentView(script: seq<RxEvent>, n: nat)
    requires script != [] && script[0].Segment? && 0 < n <= |script[0].data|
    ensures n <= |Arriving(script)| && Arriving(script)[..n] == script[0].data[..n]
    ensures Arriving(AfterSegment(script, n)) == Arriving(script)[n..]
    ensures InFault(AfterSegment(script, n)) == InFault(script)
  {
  }

  /** The one-shot view of a connection. */
  datatype Chan = Chan(
    input: bytes,          // everything that will still arrive
    inFault: Fault,        // and then the error that ends receiving
    room: nat,             // how many bytes will still be accepted
    outFault: Fault,       // and then the error that ends sending
    sent: bytes,           // everything put on the wire so far
    drawn: nat,            // how many masking keys have been drawn
    masks: nat -> Mask,    // the masking keys, in the order they are drawn
    tls: bool)

  datatype ReadOut = ReadOut(err: Err, data: bytes, chan: Chan)

  datatype WriteOut = WriteOut(err: Err, chan: Chan)

  /** Reading exactly `n` bytes in one step. On failure `data` is what came
      before the error. */
  function Read(c: Chan, n: nat): ReadOut {
    if n == 0 then ReadOut(NoErr, [], c)
    else if n > IoLimit(c.tls) then ReadOut(InvalidArgument, [], c)
    else if n <= |c.input| then ReadOut(NoErr, c.input[..n], c.(input := c.input[n..]))
    else ReadOut(c.inFault, c.input, c.(input := []))
  }

  /** A read that gives up after `off` bytes has read all there was, unless it
      asked for too much to begin with. */
  lemma ReadCutShort(c: Chan, count: nat, off: nat)
    requires off < count && off <= |c.input|
    requires count > IoLimit(c.tls) ==> off == 0
    requires count <= IoLimit(c.tls) ==> off == |c.input|
    ensures var err := if count > IoLimit(c.tls) then InvalidArgument else c.inFault;
      Read(c, count) == ReadOut(err, c.input[..off], c.(input := c.input[off..]))
  {
  }

  lemma ReadWhole(c: Chan, count: nat)
    requires count <= |c.input| && (count > 0 ==> count <= IoLimit(c.tls))
    ensures Read(c, count) == ReadOut(NoErr, c.input[..count], c.(input := c.input[count..]))
  {
  }

  /** Writing a byte string in one step. On failure the log ends with what was
      accepted before the error. */
  function Write(c: Chan, data: bytes): WriteOut {
    if |data| == 0 then WriteOut(NoErr, c)
    else if |data| > IoLimit(c.tls) then WriteOut(InvalidArgument, c)
    else if |data| <= c.room then WriteOut(NoErr, c.(room := c.room - |data|, sent := c.sent + data))
    else WriteOut(c.outFault, c.(room := 0, sent := c.sent + data[..c.room]))
  }

  /** How a receive ends: with between 1 and `count` of the next bytes in place and
      nothing else changed, or with an error when no byte is left. */
  ghost predicate Received(c: Chan, was: bytes, start: nat, count: Size, err: Err, actual: Size, c': Chan, now: bytes) {
    && actual <= count && (err == NoErr <==> actual > 0)
    && actual <= |c.input| && start + count <= |was| == |now|
    && (forall k :: 0 <= k < actual ==> now[start + k] == c.input[k])
    && (forall k :: 0 <= k < |was| && !(start <= k < start + actual) ==> now[k] == was[k])
    && c' == c.(input := c.input[actual..])
    && (err == NoErr ==> 0 < count <= IoLimit(c.tls))
    && (err != NoErr && (count == 0 || count > IoLimit(c.tls)) ==> err == InvalidArgument)
    && (err != NoErr && 0 < count <= IoLimit(c.tls) ==> c.input == [] && err == c.inFault)
  }

  /** How a send ends: with between 1 and all of the bytes on the wire, or with an
      error when there is no room left. */
  ghost predicate Accepted(c: Chan, data: bytes, err: Err, actual: nat, c': Chan) {
    && actual <= |data| && (err == NoErr <==> actual > 0)
    && actual <= c.room
    && c' == c.(room := c.room - actual, sent := c.sent + data[..actual])
    && (err == NoErr ==> 0 < |data| <= IoLimit(c.tls))
    && (err != NoErr && (|data| == 0 || |data| > IoLimit(c.tls)) ==> err == InvalidArgument)
    && (err != NoErr && 0 < |data| <= IoLimit(c.tls) ==> c.room == 0 && err == c.outFault)
  }

  /** The connection after the first `off` bytes of some data have been sent. */
  function SentPart(c: Chan, data: bytes, off: nat): Chan
    requires off <= |data| && off <= c.room
  {
    c.(room := c.room - off, sent := c.sent + data[..off])
  }

  lemma SentNothing(c: Chan, data: bytes)
    ensures SentPart(c, data, 0) == c
  {
  }

  lemma SentMore(c: Chan, data: bytes, off: nat, n: nat)
    requires off + n <= |data| && off + n <= c.room
    ensures SentPart(c, data, off).(room := c.room - off - n, sent := SentPart(c, data, off).sent + data[off..][..n])
      == SentPart(c, data, off + n)
  {
  }

  /** A write that gives up after `off` bytes has used up all the room, unless it
      asked for too much to begin with. */
  lemma WriteCutShort(c: Chan, data: bytes, off: nat)
    requires off < |data| && off <= c.room
    requires |data| > IoLimit(c.tls) ==> off == 0
    requires |data| <= IoLimit(c.tls) ==> off == c.room
    ensures var err := if |data| > IoLimit(c.tls) then InvalidArgument else c.outFault;
      Write(c, data) == WriteOut(err, SentPart(c, data, off))
  {
  }

  lemma WriteWhole(c: Chan, data: bytes)
    requires |data| <= c.room && (data != [] ==> |data| <= IoLimit(c.tls))
    ensures Write(c, data) == WriteOut(NoErr, SentPart(c, data, |data|))
  {
  }

  /** A connected socket, or the TLS session over it. */
  class Conn {
    var rx: seq<RxEvent>
    var tx: seq<TxEvent>
    var sent: bytes
    var drawn: nat
    var tls: bool
    const masks: nat -> Mask

    constructor (rx: seq<RxEvent>, tx: seq<TxEvent>, masks: nat -> Mask)
      ensures View() == Chan(Arriving(rx), InFault(rx), Capacity(tx), OutFault(tx), [], 0, masks, false)
    {
      this.rx, this.tx, this.masks := rx, tx, masks;
      sent, drawn, tls := [], 0, false;
    }

    ghost function View(): Chan
      reads this
    {
      Chan(Arriving(rx), InFault(rx), Capacity(tx), OutFault(tx), sent, drawn, masks, tls)
    }

    /** Waiting for the socket after a receive reported an error. */
    method WaitToReceive(readable: bool) returns (err: Err)
      requires rx != [] ==> rx[0].RxReport?
      modifies `rx
      ensures old(rx) == [] ==> err == TimedOut && rx == old(rx)
      ensures old(rx) != [] ==> err == if readable then old(rx)[0].readable else old(rx)[0].writeable
      ensures old(rx) != [] ==> rx == if err == NoErr then old(rx)[1..] else old(rx)
    {
      if rx == [] {
        return TimedOut;
      }
      err := if readable then rx[0].readable else rx[0].writeable;
      if err == NoErr {
        rx := rx[1..];
      }
    }

    method WaitToSend(readable: bool) returns (err: Err)
      requires tx != [] ==> tx[0].TxReport?
      modifies `tx
      ensures old(tx) == [] ==> err == TimedOut && tx == old(tx)
      ensures old(tx) != [] ==> err == if readable then old(tx)[0].readable else old(tx)[0].writeable
      ensures old(tx) != [] ==> tx == if err == NoErr then old(tx)[1..] else old(tx)
    {
      if tx == [] {
        return TimedOut;
      }
      err := if readable then tx[0].readable else tx[0].writeable;
      if err == NoErr {
        tx := tx[1..];
      }
    }

    method RecvNonblocking(base: array<byte>, start: nat, count: Size) returns (err: Err, actual: Size)
      requires start + count <= base.Length
      modifies `rx, base
      ensures err == NoErr ==> Received(old(View()), old(base[..]), start, count, err, actual, View(), base[..])
      ensures err != NoErr ==> rx == old(rx) && base[..] == old(base[..]) && actual == 0
      ensures err != NoErr && (count == 0 || count > IoLimit(tls)) ==> err == InvalidArgument
      ensures err != NoErr && 0 < count <= IoLimit(tls) ==>
        if rx == [] then err == OperationWouldBlock
        else if rx[0].Segment? then err == Eof && rx[0].data == []
        else err == rx[0].err
    {
      hide Capacity, OutFault;
      actual := 0;
      if count == 0 {
        return InvalidArgument, 0;
      }
      if count > IoLimit(tls) {
        return InvalidArgument, 0;
      }
      if rx == [] {
        return OperationWouldBlock, 0;
      }
      match rx[0]
      case RxReport(e, _, _) =>
        return e, 0;
      case Segment(data) =>
        if data == [] {
          return Eof, 0;
        }
        actual := Min(count, |data|);
        forall k | 0 <= k < actual {
          base[start + k] := data[k];
        }
        AfterSegmentView(rx, actual);
        rx := AfterSegment(rx, actual);
        err := NoErr;
    }

    /** One attempt to receive, and waiting if the socket is only not ready; `again`
        if it is ready by then. */
    method RecvOnce(base: array<byte>, start: nat, count: Size) returns (again: bool, err: Err, actual: Size)
      requires start + count <= base.Length
      modifies `rx, base
      ensures again ==> View() == old(View()) && base[..] == old(base[..]) && |rx| < |old(rx)|
      ensures !again ==> Received(old(View()), old(base[..]), start, count, err, actual, View(), base[..])
    {
      hide Capacity, OutFault;
      again := false;
      ghost var c, was := View(), base[..];
      err, actual := RecvNonblocking(base, start, count);
      if err == NoErr || count == 0 || count > IoLimit(tls) {
        return;
      }
      if err == OperationWouldBlock || err == SslWantRead {
        err := WaitToReceive(true);
      } else if err == SslWantWrite {
        err := WaitToReceive(false);
      }
      again := err == NoErr;
    }

    /** Receives between 1 and `count` bytes, waiting and trying again as long
        as the socket is only not ready. */
    method Recv(base: array<byte>, start: nat, count: Size) returns (err: Err, actual: Size)
      requires start + count <= base.Length
      modifies `rx, base
      ensures Received(old(View()), old(base[..]), start, count, err, actual, View(), base[..])
    {
      hide View, Received;
      while true
        invariant View() == old(View())
        invariant base[..] == old(base[..])
        decreases |rx|
      {
        var again;
        again, err, actual := RecvOnce(base, start, count);
        if !again {
          return;
        }
      }
    }

    /** Receives the next bytes of a longer transfer, of which `off` are there. */
    method RecvMore(base: array<byte>, start: nat, count: Size, off: Size, ghost was: bytes, ghost c: Chan)
      returns (err: Err, n: Size)
      requires start + count <= base.Length && |was| == base.Length
      requires off < count && off <= |c.input| && (off > 0 ==> count <= IoLimit(c.tls))
      requires View() == c.(input := c.input[off..]) && base[..] == Overlay(was, start, c.input[..off])
      modifies `rx, base
      ensures off + n <= count && off + n <= |c.input|
      ensures err == NoErr ==> n > 0 && count <= IoLimit(c.tls)
      ensures err != NoErr ==> n == 0 && Read(c, count) == ReadOut(err, c.input[..off], c.(input := c.input[off..]))
      ensures View() == c.(input := c.input[off + n..]) && base[..] == Overlay(was, start, c.input[..off + n])
    {
      hide View, Overlay, Read, IoLimit;
      ghost var before, input := base[..], c.input[off..];
      err, n := Recv(base, start + off, count - off);
      OverlayFromBytes(before, start + off, input[..n], base[..]);
      OverlayTwice(was, start, c.input[..off], input[..n]);
      CutTwice(c.input, off, n);
      if err != NoErr {
        ReadCutShort(c, count, off);
      }
    }

    /** Receives exactly `count` bytes into `base[start..]`. */
    method Recvn(base: array<byte>, start: nat, count: Size) returns (err: Err)
      requires start + count <= base.Length
      modifies `rx, base
      ensures var out := Read(old(View()), count);
        && err == out.err
        && View() == out.chan
        && |out.data| <= count
        && base[..] == Overlay(old(base[..]), start, out.data)
    {
      hide View, Overlay, Read, IoLimit;
      ghost var was, c := base[..], View();
      OverlayNothing(was, start);
      var off: Size := 0;
      while off < count
        invariant off <= count && off <= |c.input|
        invariant off > 0 ==> count <= IoLimit(c.tls)
        invariant View() == c.(input := c.input[off..])
        invariant base[..] == Overlay(was, start, c.input[..off])
      {
        var e, n := RecvMore(base, start, count, off, was, c);
        if e != NoErr {
          return e;
        }
        assert off <= SIZE_MAX - n;  // the overflow check after the read never fires
        off := off + n;
      }
      ReadWhole(c, count);
      return NoErr;
    }

    /** Receives exactly `count` bytes into a buffer of the callee's own. */
    method RecvBytes(count: Size) returns (err: Err, data: bytes)
      modifies `rx
      ensures var out := Read(old(View()), count);
        && err == out.err
        && View() == out.chan
        && (err == NoErr ==> data == out.data && |data| == count)
    {
      var buf := new byte[count];
      err := Recvn(buf, 0, count);
      data := buf[..];
    }

    method SendNonblocking(data: bytes) returns (err: Err, actual: nat)
      requires |data| <= SIZE_MAX
      modifies `tx, `sent
      ensures actual <= |data| && (err == NoErr <==> actual > 0)
      ensures actual <= old(View()).room
      ensures sent == old(sent) + data[..actual]
      ensures err == NoErr ==> View() == old(View()).(room := old(View()).room - actual, sent := sent)
      ensures err == NoErr ==> 0 < |data| <= IoLimit(tls)
      ensures err != NoErr ==> tx == old(tx)
      ensures err != NoErr && (|data| == 0 || |data| > IoLimit(tls)) ==> err == InvalidArgument
      ensures err != NoErr && 0 < |data| <= IoLimit(tls) ==>
        if tx == [] then err == OperationWouldBlock
        else if tx[0].Credit? then err == IoError && tx[0].room == 0
        else err == tx[0].err
    {
      if |data| == 0 {
        return InvalidArgument, 0;
      }
      if |data| > IoLimit(tls) {
        return InvalidArgument, 0;
      }
      if tx == [] {
        return OperationWouldBlock, 0;
      }
      match tx[0]
      case TxReport(e, _, _) =>
        return e, 0;
      case Credit(room) =>
        if room == 0 {
          return IoError, 0;
        }
        actual := Min(|data|, room);
        sent := sent + data[..actual];
        var tail := tx[1..];
        tx := if actual == room then tail else [Credit(room - actual)] + tail;
        err := NoErr;
    }

    /** One attempt to send, and waiting if the socket is only not ready. */
    method SendOnce(data: bytes) returns (again: bool, err: Err, actual: nat)
      requires |data| <= SIZE_MAX
      modifies `tx, `sent
      ensures again ==> View() == old(View()) && |tx| < |old(tx)|
      ensures !again ==> Accepted(old(View()), data, err, actual, View())
    {
      hide Arriving, InFault;
      again := false;
      err, actual := SendNonblocking(data);
      if err == NoErr || |data| == 0 || |data| > IoLimit(tls) {
        return;
      }
      if err == SslWantRead {
        err := WaitToSend(true);
      } else if err == OperationWouldBlock || err == SslWantWrite {
        err := WaitToSend(false);
      }
      again := err == NoErr;
    }

    /** Sends between 1 and all of the bytes, waiting and trying again as long as
        the socket is only not ready. */
    method Send(data: bytes) returns (err: Err, actual: nat)
      requires |data| <= SIZE_MAX
      modifies `tx, `sent
      ensures Accepted(old(View()), data, err, actual, View())
    {
      hide View, Accepted;
      while true
        invariant View() == old(View())
        decreases |tx|
      {
        var again;
        again, err, actual := SendOnce(data);
        if !again {
          return;
        }
      }
    }

    /** Sends all of `data`. */
    method Sendn(data: bytes) returns (err: Err)
      requires |data| <= SIZE_MAX
      modifies `tx, `sent
      ensures var out := Write(old(View()), data);
        err == out.err && View() == out.chan
    {
      hide View, Write, IoLimit, SentPart;
      ghost var c := View();
      SentNothing(c, data);
      var off: Size := 0;
      while off < |data|
        invariant off <= |data| && off <= c.room
        invariant off > 0 ==> |data| <= IoLimit(c.tls)
        invariant View() == SentPart(c, data, off)
      {
        PartKeeps(c, data, off);
        var e, n := Send(data[off..]);
        SentMore(c, data, off, n);
        if e != NoErr {
          WriteCutShort(c, data, off);
          return e;
        }
        assert off <= SIZE_MAX - n;  // the overflow check after the write never fires
        off := off + n;
      }
      WriteWhole(c, data);
      return NoErr;
    }
  }

  lemma PartKeeps(c: Chan, data: bytes, off: nat)
    requires off <= |data| && off <= c.room
    ensures var p := SentPart(c, data, off);
      p.room == c.room - off && p.tls == c.tls && p.outFault == c.outFault
  {
  }
}

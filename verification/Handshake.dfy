/**
  The opening handshake: lines of text over the byte stream and the HTTP
  upgrade of section 4.1 of RFC 6455, as strictly as the client checks it.
 */
module Handshake {
  import opened Bytes
  import opened Netx

  const CR: byte := 13
  const LF: byte := 10

  const MAX_LINE: nat := 8000
  const MAX_HEADERS: nat := 1000

  // ----- lines -----

  function SendLine(c: Chan, line: bytes): WriteOut {
    Write(c, line + [CR, LF])
  }

  datatype LineOut = LineOut(err: Err, line: bytes, chan: Chan)

  /** Reading on, byte by byte, with `line` read so far. */
  function LineRest(c: Chan, line: bytes, maxlen: nat): LineOut
    decreases |c.input|
  {
    if |line| >= maxlen then LineOut(ValueTooLarge, line, c)
    else
      var r := Read(c, 1);
      if r.err != NoErr then LineOut(r.err, line, r.chan)
      else if r.data[0] == CR then LineRest(r.chan, line, maxlen)
      else if r.data[0] == LF then LineOut(NoErr, line, r.chan)
      else LineRest(r.chan, line + [r.data[0]], maxlen)
  }

  function RecvLine(c: Chan, maxlen: nat): LineOut {
    if maxlen == 0 then LineOut(InvalidArgument, [], c) else LineRest(c, [], maxlen)
  }

  function StripCr(s: bytes): bytes {
    if s == [] then [] else (if s[0] == CR then [] else [s[0]]) + StripCr(s[1..])
  }

  lemma {:induction false} StripCrAppend(a: bytes, b: bytes)
    ensures StripCr(a + b) == StripCr(a) + StripCr(b)
  {
    if a == [] {
      assert a + b == b;
    } else {
      var ab := a + b;
      StripCrAppend(a[1..], b);
      assert ab[0] == a[0] && ab[1..] == a[1..] + b;
      Associate(if a[0] == CR then [] else [a[0]], StripCr(a[1..]), StripCr(b));
    }
  }

  lemma {:induction false} StripCrKeeps(s: bytes)
    requires CR !in s
    ensures StripCr(s) == s
  {
    if s == [] {
    } else {
      StripCrKeeps(s[1..]);
    }
  }

  /** A line is what stands before the first LF, without any CR. */
  lemma {:induction false} LineComplete(c: Chan, line: bytes, maxlen: nat, raw: bytes, rest: bytes)
    requires c.input == raw + [LF] + rest && LF !in raw
    requires |line| + |StripCr(raw)| < maxlen
    ensures LineRest(c, line, maxlen) == LineOut(NoErr, line + StripCr(raw), c.(input := rest))
    decreases |raw|
  {
    if raw == [] {
      assert c.input[0] == LF && c.input[1..] == rest;
      assert c.input[..1] == [LF];
    } else {
      var tail := raw[1..];
      assert c.input[0] == raw[0] && c.input[1..] == tail + [LF] + rest;
      assert c.input[..1] == [raw[0]];
      var line' := line + if raw[0] == CR then [] else [raw[0]];
      LineComplete(c.(input := c.input[1..]), line', maxlen, tail, rest);
      assert line + [] == line;
      Associate(line, if raw[0] == CR then [] else [raw[0]], StripCr(tail));
    }
  }

  /** Whenever a line is read, this is how it stood on the stream. */
  lemma {:induction false} LineSound(c: Chan, line: bytes, maxlen: nat) returns (raw: bytes)
    requires LineRest(c, line, maxlen).err == NoErr
    ensures var out := LineRest(c, line, maxlen);
      && c.input == raw + [LF] + out.chan.input && LF !in raw
      && out.line == line + StripCr(raw) && |out.line| < maxlen
      && out.chan == c.(input := out.chan.input)
    decreases |c.input|
  {
    var b, c' := c.input[0], c.(input := c.input[1..]);
    assert c.input == [b] + c'.input;
    if b == LF {
      raw := [];
    } else {
      var line' := line + if b == CR then [] else [b];
      assert line + [] == line;
      var tail := LineSound(c', line', maxlen);
      raw := [b] + tail;
      assert raw[0] == b && raw[1..] == tail;
      Associate(line, if b == CR then [] else [b], StripCr(tail));
      Associate([b], tail + [LF], LineRest(c, line, maxlen).chan.input);
      assert raw + [LF] == [b] + (tail + [LF]);
    }
  }

  /** The line on the stream, if it is complete and short enough. */
  ghost predicate LineAhead(s: bytes, raw: bytes, maxlen: nat) {
    LF !in raw && raw + [LF] <= s && |StripCr(raw)| < maxlen
  }

  /** Exactly when a line is read, and how far. */
  lemma RecvLineExact(c: Chan, maxlen: nat)
    ensures RecvLine(c, maxlen).err == NoErr <==> exists raw :: LineAhead(c.input, raw, maxlen)
    ensures forall raw :: LineAhead(c.input, raw, maxlen) ==>
      RecvLine(c, maxlen) == LineOut(NoErr, StripCr(raw), c.(input := c.input[|raw| + 1..]))
  {
    if RecvLine(c, maxlen).err == NoErr {
      var raw := LineSound(c, [], maxlen);
      assert LineAhead(c.input, raw, maxlen);
    }
    forall raw | LineAhead(c.input, raw, maxlen)
      ensures RecvLine(c, maxlen) == LineOut(NoErr, StripCr(raw), c.(input := c.input[|raw| + 1..]))
    {
      var rest := c.input[|raw| + 1..];
      assert c.input == raw + [LF] + rest;
      LineComplete(c, [], maxlen, raw, rest);
      assert [] + StripCr(raw) == StripCr(raw);
    }
  }

  /** Reading a line undoes sending it. */
  lemma LineRoundTrip(c: Chan, line: bytes, rest: bytes, maxlen: nat)
    requires CR !in line && LF !in line && |line| < maxlen
    requires c.input == line + [CR, LF] + rest
    ensures RecvLine(c, maxlen) == LineOut(NoErr, line, c.(input := rest))
  {
    hide LineRest;
    StripCrAppend(line, [CR]);
    StripCrKeeps(line);
    assert StripCr([CR]) == [];
    assert c.input == (line + [CR]) + [LF] + rest;
    LineComplete(c, [], maxlen, line + [CR], rest);
    assert [] + line == line;
  }

  // ----- the request -----

  function RequestLines(hostname: bytes, port: bytes, tls: bool, proto: bytes, path: bytes): seq<bytes> {
    [ Ascii("GET ") + path + Ascii(" HTTP/1.1"),
      Ascii("Host: ") + hostname + PortSuffix(port, tls),
      UPGRADE_LINE,
      CONNECTION_LINE,
      Ascii("Sec-WebSocket-Key: ") + Ascii("dGhlIHNhbXBsZSBub25jZQ=="),
      ProtocolLine(proto),
      Ascii("Sec-WebSocket-Version: 13"),
      [] ]
  }

  function PortSuffix(port: bytes, tls: bool): bytes {
    if port == (if tls then Ascii("443") else Ascii("80")) then [] else Ascii(":") + port
  }

  function ProtocolLine(proto: bytes): bytes {
    Ascii("Sec-WebSocket-Protocol: ") + proto
  }

  /** Sending lines until one of them fails. */
  function SendLines(c: Chan, lines: seq<bytes>): WriteOut
    decreases |lines|
  {
    if lines == [] then WriteOut(NoErr, c)
    else
      var out := SendLine(c, lines[0]);
      if out.err != NoErr then out else SendLines(out.chan, lines[1..])
  }

  /** The lines as they stand on the stream. */
  function OnWire(lines: seq<bytes>): bytes {
    if lines == [] then [] else lines[0] + [CR, LF] + OnWire(lines[1..])
  }

  // ----- the response -----

  datatype Flag = ConnectionUpgrade | SecAccept | SecProtocol | UpgradeWebsocket

  const STATUS_LINE: bytes := Ascii("HTTP/1.1 101 Switching Protocols")
  const UPGRADE_LINE: bytes := Ascii("Upgrade: websocket")
  const CONNECTION_LINE: bytes := Ascii("Connection: Upgrade")
  const ACCEPT_LINE: bytes := Ascii("Sec-WebSocket-Accept: ") + Ascii("s3pPLMBiTxaQ9kYGzzhZRbK+xOo=")

  /** The flag that a header line sets, if any. */
  function FlagOf(line: bytes, proto: bytes): set<Flag> {
    if line == UPGRADE_LINE then {UpgradeWebsocket}
    else if line == CONNECTION_LINE then {ConnectionUpgrade}
    else if line == ACCEPT_LINE then {SecAccept}
    else if line == ProtocolLine(proto) then {SecProtocol}
    else {}
  }

  datatype Done = Done(err: Err, chan: Chan)

  /** Reading up to `left` more header lines. */
  function ReadHeaders(c: Chan, proto: bytes, required: set<Flag>, seen: set<Flag>, left: nat): Done
    decreases left
  {
    if left == 0 then Done(ValueTooLarge, c)
    else
      var l := RecvLine(c, MAX_LINE);
      if l.err != NoErr then Done(l.err, l.chan)
      else if l.line == [] then Done(if required <= seen then NoErr else WsProto, l.chan)
      else ReadHeaders(l.chan, proto, required, seen + FlagOf(l.line, proto), left - 1)
  }

  function ReadResponse(c: Chan, proto: bytes, required: set<Flag>): Done {
    var l := RecvLine(c, MAX_LINE);
    if l.err != NoErr then Done(l.err, l.chan)
    else if l.line != STATUS_LINE then Done(WsProto, l.chan)
    else ReadHeaders(l.chan, proto, required, {}, MAX_HEADERS)
  }

  function Shake(c: Chan, hostname: bytes, port: bytes, required: set<Flag>, proto: bytes, path: bytes): Done {
    var s := SendLines(c, RequestLines(hostname, port, c.tls, proto, path));
    if s.err != NoErr then Done(s.err, s.chan) else ReadResponse(s.chan, proto, required)
  }

  // ----- exactly which responses are accepted -----

  function FlagsOf(raws: seq<bytes>, proto: bytes): set<Flag> {
    if raws == [] then {} else FlagOf(StripCr(raws[0]), proto) + FlagsOf(raws[1..], proto)
  }

  /** Raw lines, each ended by LF. */
  function Raw(raws: seq<bytes>): bytes {
    if raws == [] then [] else raws[0] + [LF] + Raw(raws[1..])
  }

  predicate GoodLine(raw: bytes) {
    LF !in raw && |StripCr(raw)| < MAX_LINE
  }

  /** At most `left` lines, the last of them and only the last blank, that set
      all required flags that are not set yet. */
  ghost predicate HeaderBlock(raws: seq<bytes>, proto: bytes, required: set<Flag>, seen: set<Flag>, left: nat) {
    && 0 < |raws| <= left
    && (forall i :: 0 <= i < |raws| ==> GoodLine(raws[i]) && (StripCr(raws[i]) == [] <==> i == |raws| - 1))
    && required <= seen + FlagsOf(raws, proto)
  }

  lemma NextRaw(raws: seq<bytes>, rest: bytes)
    requires raws != []
    ensures Raw(raws) + rest == raws[0] + [LF] + (Raw(raws[1..]) + rest)
  {
  }

  lemma GoodLineRead(c: Chan, raw: bytes, rest: bytes)
    requires GoodLine(raw) && c.input == raw + [LF] + rest
    ensures RecvLine(c, MAX_LINE) == LineOut(NoErr, StripCr(raw), c.(input := rest))
  {
    LineComplete(c, [], MAX_LINE, raw, rest);
    assert [] + StripCr(raw) == StripCr(raw);
  }

  lemma BlankLineSetsNothing(proto: bytes)
    ensures [] != UPGRADE_LINE && [] != CONNECTION_LINE && [] != ACCEPT_LINE && [] != ProtocolLine(proto)
    ensures FlagOf([], proto) == {}
  {
    hide Ascii;
    assert |UPGRADE_LINE| > 0 && |CONNECTION_LINE| > 0 && |ACCEPT_LINE| > 0 && |ProtocolLine(proto)| > 0;
  }

  lemma BlankSetsNothing(raw: bytes, proto: bytes)
    requires StripCr(raw) == []
    ensures FlagsOf([raw], proto) == {}
  {
    hide Ascii, FlagOf;
    BlankLineSetsNothing(proto);
  }

  lemma {:induction false} HeadersComplete(c: Chan, proto: bytes, required: set<Flag>, seen: set<Flag>, left: nat,
        raws: seq<bytes>, rest: bytes)
    requires HeaderBlock(raws, proto, required, seen, left) && c.input == Raw(raws) + rest
    ensures ReadHeaders(c, proto, required, seen, left) == Done(NoErr, c.(input := rest))
    decreases |raws|
  {
    hide FlagOf, RecvLine, StripCr;
    var rest' := Raw(raws[1..]) + rest;
    NextRaw(raws, rest);
    GoodLineRead(c, raws[0], rest');
    if |raws| == 1 {
      BlankSetsNothing(raws[0], proto);
      assert raws == [raws[0]];
      assert rest' == rest;
    } else {
      HeadersComplete(c.(input := rest'), proto, required, seen + FlagOf(StripCr(raws[0]), proto), left - 1,
            raws[1..], rest);
    }
  }

  lemma {:induction false} HeadersSound(c: Chan, proto: bytes, required: set<Flag>, seen: set<Flag>, left: nat)
        returns (raws: seq<bytes>)
    requires ReadHeaders(c, proto, required, seen, left).err == NoErr
    ensures HeaderBlock(raws, proto, required, seen, left)
    ensures c.input == Raw(raws) + ReadHeaders(c, proto, required, seen, left).chan.input
    decreases left
  {
    hide FlagOf, LineRest, StripCr;
    var l := RecvLine(c, MAX_LINE);
    var raw := LineSound(c, [], MAX_LINE);
    assert [] + StripCr(raw) == StripCr(raw);
    if l.line == [] {
      raws := [raw];
      BlankSetsNothing(raw, proto);
      assert raw + [LF] + (Raw([]) + l.chan.input) == c.input;
    } else {
      var tail := HeadersSound(l.chan, proto, required, seen + FlagOf(l.line, proto), left - 1);
      raws := [raw] + tail;
      assert raws[1..] == tail;
    }
    NextRaw(raws, ReadHeaders(c, proto, required, seen, left).chan.input);
  }

  /** The responses that complete the handshake: the status line and then at most
      a thousand lines, all of them short enough and the last one blank, that
      contain the required headers. */
  ghost predicate IsResponse(raws: seq<bytes>, proto: bytes, required: set<Flag>) {
    && raws != []
    && GoodLine(raws[0]) && StripCr(raws[0]) == STATUS_LINE
    && HeaderBlock(raws[1..], proto, required, {}, MAX_HEADERS)
  }

  lemma ResponseSound(c: Chan, proto: bytes, required: set<Flag>) returns (raws: seq<bytes>)
    requires ReadResponse(c, proto, required).err == NoErr
    ensures IsResponse(raws, proto, required)
    ensures c.input == Raw(raws) + ReadResponse(c, proto, required).chan.input
  {
    hide LineRest, StripCr, FlagOf, ReadHeaders;
    var l := RecvLine(c, MAX_LINE);
    var raw := LineSound(c, [], MAX_LINE);
    assert [] + StripCr(raw) == StripCr(raw);
    var tail := HeadersSound(l.chan, proto, required, {}, MAX_HEADERS);
    raws := [raw] + tail;
    assert raws[1..] == tail;
    NextRaw(raws, ReadResponse(c, proto, required).chan.input);
  }

  /** The handshake is accepted exactly for such responses, and what follows the
      blank line stays on the stream, from its first byte on. */
  lemma ResponseExact(c: Chan, proto: bytes, required: set<Flag>)
    ensures ReadResponse(c, proto, required).err == NoErr <==>
      exists raws :: IsResponse(raws, proto, required) && Raw(raws) <= c.input
    ensures forall raws, rest :: IsResponse(raws, proto, required) && c.input == Raw(raws) + rest ==>
      ReadResponse(c, proto, required) == Done(NoErr, c.(input := rest))
  {
    hide ReadResponse, IsResponse, Raw;
    if ReadResponse(c, proto, required).err == NoErr {
      var raws := ResponseSound(c, proto, required);
      assert Raw(raws) <= c.input;
    }
    forall raws, rest | IsResponse(raws, proto, required) && c.input == Raw(raws) + rest
      ensures ReadResponse(c, proto, required) == Done(NoErr, c.(input := rest))
    {
      ResponseComplete(c, proto, required, raws, rest);
    }
    forall raws | IsResponse(raws, proto, required) && Raw(raws) <= c.input
      ensures ReadResponse(c, proto, required).err == NoErr
    {
      ResponseComplete(c, proto, required, raws, c.input[|Raw(raws)|..]);
    }
  }

  lemma ResponseComplete(c: Chan, proto: bytes, required: set<Flag>, raws: seq<bytes>, rest: bytes)
    requires IsResponse(raws, proto, required) && c.input == Raw(raws) + rest
    ensures ReadResponse(c, proto, required) == Done(NoErr, c.(input := rest))
  {
    hide HeaderBlock, ReadHeaders, RecvLine, StripCr, Raw, Ascii;
    NextRaw(raws, rest);
    GoodLineRead(c, raws[0], Raw(raws[1..]) + rest);
    HeadersComplete(c.(input := Raw(raws[1..]) + rest), proto, required, {}, MAX_HEADERS, raws[1..], rest);
  }

  lemma {:induction false} FlagsOfMember(raws: seq<bytes>, proto: bytes, f: Flag)
    ensures f in FlagsOf(raws, proto) <==> exists i :: 0 <= i < |raws| && f in FlagOf(StripCr(raws[i]), proto)
  {
    hide FlagOf, StripCr;
    if raws == [] {
    } else {
      FlagsOfMember(raws[1..], proto, f);
      if f in FlagsOf(raws[1..], proto) {
        var i :| 0 <= i < |raws| - 1 && f in FlagOf(StripCr(raws[1..][i]), proto);
        assert raws[1..][i] == raws[i + 1];
      }
      if i :| 0 < i < |raws| && f in FlagOf(StripCr(raws[i]), proto) {
        assert raws[1..][i - 1] == raws[i];
      }
    }
  }

  /** The order of the headers, repeated headers and unknown headers make no
      difference: two blocks of header lines that set the same flags are accepted
      or refused alike. */
  lemma HeadersAsASet(ms: seq<bytes>, ns: seq<bytes>, proto: bytes, required: set<Flag>)
    requires HeaderBlock(ms, proto, {}, {}, MAX_HEADERS) && HeaderBlock(ns, proto, {}, {}, MAX_HEADERS)
    requires forall m :: m in ms && FlagOf(StripCr(m), proto) != {} ==> m in ns
    requires forall n :: n in ns && FlagOf(StripCr(n), proto) != {} ==> n in ms
    ensures HeaderBlock(ms, proto, required, {}, MAX_HEADERS) <==> HeaderBlock(ns, proto, required, {}, MAX_HEADERS)
  {
    hide FlagOf, StripCr;
    forall f: Flag
      ensures f in FlagsOf(ms, proto) <==> f in FlagsOf(ns, proto)
    {
      FlagsOfMember(ms, proto, f);
      FlagsOfMember(ns, proto, f);
    }
  }

  // ----- the request, sent and read back -----

  /** Sending line by line comes to what one write of all lines comes to: all of
      them arrive if and only if there is room for all, and otherwise a prefix does. */
  lemma {:induction false} SendLinesExact(c: Chan, lines: seq<bytes>)
    requires forall line :: line in lines ==> |line| + 2 <= IoLimit(c.tls)
    ensures SentAs(c, SendLines(c, lines), OnWire(lines))
    decreases |lines|
  {
    hide IoLimit;
    if lines == [] {
      assert c.sent + [] == c.sent;
    } else {
      var out := SendLine(c, lines[0]);
      assert lines[0] in lines;
      WriteAs(c, lines[0] + [CR, LF]);
      hide SendLine, SentAs;
      if out.err == NoErr {
        SentKeepsTls(c, out, lines[0] + [CR, LF]);
        SendLinesExact(out.chan, lines[1..]);
        SentTwice(c, out, lines[0] + [CR, LF], SendLines(out.chan, lines[1..]), OnWire(lines[1..]));
      } else {
        SentCut(c, out, lines[0] + [CR, LF], OnWire(lines[1..]));
      }
    }
  }

  /** All of the data is on the wire, or as much of it as there was room for. */
  ghost predicate SentAs(c: Chan, out: WriteOut, data: bytes) {
    && (out.err == NoErr <==> |data| <= c.room)
    && (out.err == NoErr ==> out.chan == c.(sent := c.sent + data, room := c.room - |data|))
    && (out.err != NoErr ==> out.err == c.outFault && out.chan.sent == c.sent + data[..c.room])
  }

  lemma SentKeepsTls(c: Chan, out: WriteOut, data: bytes)
    requires SentAs(c, out, data) && out.err == NoErr
    ensures out.chan.tls == c.tls
  {
  }

  lemma WriteAs(c: Chan, data: bytes)
    requires 0 < |data| <= IoLimit(c.tls)
    ensures SentAs(c, Write(c, data), data)
  {
  }

  lemma SentTwice(c: Chan, out: WriteOut, a: bytes, out': WriteOut, b: bytes)
    requires SentAs(c, out, a) && out.err == NoErr && SentAs(out.chan, out', b)
    ensures SentAs(c, out', a + b)
  {
  }

  lemma SentCut(c: Chan, out: WriteOut, a: bytes, b: bytes)
    requires SentAs(c, out, a) && out.err != NoErr
    ensures SentAs(c, out, a + b)
  {
  }

  datatype LinesOut = LinesOut(err: Err, lines: seq<bytes>, chan: Chan)

  /** Reading `n` lines. */
  function ReadLines(c: Chan, n: nat, maxlen: nat): LinesOut
    decreases n
  {
    if n == 0 then LinesOut(NoErr, [], c)
    else
      var l := RecvLine(c, maxlen);
      if l.err != NoErr then LinesOut(l.err, [], l.chan)
      else
        var r := ReadLines(l.chan, n - 1, maxlen);
        LinesOut(r.err, [l.line] + r.lines, r.chan)
  }

  lemma NoLines(c: Chan, maxlen: nat)
    ensures ReadLines(c, 0, maxlen) == LinesOut(NoErr, [], c)
  {
  }

  lemma NextLine(c: Chan, n: nat, maxlen: nat)
    requires n > 0 && RecvLine(c, maxlen).err == NoErr
    ensures var l := RecvLine(c, maxlen);
      var r := ReadLines(l.chan, n - 1, maxlen);
      ReadLines(c, n, maxlen) == LinesOut(r.err, [l.line] + r.lines, r.chan)
  {
  }

  /** Lines without CR and LF, short enough to be received. */
  predicate Plain(lines: seq<bytes>, maxlen: nat) {
    forall line :: line in lines ==> CR !in line && LF !in line && |line| < maxlen
  }

  lemma PlainParts(lines: seq<bytes>, maxlen: nat)
    requires lines != [] && Plain(lines, maxlen)
    ensures CR !in lines[0] && LF !in lines[0] && |lines[0]| < maxlen && Plain(lines[1..], maxlen)
  {
  }

  /** A peer that reads lines the way the client does gets back the lines that
      were sent, and nothing of what follows. */
  lemma {:induction false} LinesRoundTrip(c: Chan, lines: seq<bytes>, rest: bytes, maxlen: nat)
    requires Plain(lines, maxlen) && c.input == OnWire(lines) + rest
    ensures ReadLines(c, |lines|, maxlen) == LinesOut(NoErr, lines, c.(input := rest))
    decreases |lines|
  {
    hide RecvLine, StripCr, Plain, ReadLines;
    if lines == [] {
      NoLines(c, maxlen);
      assert OnWire(lines) + rest == rest;
    } else {
      var line, tail := lines[0], lines[1..];
      var rest' := OnWire(tail) + rest;
      PlainParts(lines, maxlen);
      Associate(line + [CR, LF], OnWire(tail), rest);
      LineRoundTrip(c, line, rest', maxlen);
      NextLine(c, |lines|, maxlen);
      LinesRoundTrip(c.(input := rest'), tail, rest, maxlen);
      assert lines == [line] + tail;
    }
  }

  /** The bytes of the upgrade request. */
  function Request(hostname: bytes, port: bytes, tls: bool, proto: bytes, path: bytes): bytes {
    OnWire(RequestLines(hostname, port, tls, proto, path))
  }

  /** The connection after the request has been sent and all but `rest` read. */
  function Upgraded(c: Chan, request: bytes, rest: bytes): Chan
    requires |request| <= c.room
  {
    c.(input := rest, sent := c.sent + request, room := c.room - |request|)
  }

  lemma RequestLinesShort(hostname: bytes, port: bytes, tls: bool, proto: bytes, path: bytes)
    ensures forall line :: line in RequestLines(hostname, port, tls, proto, path) ==>
      |line| + 2 <= |hostname| + |port| + |proto| + |path| + 100
  {
    hide Ascii;
  }

  ghost predicate ResponseAhead(s: bytes, proto: bytes, required: set<Flag>) {
    exists raws :: IsResponse(raws, proto, required) && Raw(raws) <= s
  }

  /** Exactly when the whole handshake succeeds. */
  lemma ShakeExact(c: Chan, hostname: bytes, port: bytes, required: set<Flag>, proto: bytes, path: bytes)
    requires |hostname| + |port| + |proto| + |path| + 100 <= IoLimit(c.tls)
    ensures Shake(c, hostname, port, required, proto, path).err == NoErr <==>
      |Request(hostname, port, c.tls, proto, path)| <= c.room && ResponseAhead(c.input, proto, required)
  {
    hide RequestLines, ReadResponse, IsResponse, Raw, SendLines, OnWire;
    var lines := RequestLines(hostname, port, c.tls, proto, path);
    RequestLinesShort(hostname, port, c.tls, proto, path);
    SendLinesExact(c, lines);
    if |OnWire(lines)| <= c.room {
      ResponseExact(SendLines(c, lines).chan, proto, required);
    }
  }

  /** What a successful handshake has sent, and that receiving then goes on
      behind the blank line, on the first byte of the first frame. */
  lemma ShakeLeaves(c: Chan, hostname: bytes, port: bytes, required: set<Flag>, proto: bytes, path: bytes,
        raws: seq<bytes>, rest: bytes)
    requires |hostname| + |port| + |proto| + |path| + 100 <= IoLimit(c.tls)
    requires |Request(hostname, port, c.tls, proto, path)| <= c.room
    requires IsResponse(raws, proto, required) && c.input == Raw(raws) + rest
    ensures Shake(c, hostname, port, required, proto, path)
         == Done(NoErr, Upgraded(c, Request(hostname, port, c.tls, proto, path), rest))
  {
    hide RequestLines, ReadResponse, IsResponse, Raw, SendLines, OnWire;
    var lines := RequestLines(hostname, port, c.tls, proto, path);
    RequestLinesShort(hostname, port, c.tls, proto, path);
    SendLinesExact(c, lines);
    ResponseComplete(SendLines(c, lines).chan, proto, required, raws, rest);
  }
}

/**
  The lines of the opening handshake, one by one: what a reader of the request
  gets, and exactly which lines of the response the client asks for.
 */
module HandshakeLines {
  import opened Bytes
  import opened Netx
  import opened Handshake

  // ----- characters -----

  lemma {:induction false} AsciiAt(s: string, i: nat)
    requires i < |s|
    ensures Ascii(s)[i] as int == s[i] as int % 256
  {
    if i > 0 {
      AsciiAt(s[1..], i - 1);
    }
  }

  /** Printable characters only. */
  predicate Printable(s: string) {
    forall i :: 0 <= i < |s| ==> ' ' <= s[i] <= '~'
  }

  lemma PrintableLine(s: string)
    requires Printable(s)
    ensures 13 !in Ascii(s) && 10 !in Ascii(s)
  {
  }

  // ----- which line sets which flag -----

  /** A header line, spelled out: the flag it stands for. */
  function Spelled(f: Flag, proto: bytes): bytes {
    match f
    case UpgradeWebsocket => Ascii("Upgrade: websocket")
    case ConnectionUpgrade => Ascii("Connection: Upgrade")
    case SecAccept => Ascii("Sec-WebSocket-Accept: ") + Ascii("s3pPLMBiTxaQ9kYGzzhZRbK+xOo=")
    case SecProtocol => Ascii("Sec-WebSocket-Protocol: ") + proto
  }

  lemma AsciiIs(s: string, i: nat, c: char, b: byte)
    requires i < |s| && s[i] == c && c <= '~' && b as int == c as int
    ensures Ascii(s)[i] == b
  {
    AsciiAt(s, i);
    SmallModulo(c as int);
    SameByte(Ascii(s)[i], b);
  }

  /** Two letters by which the lines can be told apart. */
  function Mark(line: bytes): (byte, byte) {
    if |line| > 14 then (line[0], line[14]) else (0, 0)
  }

  lemma UpgradeMark(proto: bytes)
    ensures Mark(Spelled(UpgradeWebsocket, proto)).0 == 85
  {
    hide Ascii;
    AsciiIs("Upgrade: websocket", 0, 'U', 85);
  }

  lemma ConnectionMark(proto: bytes)
    ensures Mark(Spelled(ConnectionUpgrade, proto)).0 == 67
  {
    hide Ascii;
    AsciiIs("Connection: Upgrade", 0, 'C', 67);
  }

  lemma AcceptMark(proto: bytes)
    ensures Mark(Spelled(SecAccept, proto)) == (83, 65)
  {
    hide Ascii;
    AsciiIs("Sec-WebSocket-Accept: ", 0, 'S', 83);
    AsciiIs("Sec-WebSocket-Accept: ", 14, 'A', 65);
  }

  lemma ProtocolMark(proto: bytes)
    ensures Mark(Spelled(SecProtocol, proto)) == (83, 80)
  {
    hide Ascii;
    AsciiIs("Sec-WebSocket-Protocol: ", 0, 'S', 83);
    AsciiIs("Sec-WebSocket-Protocol: ", 14, 'P', 80);
  }

  /** The four lines are different whatever the protocol is called. */
  lemma SpelledApart(f: Flag, g: Flag, proto: bytes)
    requires f != g
    ensures Spelled(f, proto) != Spelled(g, proto)
  {
    hide Ascii, Spelled, Mark;
    UpgradeMark(proto);
    ConnectionMark(proto);
    AcceptMark(proto);
    ProtocolMark(proto);
  }

  lemma SpelledLines(proto: bytes)
    ensures UPGRADE_LINE == Spelled(UpgradeWebsocket, proto)
    ensures CONNECTION_LINE == Spelled(ConnectionUpgrade, proto)
    ensures ACCEPT_LINE == Spelled(SecAccept, proto)
    ensures ProtocolLine(proto) == Spelled(SecProtocol, proto)
  {
    hide Ascii;
  }

  /** A line sets a flag exactly if it is that flag's line. */
  lemma FlagOfExactly(line: bytes, proto: bytes, f: Flag)
    ensures f in FlagOf(line, proto) <==> line == Spelled(f, proto)
  {
    hide Ascii, Spelled, ProtocolLine;
    SpelledLines(proto);
    forall g: Flag, h: Flag | g != h
      ensures Spelled(g, proto) != Spelled(h, proto)
    {
      SpelledApart(g, h, proto);
    }
  }

  /** And so does a list of lines. */
  lemma FlagsExactly(raws: seq<bytes>, proto: bytes, f: Flag)
    ensures f in FlagsOf(raws, proto) <==> exists raw :: raw in raws && StripCr(raw) == Spelled(f, proto)
  {
    FlagsOfMember(raws, proto, f);
    hide FlagOf, StripCr, Spelled, FlagsOf;
    forall raw
      ensures f in FlagOf(StripCr(raw), proto) <==> StripCr(raw) == Spelled(f, proto)
    {
      FlagOfExactly(StripCr(raw), proto, f);
    }
    if i :| 0 <= i < |raws| && f in FlagOf(StripCr(raws[i]), proto) {
      assert raws[i] in raws;
    }
  }

  // ----- exactly which responses are accepted -----

  function StatusText(): bytes {
    Ascii("HTTP/1.1 101 Switching Protocols")
  }

  /** A response, spelled out: the 101 line, then at most 1000 lines up to the
      blank one, each of fewer than 8000 bytes, with the four lines among them. */
  ghost predicate Spells(raws: seq<bytes>, proto: bytes) {
    && 2 <= |raws| <= 1001
    && (forall i :: 0 <= i < |raws| ==> 10 !in raws[i] && |StripCr(raws[i])| < 8000)
    && StripCr(raws[0]) == StatusText()
    && (forall i :: 1 <= i < |raws| ==> (StripCr(raws[i]) == [] <==> i == |raws| - 1))
    && forall f: Flag :: HasLine(raws[1..], Spelled(f, proto))
  }

  ghost predicate HasLine(raws: seq<bytes>, line: bytes) {
    exists raw :: raw in raws && StripCr(raw) == line
  }

  const ALL_FLAGS: set<Flag> := {ConnectionUpgrade, SecAccept, SecProtocol, UpgradeWebsocket}

  lemma EveryFlag(f: Flag)
    ensures f in ALL_FLAGS
  {
  }

  lemma FlagsOfAll(raws: seq<bytes>, proto: bytes)
    ensures ALL_FLAGS <= FlagsOf(raws, proto)
      <==> forall f: Flag :: HasLine(raws, Spelled(f, proto))
  {
    hide FlagsOf, Spelled, StripCr, Ascii;
    forall f: Flag
      ensures f in ALL_FLAGS && (f in FlagsOf(raws, proto) <==> HasLine(raws, Spelled(f, proto)))
    {
      FlagsExactly(raws, proto, f);
      EveryFlag(f);
    }
  }

  lemma SpellsExactly(raws: seq<bytes>, proto: bytes)
    ensures IsResponse(raws, proto, ALL_FLAGS)
      <==> Spells(raws, proto)
  {
    hide FlagsOf, Spelled, StripCr, Ascii, HasLine;
    if raws != [] {
      FlagsOfAll(raws[1..], proto);
      assert forall i :: 0 <= i < |raws| - 1 ==> raws[1..][i] == raws[i + 1];
      assert forall i :: 1 <= i < |raws| ==> raws[i] == raws[1..][i - 1];
    }
  }

  /** With all four flags required, exactly such responses are accepted. */
  lemma AcceptedExactly(c: Chan, proto: bytes)
    ensures var required := ALL_FLAGS;
      && (ReadResponse(c, proto, required).err == NoErr <==> exists raws :: Spells(raws, proto) && Raw(raws) <= c.input)
      && (forall raws, rest :: Spells(raws, proto) && c.input == Raw(raws) + rest ==>
            ReadResponse(c, proto, required) == Done(NoErr, c.(input := rest)))
  {
    hide ReadResponse, IsResponse, Spells, Raw;
    ResponseExact(c, proto, ALL_FLAGS);
    forall raws
      ensures IsResponse(raws, proto, ALL_FLAGS)
        <==> Spells(raws, proto)
    {
      SpellsExactly(raws, proto);
    }
  }

  // ----- a response that is -----

  function Raws(lines: seq<bytes>): (r: seq<bytes>)
    ensures |r| == |lines|
  {
    seq(|lines|, i requires 0 <= i < |lines| => lines[i] + [13])
  }

  lemma {:induction false} RawsOnWire(lines: seq<bytes>)
    ensures Raw(Raws(lines)) == OnWire(lines)
  {
    if lines == [] {
    } else {
      RawsOnWire(lines[1..]);
      assert Raws(lines)[1..] == Raws(lines[1..]);
      assert (lines[0] + [13]) + [10] == lines[0] + [13, 10];
    }
  }

  lemma StripLine(line: bytes)
    requires 13 !in line
    ensures StripCr(line + [13]) == line
  {
    StripCrAppend(line, [13]);
    StripCrKeeps(line);
    assert StripCr([13]) == [];
    assert line + [] == line;
  }

  /** The lines of the sample response of section 1.3 of RFC 6455, with the protocol. */
  function Sample(proto: bytes): seq<bytes> {
    [StatusText(), Spelled(UpgradeWebsocket, proto), Spelled(ConnectionUpgrade, proto),
     Spelled(SecAccept, proto), Spelled(SecProtocol, proto), []]
  }

  lemma CleanStatus()
    ensures 13 !in StatusText() && 10 !in StatusText() && |StatusText()| == 32
  {
    hide Ascii;
    PrintableLine("HTTP/1.1 101 Switching Protocols");
  }

  lemma CleanAccept(proto: bytes)
    ensures 13 !in Spelled(SecAccept, proto) && 10 !in Spelled(SecAccept, proto) && |Spelled(SecAccept, proto)| == 50
  {
    hide Ascii;
    PrintableLine("Sec-WebSocket-Accept: ");
    PrintableLine("s3pPLMBiTxaQ9kYGzzhZRbK+xOo=");
  }

  lemma CleanProtocol(proto: bytes)
    requires 10 !in proto && 13 !in proto
    ensures 13 !in Spelled(SecProtocol, proto) && 10 !in Spelled(SecProtocol, proto)
    ensures |Spelled(SecProtocol, proto)| == 24 + |proto|
  {
    hide Ascii;
    PrintableLine("Sec-WebSocket-Protocol: ");
  }

  lemma CleanUpgrade(proto: bytes)
    ensures 13 !in Spelled(UpgradeWebsocket, proto) && 10 !in Spelled(UpgradeWebsocket, proto)
    ensures |Spelled(UpgradeWebsocket, proto)| == 18
  {
    hide Ascii;
    PrintableLine("Upgrade: websocket");
  }

  lemma CleanConnection(proto: bytes)
    ensures 13 !in Spelled(ConnectionUpgrade, proto) && 10 !in Spelled(ConnectionUpgrade, proto)
    ensures |Spelled(ConnectionUpgrade, proto)| == 19
  {
    hide Ascii;
    PrintableLine("Connection: Upgrade");
  }

  lemma SampleLines(proto: bytes)
    requires 10 !in proto && 13 !in proto && |proto| < 7000
    ensures Short(Sample(proto))
  {
    hide Ascii, Spelled, StatusText;
    CleanStatus();
    CleanUpgrade(proto);
    CleanConnection(proto);
    CleanAccept(proto);
    CleanProtocol(proto);
  }

  predicate Short(lines: seq<bytes>) {
    forall i :: 0 <= i < |lines| ==>
      10 !in lines[i] && 13 !in lines[i] && |lines[i]| < 8000 && (lines[i] == [] <==> i == |lines| - 1)
  }

  lemma RawsHave(lines: seq<bytes>, i: nat)
    requires 0 < i < |lines| && 13 !in lines[i]
    ensures HasLine(Raws(lines)[1..], lines[i])
  {
    hide StripCr;
    StripLine(lines[i]);
    assert Raws(lines)[1..][i - 1] == lines[i] + [13];
  }

  function Place(f: Flag): nat {
    match f case UpgradeWebsocket => 1 case ConnectionUpgrade => 2 case SecAccept => 3 case SecProtocol => 4
  }

  lemma SampleAt(proto: bytes, f: Flag)
    ensures AtPlace(Sample(proto), 0, StatusText()) && AtPlace(Sample(proto), Place(f), Spelled(f, proto))
    ensures |Sample(proto)| == 6
  {
    hide Ascii, Spelled, StatusText;
  }

  predicate AtPlace(lines: seq<bytes>, i: nat, line: bytes) {
    i < |lines| && lines[i] == line
  }

  lemma LinesSpell(lines: seq<bytes>, proto: bytes)
    requires lines == Sample(proto) && Short(lines)
    ensures Spells(Raws(lines), proto)
  {
    hide Ascii, Spelled, HasLine, StripCr, Sample;
    SampleAt(proto, SecAccept);
    forall f: Flag
      ensures HasLine(Raws(lines)[1..], Spelled(f, proto))
    {
      SampleAt(proto, f);
      RawsHave(lines, Place(f));
    }
    forall i | 0 <= i < |lines|
      ensures StripCr(Raws(lines)[i]) == lines[i] && 10 !in Raws(lines)[i]
    {
      StripLine(lines[i]);
    }
  }

  lemma SampleSpells(proto: bytes)
    requires 10 !in proto && 13 !in proto && |proto| < 7000
    ensures Spells(Raws(Sample(proto)), proto)
  {
    hide Spells, Ascii, Spelled;
    SampleLines(proto);
    LinesSpell(Sample(proto), proto);
  }

  /** That response completes the handshake. */
  lemma SampleAccepted(c: Chan, proto: bytes, rest: bytes)
    requires 10 !in proto && 13 !in proto && |proto| < 7000 && c.input == OnWire(Sample(proto)) + rest
    ensures ReadResponse(c, proto, ALL_FLAGS)
      == Done(NoErr, c.(input := rest))
  {
    hide Sample, Spells, ReadResponse, Raw, OnWire;
    SampleSpells(proto);
    RawsOnWire(Sample(proto));
    AcceptedExactly(c, proto);
  }

  // ----- responses that are refused -----

  /** Another first line. */
  lemma StatusRefused(c: Chan, proto: bytes, raw: bytes, rest: bytes)
    requires 10 !in raw && |StripCr(raw)| < 8000 && StripCr(raw) != StatusText()
    requires c.input == raw + [10] + rest
    ensures ReadResponse(c, proto, ALL_FLAGS) == Done(WsProto, c.(input := rest))
  {
    hide Ascii, StripCr, RecvLine;
    GoodLineRead(c, raw, rest);
  }

  /** A line of 8000 bytes or more, from where it is too long. */
  lemma {:induction false} LongLine(c: Chan, line: bytes, raw: bytes, rest: bytes)
    requires 10 !in raw && 13 !in raw && |line| + |raw| == 8000 && c.input == raw + rest
    ensures LineRest(c, line, 8000) == LineOut(ValueTooLarge, line + raw, c.(input := rest))
    decreases |raw|
  {
    if raw == [] {
      assert line + raw == line && raw + rest == rest;
    } else {
      assert c.input[0] == raw[0] && c.input[1..] == raw[1..] + rest && c.input[..1] == [raw[0]];
      LongLine(c.(input := raw[1..] + rest), line + [raw[0]], raw[1..], rest);
      assert (line + [raw[0]]) + raw[1..] == line + raw;
    }
  }

  lemma LineTooLong(c: Chan, proto: bytes, raw: bytes, rest: bytes)
    requires 10 !in raw && 13 !in raw && |raw| == 8000 && c.input == raw + rest
    ensures ReadResponse(c, proto, ALL_FLAGS) == Done(ValueTooLarge, c.(input := rest))
  {
    hide Ascii;
    LongLine(c, [], raw, rest);
  }

  /** Header lines up to the blank one, whatever they are. */
  ghost predicate Block(raws: seq<bytes>, left: nat) {
    && 0 < |raws| <= left
    && forall i :: 0 <= i < |raws| ==>
         10 !in raws[i] && |StripCr(raws[i])| < 8000 && (StripCr(raws[i]) == [] <==> i == |raws| - 1)
  }

  lemma NotSet(raws: seq<bytes>, proto: bytes, f: Flag)
    requires !HasLine(raws, Spelled(f, proto))
    ensures f !in FlagsOf(raws, proto)
  {
    hide Spelled, StripCr, FlagsOf;
    FlagsExactly(raws, proto, f);
  }

  /** Without all four lines. */
  lemma HeadersMissing(c: Chan, proto: bytes, status: bytes, raws: seq<bytes>, f: Flag, rest: bytes)
    requires 10 !in status && StripCr(status) == StatusText() && Block(raws, 1000)
    requires !HasLine(raws, Spelled(f, proto)) && c.input == status + [10] + (Raw(raws) + rest)
    ensures ReadResponse(c, proto, ALL_FLAGS) == Done(WsProto, c.(input := rest))
  {
    hide Ascii, StripCr, Raw, Spelled, HasLine, StatusText, FlagsOf, ReadHeaders, ReadResponse, Block;
    NotSet(raws, proto, f);
    EveryFlag(f);
    AfterStatus(c, proto, status, Raw(raws) + rest);
    HeadersEnd(c.(input := Raw(raws) + rest), proto, ALL_FLAGS, {}, 1000, raws, rest);
    assert !(ALL_FLAGS <= {} + FlagsOf(raws, proto)) by {
      assert f in ALL_FLAGS && f !in {} + FlagsOf(raws, proto);
    }
  }

  lemma AfterStatus(c: Chan, proto: bytes, status: bytes, rest: bytes)
    requires 10 !in status && StripCr(status) == StatusText() && c.input == status + [10] + rest
    ensures ReadResponse(c, proto, ALL_FLAGS) == ReadHeaders(c.(input := rest), proto, ALL_FLAGS, {}, 1000)
  {
    hide Ascii, StripCr, RecvLine, StatusText, ReadHeaders;
    CleanStatus();
    StatusIs();
    GoodLineRead(c, status, rest);
  }

  lemma StatusIs()
    ensures StatusText() == STATUS_LINE
  {
  }

  /** The outcome at the blank line. */
  lemma {:induction false} HeadersEnd(c: Chan, proto: bytes, required: set<Flag>, seen: set<Flag>, left: nat,
                                      raws: seq<bytes>, rest: bytes)
    requires Block(raws, left) && c.input == Raw(raws) + rest
    ensures ReadHeaders(c, proto, required, seen, left)
      == Done(if required <= seen + FlagsOf(raws, proto) then NoErr else WsProto, c.(input := rest))
    decreases |raws|
  {
    hide FlagOf, RecvLine, StripCr;
    var rest' := Raw(raws[1..]) + rest;
    NextRaw(raws, rest);
    GoodLineRead(c, raws[0], rest');
    if |raws| == 1 {
      BlankSetsNothing(raws[0], proto);
      assert raws == [raws[0]];
      assert rest' == rest;
    } else {
      HeadersEnd(c.(input := rest'), proto, required, seen + FlagOf(StripCr(raws[0]), proto), left - 1, raws[1..],
                 rest);
    }
  }

  /** Lines without a blank one among them. */
  lemma {:induction false} HeadersGoOn(c: Chan, proto: bytes, seen: set<Flag>, raws: seq<bytes>, rest: bytes)
    requires forall i :: 0 <= i < |raws| ==> 10 !in raws[i] && 0 < |StripCr(raws[i])| < 8000
    requires c.input == Raw(raws) + rest
    ensures ReadHeaders(c, proto, ALL_FLAGS, seen, |raws|) == Done(ValueTooLarge, c.(input := rest))
    decreases |raws|
  {
    hide FlagOf, RecvLine, StripCr;
    if raws == [] {
      assert Raw(raws) + rest == rest;
    } else {
      var rest' := Raw(raws[1..]) + rest;
      NextRaw(raws, rest);
      GoodLineRead(c, raws[0], rest');
      HeadersGoOn(c.(input := rest'), proto, seen + FlagOf(StripCr(raws[0]), proto), raws[1..], rest);
    }
  }

  /** A thousand header lines and no blank one. */
  lemma TooManyHeaders(c: Chan, proto: bytes, status: bytes, raws: seq<bytes>, rest: bytes)
    requires 10 !in status && StripCr(status) == StatusText() && |raws| == 1000
    requires forall i :: 0 <= i < |raws| ==> 10 !in raws[i] && 0 < |StripCr(raws[i])| < 8000
    requires c.input == status + [10] + (Raw(raws) + rest)
    ensures ReadResponse(c, proto, ALL_FLAGS) == Done(ValueTooLarge, c.(input := rest))
  {
    hide Ascii, StripCr, Raw, StatusText, ReadHeaders, ReadResponse;
    AfterStatus(c, proto, status, Raw(raws) + rest);
    HeadersGoOn(c.(input := Raw(raws) + rest), proto, {}, raws, rest);
  }

  // ----- what a reader of the request gets -----

  /** What stands before the first `sep`, and behind it. */
  function Before(s: bytes, sep: byte): bytes {
    if s == [] || s[0] == sep then [] else [s[0]] + Before(s[1..], sep)
  }

  function Behind(s: bytes, sep: byte): bytes {
    if s == [] then [] else if s[0] == sep then s[1..] else Behind(s[1..], sep)
  }

  lemma {:induction false} SplitAt(a: bytes, sep: byte, b: bytes)
    requires sep !in a
    ensures Before(a + [sep] + b, sep) == a && Behind(a + [sep] + b, sep) == b
  {
    var s := a + [sep] + b;
    if a == [] {
      assert s[1..] == b;
    } else {
      SplitAt(a[1..], sep, b);
      assert s[1..] == a[1..] + [sep] + b;
    }
  }

  /** A header line: its name, and its value behind the colon and a space. */
  datatype Header = Header(name: bytes, value: bytes)

  function ReadHeader(line: bytes): Header {
    Header(Before(line, 58), Behind(Behind(line, 58), 32))
  }

  lemma {:induction false} AsciiJoined(a: string, b: string)
    ensures Ascii(a + b) == Ascii(a) + Ascii(b)
  {
    hide LowByte;
    if a == "" {
      assert a + b == b;
    } else {
      AsciiJoined(a[1..], b);
      assert (a + b)[0] == a[0] && (a + b)[1..] == a[1..] + b;
      Associate([LowByte(a[0] as int)], Ascii(a[1..]), Ascii(b));
    }
  }

  lemma ColonAndSpace()
    ensures Ascii(": ") == [58] + [32]
  {
    AsciiIs(": ", 0, ':', 58);
    AsciiIs(": ", 1, ' ', 32);
  }

  lemma HeaderRead(name: string, value: bytes)
    requires Printable(name) && ':' !in name
    ensures ReadHeader(Ascii(name + ": ") + value) == Header(Ascii(name), value)
  {
    AsciiJoined(name, ": ");
    ColonAndSpace();
    NoColon(name);
    hide Ascii;
    var n := Ascii(name);
    assert (n + ([58] + [32])) + value == n + [58] + ([32] + value);
    SplitAt(n, 58, [32] + value);
    SplitAt([], 32, value);
    assert [] + [32] + value == [32] + value;
  }

  lemma NoColon(name: string)
    requires Printable(name) && ':' !in name
    ensures 58 !in Ascii(name)
  {
  }

  lemma NoSpace(s: string)
    requires Printable(s) && ' ' !in s
    ensures 32 !in Ascii(s)
  {
  }

  /** What stands before the last `sep`, and behind it. */
  function BeforeLast(s: bytes, sep: byte): bytes
    decreases |s|
  {
    if s == [] then [] else if s[|s| - 1] == sep then s[..|s| - 1] else BeforeLast(s[..|s| - 1], sep)
  }

  function BehindLast(s: bytes, sep: byte): bytes
    decreases |s|
  {
    if s == [] || s[|s| - 1] == sep then [] else BehindLast(s[..|s| - 1], sep) + [s[|s| - 1]]
  }

  lemma {:induction false} SplitAtLast(a: bytes, sep: byte, b: bytes)
    requires sep !in b
    ensures BeforeLast(a + [sep] + b, sep) == a && BehindLast(a + [sep] + b, sep) == b
    decreases |b|
  {
    var s := a + [sep] + b;
    if b == [] {
      assert s[..|s| - 1] == a;
    } else {
      SplitAtLast(a, sep, b[..|b| - 1]);
      assert s[..|s| - 1] == a + [sep] + b[..|b| - 1];
      assert b == b[..|b| - 1] + [b[|b| - 1]];
    }
  }

  /** A request line: method, target and version, separated by the first and the last space. */
  datatype RequestLine = RequestLine(verb: bytes, target: bytes, version: bytes)

  function ReadRequestLine(line: bytes): RequestLine {
    var rest := Behind(line, 32);
    RequestLine(Before(line, 32), BeforeLast(rest, 32), BehindLast(rest, 32))
  }

  lemma SpaceIs()
    ensures Ascii(" ") == [32]
  {
  }

  lemma GetSplit()
    ensures Ascii("GET ") == Ascii("GET") + [32] && 32 !in Ascii("GET")
  {
    hide Ascii;
    SpaceIs();
    AsciiJoined("GET", " ");
    NoSpace("GET");
    assert "GET" + " " == "GET ";
  }

  lemma VersionSplit()
    ensures Ascii(" HTTP/1.1") == [32] + Ascii("HTTP/1.1") && 32 !in Ascii("HTTP/1.1")
  {
    hide Ascii;
    SpaceIs();
    AsciiJoined(" ", "HTTP/1.1");
    NoSpace("HTTP/1.1");
    assert " " + "HTTP/1.1" == " HTTP/1.1";
  }

  lemma RequestLineOf(verb: bytes, path: bytes, version: bytes)
    requires 32 !in verb && 32 !in version
    ensures ReadRequestLine((verb + [32]) + path + ([32] + version)) == RequestLine(verb, path, version)
  {
    assert (verb + [32]) + path + ([32] + version) == verb + [32] + (path + [32] + version);
    SplitAt(verb, 32, path + [32] + version);
    SplitAtLast(path, 32, version);
  }

  lemma RequestLineRead(path: bytes)
    ensures ReadRequestLine(Ascii("GET ") + path + Ascii(" HTTP/1.1"))
      == RequestLine(Ascii("GET"), path, Ascii("HTTP/1.1"))
  {
    hide Ascii, ReadRequestLine;
    GetSplit();
    VersionSplit();
    RequestLineOf(Ascii("GET"), path, Ascii("HTTP/1.1"));
  }

  /** A request, taken apart. */
  datatype Reading =
    | Reading(line: RequestLine, headers: seq<Header>)
    | Unreadable

  function ReadRequest(lines: seq<bytes>): Reading {
    if |lines| < 2 || lines[|lines| - 1] != [] then Unreadable
    else Reading(ReadRequestLine(lines[0]), HeadersOf(lines[1..|lines| - 1]))
  }

  function HeadersOf(lines: seq<bytes>): (r: seq<Header>)
    ensures |r| == |lines|
  {
    seq(|lines|, i requires 0 <= i < |lines| => ReadHeader(lines[i]))
  }

  /** The port is left out of the host only if it is the usual one. */
  function HostOf(hostname: bytes, port: bytes, tls: bool): bytes {
    if (tls && port == Ascii("443")) || (!tls && port == Ascii("80")) then hostname else hostname + [58] + port
  }

  /** What the request should say. */
  function Asked(hostname: bytes, port: bytes, tls: bool, proto: bytes, path: bytes): Reading {
    Reading(RequestLine(Ascii("GET"), path, Ascii("HTTP/1.1")),
            [ Header(Ascii("Host"), HostOf(hostname, port, tls)),
              Header(Ascii("Upgrade"), Ascii("websocket")),
              Header(Ascii("Connection"), Ascii("Upgrade")),
              Header(Ascii("Sec-WebSocket-Key"), Ascii("dGhlIHNhbXBsZSBub25jZQ==")),
              Header(Ascii("Sec-WebSocket-Protocol"), proto),
              Header(Ascii("Sec-WebSocket-Version"), Ascii("13")) ])
  }

  /** A header line given as one string, or as its name with the value behind it. */
  lemma HeaderLine(name: string, value: string)
    requires Printable(name) && ':' !in name
    ensures ReadHeader(Ascii(name + ": " + value)) == Header(Ascii(name), Ascii(value))
  {
    AsciiJoined(name + ": ", value);
    HeaderRead(name, Ascii(value));
  }

  lemma HostRead(hostname: bytes, port: bytes, tls: bool)
    ensures ReadHeader(Ascii("Host: ") + hostname + PortSuffix(port, tls))
      == Header(Ascii("Host"), HostOf(hostname, port, tls))
  {
    AsciiIs(":", 0, ':', 58);
    assert "Host" + ": " == "Host: ";
    hide Ascii;
    assert Ascii(":") == [58];
    HeaderRead("Host", hostname + PortSuffix(port, tls));
    Associate(Ascii("Host: "), hostname, PortSuffix(port, tls));
    Associate(hostname, [58], port);
    assert hostname + [] == hostname;
  }

  lemma UpgradeRead()
    ensures ReadHeader(UPGRADE_LINE) == Header(Ascii("Upgrade"), Ascii("websocket"))
  {
    hide Ascii;
    assert "Upgrade" + ": " + "websocket" == "Upgrade: websocket";
    HeaderLine("Upgrade", "websocket");
  }

  lemma ConnectionRead()
    ensures ReadHeader(CONNECTION_LINE) == Header(Ascii("Connection"), Ascii("Upgrade"))
  {
    hide Ascii;
    assert "Connection" + ": " + "Upgrade" == "Connection: Upgrade";
    HeaderLine("Connection", "Upgrade");
  }

  lemma KeyRead(key: bytes)
    ensures ReadHeader(Ascii("Sec-WebSocket-Key: ") + key) == Header(Ascii("Sec-WebSocket-Key"), key)
  {
    hide Ascii;
    assert "Sec-WebSocket-Key" + ": " == "Sec-WebSocket-Key: ";
    HeaderRead("Sec-WebSocket-Key", key);
  }

  lemma ProtocolRead(proto: bytes)
    ensures ReadHeader(ProtocolLine(proto)) == Header(Ascii("Sec-WebSocket-Protocol"), proto)
  {
    hide Ascii;
    assert "Sec-WebSocket-Protocol" + ": " == "Sec-WebSocket-Protocol: ";
    HeaderRead("Sec-WebSocket-Protocol", proto);
  }

  lemma VersionRead()
    ensures ReadHeader(Ascii("Sec-WebSocket-Version: 13")) == Header(Ascii("Sec-WebSocket-Version"), Ascii("13"))
  {
    hide Ascii;
    assert "Sec-WebSocket-Version" + ": " + "13" == "Sec-WebSocket-Version: 13";
    HeaderLine("Sec-WebSocket-Version", "13");
  }

  /** The request says what it should. */
  lemma RequestAsks(hostname: bytes, port: bytes, tls: bool, proto: bytes, path: bytes)
    ensures ReadRequest(RequestLines(hostname, port, tls, proto, path)) == Asked(hostname, port, tls, proto, path)
  {
    RequestLineRead(path);
    HostRead(hostname, port, tls);
    UpgradeRead();
    ConnectionRead();
    KeyRead(Ascii("dGhlIHNhbXBsZSBub25jZQ=="));
    ProtocolRead(proto);
    VersionRead();
    hide Ascii, ReadHeader, ReadRequestLine, HostOf, ProtocolLine, PortSuffix;
    var lines := RequestLines(hostname, port, tls, proto, path);
    assert |lines| == 8 && lines[7] == [];
    assert HeadersOf(lines[1..7]) == Asked(hostname, port, tls, proto, path).headers;
  }

  /** No line end in it. */
  predicate Clean(s: bytes) {
    13 !in s && 10 !in s
  }

  lemma CleanParts()
    ensures Clean(Ascii("GET ")) && Clean(Ascii(" HTTP/1.1")) && Clean(Ascii("Host: ")) && Clean(Ascii(":"))
    ensures Clean(Ascii("Sec-WebSocket-Key: ")) && Clean(Ascii("Sec-WebSocket-Protocol: "))
  {
    hide Ascii;
    PrintableLine("GET ");
    PrintableLine(" HTTP/1.1");
    PrintableLine("Host: ");
    PrintableLine(":");
    PrintableLine("Sec-WebSocket-Key: ");
    PrintableLine("Sec-WebSocket-Protocol: ");
  }

  lemma CleanLines()
    ensures Clean(UPGRADE_LINE) && Clean(CONNECTION_LINE)
  {
    hide Ascii;
    PrintableLine("Upgrade: websocket");
    PrintableLine("Connection: Upgrade");
  }

  lemma CleanValues()
    ensures Clean(Ascii("Sec-WebSocket-Version: 13")) && Clean(Ascii("dGhlIHNhbXBsZSBub25jZQ=="))
  {
    hide Ascii;
    PrintableLine("Sec-WebSocket-Version: 13");
    PrintableLine("dGhlIHNhbXBsZSBub25jZQ==");
  }

  lemma RequestPlain(hostname: bytes, port: bytes, tls: bool, proto: bytes, path: bytes, maxlen: nat)
    requires Clean(hostname) && Clean(port) && Clean(proto) && Clean(path)
    requires |hostname| + |port| + |proto| + |path| + 100 <= maxlen
    ensures Plain(RequestLines(hostname, port, tls, proto, path), maxlen)
  {
    RequestLinesShort(hostname, port, tls, proto, path);
    CleanParts();
    CleanLines();
    CleanValues();
    hide Ascii;
  }

  /** The lines have been read, the connection is `c` now, and this is what they say. */
  ghost predicate Understood(out: LinesOut, c: Chan, reading: Reading) {
    out.err == NoErr && out.chan == c && ReadRequest(out.lines) == reading
  }

  /** A server that reads the request line by line gets it whole, and nothing of what follows. */
  lemma RequestReceived(c: Chan, hostname: bytes, port: bytes, tls: bool, proto: bytes, path: bytes, rest: bytes,
                        maxlen: nat)
    requires Clean(hostname) && Clean(port) && Clean(proto) && Clean(path)
    requires |hostname| + |port| + |proto| + |path| + 100 <= maxlen
    requires c.input == Request(hostname, port, tls, proto, path) + rest
    ensures Understood(ReadLines(c, 8, maxlen), c.(input := rest), Asked(hostname, port, tls, proto, path))
  {
    hide RequestLines, ReadRequest, Asked, Plain, ReadLines, OnWire;
    RequestAsks(hostname, port, tls, proto, path);
    RequestPlain(hostname, port, tls, proto, path, maxlen);
    EightLines(hostname, port, tls, proto, path);
    LinesRoundTrip(c, RequestLines(hostname, port, tls, proto, path), rest, maxlen);
  }

  lemma EightLines(hostname: bytes, port: bytes, tls: bool, proto: bytes, path: bytes)
    ensures |RequestLines(hostname, port, tls, proto, path)| == 8
  {
  }
}

/**
  The SOCKS5 exchange on a connection to the proxy (sections 3 to 6 of
  RFC 1928): method negotiation, the CONNECT request and its reply.
 */
module Socks5 {
  import opened Bytes
  import opened Netx
  import opened Strtonum

  const MAX_PORT: LongLong := 65535

  // ----- the request -----

  function AuthRequest(): bytes {
    [5, 1, 0]
  }

  /** How a proxy takes the greeting off its stream (section 3 of RFC 1928): the
      version, and the methods that the client offers. */
  datatype Greeting =
    | Offer(methods: bytes, rest: bytes)
    | BadGreeting

  function DecodeGreeting(s: bytes): Greeting {
    if |s| < 2 || s[0] != 5 || |s| < 2 + s[1] as int then BadGreeting
    else Offer(s[2..2 + s[1] as int], s[2 + s[1] as int..])
  }

  /** The client offers one method: no authentication. */
  lemma GreetingRoundTrip(rest: bytes)
    ensures DecodeGreeting(AuthRequest() + rest) == Offer([0], rest)
  {
  }

  /** The port number, if the string is one. */
  function PortNumber(port: bytes): (v: Verdict)
    ensures v.Ok? ==> 0 <= v.value <= 65535
  {
    Judge(CString(port), 0, MAX_PORT)
  }

  /** A CONNECT request for a domain name; the port in network byte order. */
  function ConnectRequest(hostname: bytes, port: nat): bytes {
    [5, 1, 0, 3, LowByte(|hostname|)] + hostname + BigEndian(port, 2)
  }

  datatype Target =
    | Connect(hostname: bytes, port: nat, rest: bytes)
    | BadRequest

  /** How a proxy takes a CONNECT request with a domain name off its stream. */
  function DecodeConnect(s: bytes): Target {
    if |s| < 5 || s[..4] != [5, 1, 0, 3] then BadRequest else DecodeTarget(s[5..], s[4] as int)
  }

  function DecodeTarget(s: bytes, n: nat): Target {
    if |s| < n + 2 then BadRequest
    else Connect(s[..n], FromBigEndian(s[n..n + 2]), s[n + 2..])
  }

  lemma DecodeTargetParts(hostname: bytes, tail: bytes, rest: bytes)
    requires |tail| == 2
    ensures DecodeTarget(hostname + tail + rest, |hostname|) == Connect(hostname, FromBigEndian(tail), rest)
  {
  }

  lemma FiveFirst(head: bytes, body: bytes)
    requires |head| == 5
    ensures var s := head + body; s[..4] == head[..4] && s[4] == head[4] && s[5..] == body
  {
  }

  /** The proxy gets the host name and the port that were asked for. */
  lemma ConnectRoundTrip(hostname: bytes, port: nat, rest: bytes)
    requires |hostname| <= 255 && port <= 65535
    ensures DecodeConnect(ConnectRequest(hostname, port) + rest) == Connect(hostname, port, rest)
  {
    hide LowByte, FromBigEndian, DecodeTarget, BigEndian;
    var head, tail := [5, 1, 0, 3, LowByte(|hostname|)], BigEndian(port, 2);
    Associate(head + hostname, tail, rest);
    Associate(head, hostname, tail + rest);
    Associate(hostname, tail, rest);
    FiveFirst(head, hostname + tail + rest);
    assert head[..4] == [5, 1, 0, 3];
    DecodeTargetParts(hostname, tail, rest);
    PortBytes(port);
  }

  lemma PortBytes(port: nat)
    requires port <= 65535
    ensures FromBigEndian(BigEndian(port, 2)) == port
  {
    assert Pow256(2) == 65536;
    BigEndianRoundTrip(port, 2);
  }

  // ----- the exchange, on the one-shot view -----

  datatype Done = Done(err: Err, chan: Chan)

  /** Reading `n` bytes that nobody looks at. */
  function Skip(c: Chan, n: nat): Done {
    var r := Read(c, n);
    Done(r.err, r.chan)
  }

  function SkipAddress(c: Chan, kind: byte): Done {
    if kind == 1 then Skip(c, 4)
    else if kind == 3 then
      var r := Read(c, 1);
      if r.err != NoErr then Done(r.err, r.chan) else Skip(r.chan, r.data[0] as int)
    else if kind == 4 then Skip(c, 16)
    else Done(Err.Socks5h, c)
  }

  /** A port number goes to the proxy exactly if it fits in 16 bits. */
  lemma PortPrinted(n: nat)
    ensures PortNumber(Print(n)) == if n <= 65535 then Verdict.Ok(n) else TooLarge
  {
    PrintedNumber(n, 0, MAX_PORT);
  }

  /** What is wrong with the first four bytes of a reply, if anything. */
  function ReplyFault(version: byte, status: byte, reserved: byte, kind: byte): Err {
    if version != 5 then Err.Socks5h
    else if status != 0 then IoError
    else if reserved != 0 || kind !in {1, 3, 4} then Err.Socks5h
    else NoErr
  }

  /** Such a reply is refused, and nothing behind it is read. */
  lemma ReplyRefused(c: Chan, version: byte, status: byte, reserved: byte, kind: byte, rest: bytes)
    requires c.input == [version, status, reserved, kind] + rest
    requires ReplyFault(version, status, reserved, kind) != NoErr
    ensures ReadReply(c) == Done(ReplyFault(version, status, reserved, kind), c.(input := rest))
  {
  }

  /** So is any other answer to the greeting, and a host name or port that does not fit. */
  lemma GreetingRefused(c: Chan, hostname: bytes, port: bytes, version: byte, chosen: byte, rest: bytes)
    requires c.input == [version, chosen] + rest && c.room >= 3
    ensures version != 5 || chosen != 0 ==>
      Exchange(c, hostname, port).err == Err.Socks5h && Exchange(c, hostname, port).chan.input == rest
    ensures version == 5 && chosen == 0 && (|hostname| > 255 || !PortNumber(port).Ok?) ==>
      Exchange(c, hostname, port).err == InvalidArgument && Exchange(c, hostname, port).chan.input == rest
  {
  }

  function ReadReply(c: Chan): Done {
    var r := Read(c, 4);
    if r.err != NoErr then Done(r.err, r.chan)
    else if r.data[0] != 5 then Done(Err.Socks5h, r.chan)
    else if r.data[1] != 0 then Done(IoError, r.chan)
    else if r.data[2] != 0 then Done(Err.Socks5h, r.chan)
    else
      var a := SkipAddress(r.chan, r.data[3]);
      if a.err != NoErr then a else Skip(a.chan, 2)
  }

  function Authenticate(c: Chan): Done {
    var w := Write(c, AuthRequest());
    if w.err != NoErr then Done(w.err, w.chan)
    else
      var r := Read(w.chan, 2);
      if r.err != NoErr then Done(r.err, r.chan)
      else if r.data[0] != 5 || r.data[1] != 0 then Done(Err.Socks5h, r.chan)
      else Done(NoErr, r.chan)
  }

  function Exchange(c: Chan, hostname: bytes, port: bytes): Done {
    var a := Authenticate(c);
    if a.err != NoErr then a
    else if |hostname| > 255 then Done(InvalidArgument, a.chan)
    else if !PortNumber(port).Ok? then Done(InvalidArgument, a.chan)
    else
      var w := Write(a.chan, ConnectRequest(hostname, PortNumber(port).value));
      if w.err != NoErr then Done(w.err, w.chan) else ReadReply(w.chan)
  }

  // ----- exactly which replies are accepted, and how far they reach -----

  /** The bound address in a reply. */
  datatype Address = V4(a: bytes) | Domain(name: bytes) | V6(a: bytes)

  predicate GoodAddress(a: Address) {
    match a
    case V4(a) => |a| == 4
    case Domain(name) => |name| <= 255
    case V6(a) => |a| == 16
  }

  function EncodeAddress(a: Address): bytes
    requires GoodAddress(a)
  {
    match a
    case V4(a) => [1] + a
    case Domain(name) => [3] + ([LowByte(|name|)] + name)
    case V6(a) => [4] + a
  }

  /** A reply that grants the connection. */
  function EncodeReply(a: Address, port: bytes): bytes
    requires GoodAddress(a) && |port| == 2
  {
    [5, 0, 0] + (EncodeAddress(a) + port)
  }

  lemma ReadFront(c: Chan, data: bytes, rest: bytes)
    requires c.input == data + rest && |data| <= 300
    ensures Read(c, |data|) == ReadOut(NoErr, data, c.(input := rest))
  {
  }

  lemma SkipAddressComplete(c: Chan, a: Address, rest: bytes)
    requires GoodAddress(a) && c.input == EncodeAddress(a)[1..] + rest
    ensures SkipAddress(c, EncodeAddress(a)[0]) == Done(NoErr, c.(input := rest))
  {
    hide Read, IoLimit;
    match a
    case V4(a) =>
      assert EncodeAddress(V4(a))[1..] == a;
      ReadFront(c, a, rest);
    case V6(a) =>
      assert EncodeAddress(V6(a))[1..] == a;
      ReadFront(c, a, rest);
    case Domain(name) =>
      var len := [LowByte(|name|)];
      assert EncodeAddress(Domain(name))[1..] == len + name;
      Associate(len, name, rest);
      ReadFront(c, len, name + rest);
      ReadFront(c.(input := name + rest), name, rest);
  }

  lemma AddressNotEmpty(a: Address)
    requires GoodAddress(a)
    ensures EncodeAddress(a) != []
  {
  }

  lemma ReplyComplete(c: Chan, a: Address, port: bytes, rest: bytes)
    requires GoodAddress(a) && |port| == 2 && c.input == EncodeReply(a, port) + rest
    ensures ReadReply(c) == Done(NoErr, c.(input := rest))
  {
    hide SkipAddress, Read, IoLimit, EncodeAddress, GoodAddress;
    var e := EncodeAddress(a);
    AddressNotEmpty(a);
    var head := [5, 0, 0, e[0]];
    assert e == [e[0]] + e[1..];
    assert c.input == head + (e[1..] + (port + rest));
    ReadFront(c, head, e[1..] + (port + rest));
    SkipAddressComplete(c.(input := e[1..] + (port + rest)), a, port + rest);
    ReadFront(c.(input := port + rest), port, rest);
  }

  lemma ReadTakes(c: Chan, n: nat)
    requires Read(c, n).err == NoErr
    ensures var r := Read(c, n);
      |r.data| == n && c.input == r.data + r.chan.input && r.chan == c.(input := r.chan.input)
  {
  }

  lemma SkipAddressSound(c: Chan, kind: byte) returns (a: Address)
    requires SkipAddress(c, kind).err == NoErr
    ensures GoodAddress(a)
    ensures [kind] + c.input == EncodeAddress(a) + SkipAddress(c, kind).chan.input
  {
    hide Read, IoLimit;
    var rest := SkipAddress(c, kind).chan.input;
    if kind == 3 {
      a := SkipDomainSound(c);
    } else {
      var n := if kind == 1 then 4 else 16;
      ReadTakes(c, n);
      a := if kind == 1 then V4(Read(c, n).data) else V6(Read(c, n).data);
      Associate([kind], Read(c, n).data, rest);
    }
  }

  lemma SkipDomainSound(c: Chan) returns (a: Address)
    requires SkipAddress(c, 3).err == NoErr
    ensures GoodAddress(a)
    ensures [3] + c.input == EncodeAddress(a) + SkipAddress(c, 3).chan.input
  {
    var name, rest := DomainOnStream(c);
    a := Domain(name);
    Associate([LowByte(|name|)], name, rest);
    Associate([3], [LowByte(|name|)] + name, rest);
  }

  lemma DomainOnStream(c: Chan) returns (name: bytes, rest: bytes)
    requires SkipAddress(c, 3).err == NoErr
    ensures |name| <= 255 && rest == SkipAddress(c, 3).chan.input
    ensures c.input == [LowByte(|name|)] + (name + rest)
  {
    hide Read, IoLimit, LowByte;
    var r := Read(c, 1);
    ReadTakes(c, 1);
    var n := r.data[0] as int;
    ReadTakes(r.chan, n);
    name, rest := Read(r.chan, n).data, SkipAddress(c, 3).chan.input;
    LowByteOf(r.data[0]);
    assert r.data == [r.data[0]];
  }

  lemma ReplySound(c: Chan) returns (a: Address, port: bytes)
    requires ReadReply(c).err == NoErr
    ensures GoodAddress(a) && |port| == 2
    ensures c.input == EncodeReply(a, port) + ReadReply(c).chan.input
  {
    hide SkipAddress, Read, IoLimit, EncodeAddress;
    var r := Read(c, 4);
    ReadTakes(c, 4);
    a := SkipAddressSound(r.chan, r.data[3]);
    var s := SkipAddress(r.chan, r.data[3]).chan;
    ReadTakes(s, 2);
    port := Read(s, 2).data;
    var rest := ReadReply(c).chan.input;
    assert r.data == [5, 0, 0] + [r.data[3]];
    assert s.input == port + rest;
    assert c.input == [5, 0, 0] + ([r.data[3]] + r.chan.input);
    assert EncodeAddress(a) + (port + rest) == (EncodeAddress(a) + port) + rest;
  }

  /** Everything the client sends to the proxy. */
  function Sent(hostname: bytes, port: nat): bytes {
    AuthRequest() + ConnectRequest(hostname, port)
  }

  /** Everything the proxy sends before the tunnelled bytes. */
  function Granted(a: Address, port: bytes): bytes
    requires GoodAddress(a) && |port| == 2
  {
    [5, 0] + EncodeReply(a, port)
  }

  /** A proxy that grants the connection leaves the client on the first tunnelled
      byte, having been sent the request and nothing else. */
  lemma ExchangeComplete(c: Chan, hostname: bytes, port: bytes, a: Address, bound: bytes, rest: bytes)
    requires |hostname| <= 255 && PortNumber(port).Ok?
    requires |Sent(hostname, PortNumber(port).value)| <= c.room
    requires GoodAddress(a) && |bound| == 2 && c.input == Granted(a, bound) + rest
    ensures var sent := Sent(hostname, PortNumber(port).value);
      Exchange(c, hostname, port) == Done(NoErr, c.(input := rest, room := c.room - |sent|, sent := c.sent + sent))
  {
    hide ReadReply, EncodeReply, Read, PortNumber, IoLimit;
    var reply := EncodeReply(a, bound);
    Associate([5, 0], reply, rest);
    var w := Write(c, AuthRequest());
    assert w.err == NoErr;
    ReadFront(w.chan, [5, 0], reply + rest);
    var c1 := Authenticate(c).chan;
    var w1 := Write(c1, ConnectRequest(hostname, PortNumber(port).value));
    assert w1.err == NoErr;
    Associate(c.sent, AuthRequest(), ConnectRequest(hostname, PortNumber(port).value));
    ReplyComplete(w1.chan, a, bound, rest);
  }

  lemma AuthenticateSound(c: Chan)
    requires Authenticate(c).err == NoErr
    ensures var c' := Authenticate(c).chan;
      && |AuthRequest()| <= c.room
      && c.input == [5, 0] + c'.input
      && c' == c.(input := c'.input, room := c.room - |AuthRequest()|, sent := c.sent + AuthRequest())
  {
  }

  /** Exactly when the exchange succeeds. */
  lemma ExchangeExact(c: Chan, hostname: bytes, port: bytes)
    ensures Exchange(c, hostname, port).err == NoErr <==>
      && |hostname| <= 255 && PortNumber(port).Ok?
      && |Sent(hostname, PortNumber(port).value)| <= c.room
      && exists a, bound :: GoodAddress(a) && |bound| == 2 && Granted(a, bound) <= c.input
  {
    hide ReadReply, EncodeReply, PortNumber, IoLimit, Read, GoodAddress;
    if Exchange(c, hostname, port).err == NoErr {
      AuthenticateSound(c);
      var c1 := Authenticate(c).chan;
      var w := Write(c1, ConnectRequest(hostname, PortNumber(port).value));
      assert w.chan.input == c1.input;
      var a, bound := ReplySound(w.chan);
      Associate([5, 0], EncodeReply(a, bound), ReadReply(w.chan).chan.input);
      assert Granted(a, bound) <= c.input;
    }
    forall a, bound | |hostname| <= 255 && PortNumber(port).Ok? && |Sent(hostname, PortNumber(port).value)| <= c.room
                   && GoodAddress(a) && |bound| == 2 && Granted(a, bound) <= c.input
      ensures Exchange(c, hostname, port).err == NoErr
    {
      ExchangeComplete(c, hostname, port, a, bound, c.input[|Granted(a, bound)|..]);
    }
  }
}

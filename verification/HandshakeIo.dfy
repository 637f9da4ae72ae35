/** The opening handshake over a connection. */
module HandshakeIo {
  import opened Bytes
  import opened Netx
  import opened Handshake

  method WsSendln(conn: Conn, line: bytes) returns (err: Err)
    requires |line| + 2 <= SIZE_MAX
    modifies conn`tx, conn`sent
    ensures var out := SendLine(old(conn.View()), line);
      err == out.err && conn.View() == out.chan
  {
    err := conn.Sendn(line + [CR, LF]);
  }

  /** Receives a line of fewer than `maxlen` bytes, leaving out CR and LF. */
  method WsRecvln(conn: Conn, maxlen: nat) returns (err: Err, line: bytes)
    modifies conn`rx
    ensures var out := RecvLine(old(conn.View()), maxlen);
      err == out.err && line == out.line && conn.View() == out.chan
  {
    hide conn.View;
    line := [];
    if maxlen == 0 {
      return InvalidArgument, line;
    }
    while |line| < maxlen
      invariant LineRest(conn.View(), line, maxlen) == RecvLine(old(conn.View()), maxlen)
      decreases |conn.View().input|
    {
      var ch;
      err, ch := conn.RecvBytes(1);
      if err != NoErr {
        return;
      }
      if ch[0] == CR {
        continue;
      }
      if ch[0] == LF {
        return;
      }
      line := line + [ch[0]];
    }
    err := ValueTooLarge;
  }

  /** Sends the upgrade request and checks the response. */
  method WsHandshake(conn: Conn, hostname: bytes, port: bytes, required: set<Flag>, proto: bytes, path: bytes)
        returns (err: Err)
    requires |hostname| + |port| + |proto| + |path| <= SIZE_MAX - 100
    modifies conn`rx, conn`tx, conn`sent
    ensures var out := Shake(old(conn.View()), hostname, port, required, proto, path);
      err == out.err && conn.View() == out.chan
  {
    hide RequestLines, Arriving, InFault, Capacity, OutFault, SendLines, ReadResponse;
    RequestLinesShort(hostname, port, conn.tls, proto, path);
    err := SendRequest(conn, RequestLines(hostname, port, conn.tls, proto, path));
    if err != NoErr {
      return;
    }
    err := CheckResponse(conn, proto, required);
  }

  method CheckResponse(conn: Conn, proto: bytes, required: set<Flag>) returns (err: Err)
    modifies conn`rx
    ensures var out := ReadResponse(old(conn.View()), proto, required);
      err == out.err && conn.View() == out.chan
  {
    hide conn.View, RecvLine, Ascii, ProtocolLine;
    var line;
    err, line := WsRecvln(conn, MAX_LINE);
    if err != NoErr {
      return;
    }
    if line != STATUS_LINE {
      return WsProto;
    }
    var flags := {};
    for i := 0 to MAX_HEADERS
      invariant ReadHeaders(conn.View(), proto, required, flags, MAX_HEADERS - i)
             == ReadResponse(old(conn.View()), proto, required)
    {
      err, line := WsRecvln(conn, MAX_LINE);
      if err != NoErr {
        return;
      }
      ghost var seen := flags;
      if line == UPGRADE_LINE {
        flags := flags + {UpgradeWebsocket};
      } else if line == CONNECTION_LINE {
        flags := flags + {ConnectionUpgrade};
      } else if line == ACCEPT_LINE {
        flags := flags + {SecAccept};
      } else if line == ProtocolLine(proto) {
        flags := flags + {SecProtocol};
      } else if line == [] {
        return if required <= flags then NoErr else WsProto;
      }
      BlankLineSetsNothing(proto);
      assert flags == seen + FlagOf(line, proto);
    }
    err := ValueTooLarge;
  }

  method SendRequest(conn: Conn, lines: seq<bytes>) returns (err: Err)
    requires forall line :: line in lines ==> |line| + 2 <= SIZE_MAX
    modifies conn`tx, conn`sent
    ensures var out := SendLines(old(conn.View()), lines);
      err == out.err && conn.View() == out.chan
  {
    for i := 0 to |lines|
      invariant SendLines(conn.View(), lines[i..]) == SendLines(old(conn.View()), lines)
    {
      err := WsSendln(conn, lines[i]);
      if err != NoErr {
        return;
      }
      assert lines[i..][1..] == lines[i + 1..];
    }
    err := NoErr;
  }
}

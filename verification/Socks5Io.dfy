/** The SOCKS5 exchange over a connection to the proxy. */
module Socks5Io {
  import opened Bytes
  import opened Netx
  import opened Strtonum
  import opened Socks5

  /** Asks the proxy to connect to `hostname`, after negotiating that no
      authentication is needed. */
  method Negotiate(conn: Conn, errno: Errno, hostname: bytes, port: bytes) returns (err: Err)
    modifies conn`rx, conn`tx, conn`sent, errno
    ensures var out := Exchange(old(conn.View()), hostname, port);
      err == out.err && conn.View() == out.chan
  {
    hide Judge, Arriving, InFault, Capacity, OutFault, Read, Write, conn.View;
    err := conn.Sendn([5, 1, 0]);
    if err != NoErr {
      return;
    }
    var response;
    err, response := conn.RecvBytes(2);
    if err != NoErr {
      return;
    }
    if response[0] != 5 {
      return Err.Socks5h;
    }
    if response[1] != 0 {
      return Err.Socks5h;
    }
    if |hostname| > 255 {
      return InvalidArgument;
    }
    var number, verdict := errno.Convert(port, 0, MAX_PORT);
    if !verdict.Ok? {
      return InvalidArgument;
    }
    err := conn.Sendn([5, 1, 0, 3, LowByte(|hostname|)] + hostname + BigEndian(number, 2));
    if err != NoErr {
      return;
    }
    err := RecvReply(conn);
  }

  method RecvReply(conn: Conn) returns (err: Err)
    modifies conn`rx
    ensures var out := ReadReply(old(conn.View()));
      err == out.err && conn.View() == out.chan
  {
    hide Read, conn.View;
    var hdr;
    err, hdr := conn.RecvBytes(4);
    if err != NoErr {
      return;
    }
    if hdr[0] != 5 {
      return Err.Socks5h;
    }
    if hdr[1] != 0 {
      return IoError;
    }
    if hdr[2] != 0 {
      return Err.Socks5h;
    }
    var buf;
    match hdr[3] {
      case 1 =>
        err, buf := conn.RecvBytes(4);
      case 3 =>
        err, buf := conn.RecvBytes(1);
        if err != NoErr {
          return;
        }
        err, buf := conn.RecvBytes(buf[0] as int);
      case 4 =>
        err, buf := conn.RecvBytes(16);
      case _ =>
        return Err.Socks5h;
    }
    if err != NoErr {
      return;
    }
    err, buf := conn.RecvBytes(2);
  }
}

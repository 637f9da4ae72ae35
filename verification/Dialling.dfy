/** The client's socket, its TLS objects, and the layers of dialling. */
module Dialling {
  import opened Bytes
  import opened Netx
  import opened Handshake
  import opened HandshakeIo
  import opened Ownership
  import Socks5Io
  import Strtonum

  class Client {
    var sock: int
    var fdToSsl: map<int, nat>
    var tls: bool
    var websocket: bool
    var nextSsl: nat
    ghost var open: set<int>
    ghost var trail: seq<Event>
    const conn: Conn
    const errno: Strtonum.Errno

    constructor (tls: bool, conn: Conn, errno: Strtonum.Errno)
      ensures Own() == NewClient(tls)
      ensures this.conn == conn && this.errno == errno
    {
      sock, fdToSsl, nextSsl := NONE, map[], 0;
      this.tls, websocket := tls, false;
      open, trail := {}, [];
      this.conn, this.errno := conn, errno;
    }

    ghost function Own(): Own
      reads this
    {
      Ownership.Own(sock, fdToSsl, tls, websocket, open, nextSsl, trail)
    }

    /** The system's `close()`: whatever it reports, the descriptor is gone. */
    ghost method Closesocket(fd: int)
      modifies this`open, this`trail
      ensures Own() == CloseFd(old(Own()), fd)
    {
      open, trail := open - {fd}, trail + [Closed(fd)];
    }

    /** `closing` is what the system's `close()` reports. */
    method NetxClosesocket(fd: int, closing: Err) returns (err: Err)
      modifies this`fdToSsl, this`open, this`trail
      ensures Own() == CloseSocket(old(Own()), fd)
      ensures err == if tls && fd !in old(fdToSsl) then InvalidArgument else closing
    {
      if tls {
        if fd !in fdToSsl {
          return InvalidArgument;
        }
        trail := trail + [Freed(fd, fdToSsl[fd])];
        fdToSsl := fdToSsl - {fd};
      }
      Closesocket(fd);
      err := closing;
    }

    /** Closing without a look at the outcome. */
    method Discard()
      modifies this`fdToSsl, this`open, this`trail
      ensures Own() == CloseSocket(old(Own()), sock)
    {
      var closing: Err := *;
      var _ := NetxClosesocket(sock, closing);
    }

    /** Connects `sock` to the first candidate that answers. */
    method NetxDial(r: Resolution) returns (err: Err, peer: Peer)
      modifies this`sock, this`open, this`trail
      ensures Dialled(err, Own(), peer) == DialTcp(old(Own()), r)
    {
      peer := NOBODY;
      if sock != NONE {
        return InvalidArgument, peer;
      }
      if r.Unresolved? {
        return r.err, peer;
      }
      var ls := r.lookups;
      for i := 0 to |ls|
        invariant peer == NOBODY
        invariant TryLookups(Own(), ls[i..]) == TryLookups(old(Own()), ls)
      {
        assert ls[i..][0] == ls[i] && ls[i..][1..] == ls[i + 1..];
        match ls[i] {
          case LookupFailed(e) =>
            return e, peer;
          case Found(cs) =>
            err, peer := DialAny(cs);
            if err == NoErr {
              return;
            }
            peer := NOBODY;
        }
      }
      err := IoError;
    }

    method DialAny(cs: seq<Candidate>) returns (err: Err, peer: Peer)
      modifies this`sock, this`open, this`trail
      ensures Dialled(err, Own(), peer) == TryCandidates(old(Own()), cs)
    {
      for i := 0 to |cs|
        invariant TryCandidates(Own(), cs[i..]) == TryCandidates(old(Own()), cs)
      {
        assert cs[i..][0] == cs[i] && cs[i..][1..] == cs[i + 1..];
        sock := if cs[i].fd < 0 then NONE else cs[i].fd;
        if sock < 0 {
          continue;
        }
        open, trail := open + {sock}, trail + [Opened(sock)];
        if cs[i].nonblocking != NoErr {
          Closesocket(sock);
          sock := NONE;
          continue;
        }
        match cs[i].connect {
          case Immediate =>
            return NoErr, cs[i].peer;
          case InProgress(wait, optionRead, optionError) =>
            if wait == NoErr {
              if optionRead {
                if optionError == 0 {
                  return NoErr, cs[i].peer;
                }
              }
            }
          case Refused =>
        }
        Closesocket(sock);
        sock := NONE;
      }
      return IoError, NOBODY;
    }

    /** From here on the connection is a new one. */
    method Attach(rx: seq<RxEvent>, tx: seq<TxEvent>, overTls: bool)
      modifies conn`rx, conn`tx, conn`sent, conn`tls
      ensures conn.View() == Plug(old(conn.View()), rx, tx, overTls)
    {
      conn.rx, conn.tx, conn.sent, conn.tls := rx, tx, [], overTls;
    }

    method NetxMaybeSocks5hDial(t: Target, r: Resolution)
          returns (err: Err, ghost peer: Peer, tlsRx: seq<RxEvent>, tlsTx: seq<TxEvent>)
      modifies this`sock, this`fdToSsl, this`open, this`trail, conn, errno
      ensures Layered(err, Own(), conn.View(), peer) == DialSocks(old(Own()), old(conn.View()), t, r)
      ensures tlsRx == peer.tlsRx && tlsTx == peer.tlsTx
    {
      hide conn.View, Plug, DialTcp;
      var p;
      err, p := NetxDial(r);
      peer, tlsRx, tlsTx := p, p.tlsRx, p.tlsTx;
      if err != NoErr {
        return;
      }
      Attach(p.rx, p.tx, false);
      if t.proxyPort == [] {
        return;
      }
      err := Socks5Io.Negotiate(conn, errno, t.host, t.port);
      if err != NoErr {
        Discard();
        sock := NONE;
      }
    }

    /** Sets up TLS on the connected socket; `rx` and `tx` are what the peer does then. */
    method StartTls(outcome: Tls, rx: seq<RxEvent>, tx: seq<TxEvent>, ghost peer: Peer) returns (err: Err)
      requires rx == peer.tlsRx && tx == peer.tlsTx
      modifies this, conn
      ensures Connection(err, Own(), conn.View()) == Ownership.StartTls(old(Own()), old(conn.View()), peer, outcome)
    {
      hide conn.View, Plug, CloseSocket;
      if outcome == NoBundle {
        return InvalidArgument;
      }
      if outcome == NoContext || outcome == BundleUnreadable || outcome == NoSsl {
        Discard();
        return SslGeneric;
      }
      fdToSsl := fdToSsl[sock := nextSsl];
      trail := trail + [Installed(sock, nextSsl)];
      nextSsl := nextSsl + 1;
      if outcome != Shaken(NoErr) {
        Discard();
        return SslGeneric;
      }
      Attach(rx, tx, true);
      err := NoErr;
    }

    method NetxMaybeSslDial(t: Target, a: Attempt) returns (err: Err)
      modifies this, conn, errno
      ensures Connection(err, Own(), conn.View()) == DialTls(old(Own()), old(conn.View()), t, a)
    {
      hide conn.View, Ownership.StartTls, DialSocks;
      var flags := tls;
      tls := false;
      ghost var peer;
      var rx, tx;
      err, peer, rx, tx := NetxMaybeSocks5hDial(t, a.resolution);
      tls := flags;
      if err != NoErr {
        return;
      }
      if !tls {
        return;
      }
      err := StartTls(a.tls, rx, tx, peer);
    }

    method NetxMaybeWsDial(t: Target, a: Attempt) returns (err: Err)
      requires |t.hostHeader| + |t.port| + |t.path| <= SIZE_MAX - 200
      modifies this, conn, errno
      ensures Connection(err, Own(), conn.View()) == DialWs(old(Own()), old(conn.View()), t, a)
    {
      hide conn.View, DialTls, CloseSocket, Shake, Ascii;
      assert |PROTOCOL| == 25;
      err := NetxMaybeSslDial(t, a);
      if err != NoErr {
        return;
      }
      if !websocket {
        return;
      }
      err := WsHandshake(conn, t.hostHeader, t.port, REQUIRED, PROTOCOL, t.path);
      if err != NoErr {
        Discard();
        sock := NONE;
      }
    }

    method Ndt7Connect(t: Target, a: Attempt) returns (err: Err)
      requires |t.hostHeader| + |t.port| + |t.path| <= SIZE_MAX - 200
      modifies this, conn, errno
      ensures Connection(err, Own(), conn.View()) == Connect(old(Own()), old(conn.View()), t, a)
    {
      hide conn.View, DialWs, CloseSocket;
      if sock >= 0 {
        Discard();
        sock := NONE;
      }
      websocket := true;
      err := NetxMaybeWsDial(t, a);
    }

    /** What the destructor does. */
    method Finish()
      modifies this
      ensures Own() == Destroy(old(Own()))
    {
      if sock != NONE {
        Discard();
      }
    }
  }
}

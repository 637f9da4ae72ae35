/**
  Exactly when the client gets a WebSocket connection, in terms of what the peers
  behind the candidate addresses do, and what is then still to come on it.
 */
module Connecting {
  import opened Bytes
  import opened Netx
  import opened Handshake
  import opened Ownership
  import Socks5

  /** The proxy, if there is one, opens the tunnel, and `c'` is the connection on
      the first tunnelled byte. */
  ghost predicate Tunnels(c: Chan, t: Target, c': Chan) {
    if t.proxyPort == [] then c' == c
    else
      && |t.host| <= 255 && Socks5.PortNumber(t.port).Ok?
      && var sent := Socks5.Sent(t.host, Socks5.PortNumber(t.port).value);
      && |sent| <= c.room
      && c' == c.(input := c'.input, room := c.room - |sent|, sent := c.sent + sent)
      && exists a, bound :: GrantedBefore(c.input, a, bound, c'.input)
  }

  ghost predicate GrantedBefore(s: bytes, a: Socks5.Address, bound: bytes, rest: bytes) {
    Socks5.GoodAddress(a) && |bound| == 2 && s == Socks5.Granted(a, bound) + rest
  }

  /** The connection with TLS on top, or as it is. */
  function Secured(c: Chan, peer: Peer, tls: bool): Chan {
    if tls then Plug(c, peer.tlsRx, peer.tlsTx, true) else c
  }

  /** The server accepts the upgrade, and `c'` is the connection on the first byte
      of the first frame. */
  ghost predicate Upgrades(c: Chan, t: Target, c': Chan) {
    var request := Request(t.hostHeader, t.port, c.tls, PROTOCOL, t.path);
    && |request| <= c.room
    && c' == Upgraded(c, request, c'.input)
    && exists raws :: RespondedBefore(c.input, raws, c'.input)
  }

  ghost predicate RespondedBefore(s: bytes, raws: seq<bytes>, rest: bytes) {
    IsResponse(raws, PROTOCOL, REQUIRED) && s == Raw(raws) + rest
  }

  /** The first candidate that connects leads to `c'`: through the proxy, if there
      is one, the TLS handshake, if TLS is enabled, and the upgrade. */
  ghost predicate Reaches(c: Chan, tls: bool, t: Target, a: Attempt, c': Chan) {
    var choice := FirstUp(Candidates(a.resolution));
    && choice.Chosen?
    && (tls ==> a.tls == Shaken(NoErr))
    && exists tunnel :: Leads(c, tls, t, choice.candidate.peer, tunnel, c')
  }

  ghost predicate Leads(c: Chan, tls: bool, t: Target, peer: Peer, tunnel: Chan, c': Chan) {
    Tunnels(Plug(c, peer.rx, peer.tx, false), t, tunnel) && Upgrades(Secured(tunnel, peer, tls), t, c')
  }

  /** The request is short enough for every line to be a single write. */
  predicate RequestFits(t: Target) {
    |t.hostHeader| + |t.port| + |PROTOCOL| + |t.path| + 100 <= 0x7FFF_FFFF
  }

  // ----- layer by layer -----

  lemma TunnelExact(c: Chan, t: Target)
    requires t.proxyPort != []
    ensures var s := Socks5.Exchange(c, t.host, t.port);
      && (s.err == NoErr ==> Tunnels(c, t, s.chan))
      && (forall c' :: Tunnels(c, t, c') ==> s == Socks5.Done(NoErr, c'))
  {
    hide Socks5.Exchange, Socks5.Granted, Socks5.GoodAddress, Socks5.PortNumber, Socks5.Sent;
    Socks5.ExchangeExact(c, t.host, t.port);
    var s := Socks5.Exchange(c, t.host, t.port);
    if s.err == NoErr {
      var a, bound :| Socks5.GoodAddress(a) && |bound| == 2 && Socks5.Granted(a, bound) <= c.input;
      var rest := c.input[|Socks5.Granted(a, bound)|..];
      Socks5.ExchangeComplete(c, t.host, t.port, a, bound, rest);
      assert GrantedBefore(c.input, a, bound, rest);
    }
    forall c' | Tunnels(c, t, c')
      ensures s == Socks5.Done(NoErr, c')
    {
      var a, bound :| GrantedBefore(c.input, a, bound, c'.input);
      Socks5.ExchangeComplete(c, t.host, t.port, a, bound, c'.input);
    }
  }

  lemma UpgradeExact(c: Chan, t: Target)
    requires RequestFits(t)
    ensures var s := Shake(c, t.hostHeader, t.port, REQUIRED, PROTOCOL, t.path);
      && (s.err == NoErr ==> Upgrades(c, t, s.chan))
      && (forall c' :: Upgrades(c, t, c') ==> s == Done(NoErr, c'))
  {
    hide Shake, Request, IsResponse, Raw, Ascii;
    ShakeExact(c, t.hostHeader, t.port, REQUIRED, PROTOCOL, t.path);
    var s := Shake(c, t.hostHeader, t.port, REQUIRED, PROTOCOL, t.path);
    if s.err == NoErr {
      var raws :| IsResponse(raws, PROTOCOL, REQUIRED) && Raw(raws) <= c.input;
      var rest := c.input[|Raw(raws)|..];
      ShakeLeaves(c, t.hostHeader, t.port, REQUIRED, PROTOCOL, t.path, raws, rest);
      assert RespondedBefore(c.input, raws, rest);
    }
    forall c' | Upgrades(c, t, c')
      ensures s == Done(NoErr, c')
    {
      var raws :| RespondedBefore(c.input, raws, c'.input);
      ShakeLeaves(c, t.hostHeader, t.port, REQUIRED, PROTOCOL, t.path, raws, c'.input);
    }
  }

  ghost predicate TunnelsTo(c: Chan, t: Target, peer: Peer, l: Layered) {
    l.err == NoErr && l.peer == peer && Tunnels(Plug(c, peer.rx, peer.tx, false), t, l.chan)
  }

  /** The layers up to the proxy. */
  lemma DialSocksExact(o: Own, c: Chan, t: Target, r: Resolution)
    requires Idle(o) && !o.tls && Fresh(Candidates(r), o.open)
    ensures var choice, l := FirstUp(Candidates(r)), DialSocks(o, c, t, r);
      && (l.err == NoErr ==> choice.Chosen? && TunnelsTo(c, t, choice.candidate.peer, l))
      && (choice.Chosen? ==>
            forall c' :: Tunnels(Plug(c, choice.candidate.peer.rx, choice.candidate.peer.tx, false), t, c') ==>
              TunnelsTo(c, t, choice.candidate.peer, l) && l.chan == c')
  {
    hide DialTcp, Plug, FirstUp, Candidates, Fresh, Socks5.Exchange, Audit, CloseSocket;
    DialTcpKeeps(o, r);
    var d := DialTcp(o, r);
    if d.err == NoErr {
      var c1 := Plug(c, d.peer.rx, d.peer.tx, false);
      if t.proxyPort != [] {
        hide Tunnels;
        TunnelExact(c1, t);
      }
    }
  }

  /** All layers. */
  lemma DialExact(o: Own, c: Chan, t: Target, a: Attempt)
    requires Idle(o) && o.websocket && Fresh(Candidates(a.resolution), o.open) && RequestFits(t)
    ensures var n := DialWs(o, c, t, a);
      && (n.err == NoErr ==> Reaches(c, o.tls, t, a, n.chan))
      && (forall c' :: Reaches(c, o.tls, t, a, c') ==> n.err == NoErr && n.chan == c')
  {
    hide DialSocks, Plug, FirstUp, Candidates, Fresh, Shake, Audit, CloseSocket, Tunnels, Upgrades, Install,
          RequestFits, Ascii;
    DialSocksExact(o.(tls := false), c, t, a.resolution);
    DialTlsKeeps(o, c, t, a);
    var l, n := DialSocks(o.(tls := false), c, t, a.resolution), DialTls(o, c, t, a);
    UpgradeExact(n.chan, t);
    if DialWs(o, c, t, a).err == NoErr {
      assert n.chan == Secured(l.chan, l.peer, o.tls);
      assert Leads(c, o.tls, t, l.peer, l.chan, DialWs(o, c, t, a).chan);
    }
    forall c' | Reaches(c, o.tls, t, a, c')
      ensures DialWs(o, c, t, a).err == NoErr && DialWs(o, c, t, a).chan == c'
    {
      var peer := FirstUp(Candidates(a.resolution)).candidate.peer;
      var tunnel :| Leads(c, o.tls, t, peer, tunnel, c');
      assert l.err == NoErr && l.chan == tunnel && l.peer == peer;
      assert n.err == NoErr && n.chan == Secured(tunnel, peer, o.tls);
    }
  }

  /** Exactly when `ndt7_connect` succeeds, whatever an earlier attempt has left
      behind, and what the connection is then: what the peer had still to send
      behind its greetings, and what it has been sent. */
  lemma ConnectExact(o: Own, c: Chan, t: Target, a: Attempt)
    requires Inv(o) && Fresh(Candidates(a.resolution), Lost(o)) && RequestFits(t)
    ensures Connect(o, c, t, a).err == NoErr <==> exists c' :: Reaches(c, o.tls, t, a, c')
    ensures forall c' :: Reaches(c, o.tls, t, a, c') ==> Connect(o, c, t, a).chan == c'
  {
    hide DialWs, Reaches, Candidates, Fresh, Audit, CloseSocket, RequestFits;
    ResetKeeps(o);
    DialExact(Reset(o), c, t, a);
    assert Connect(o, c, t, a) == DialWs(Reset(o), c, t, a);
  }
}

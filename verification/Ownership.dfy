/**
  Who owns which socket and which TLS object, from dialling to the destructor.

  `Own` is the part of the client that matters for this, together with the
  descriptors that are open and a ledger of everything that has been opened,
  closed, installed and freed. What the operating system, the resolver and the
  TLS library answer is an input to each attempt to connect.
 */
module Ownership {
  import opened Bytes
  import opened Netx
  import opened Handshake
  import Socks5

  const NONE: int := -1

  // ----- what an attempt to connect meets -----

  /** What the peer does on a connection, before and after a TLS handshake. */
  datatype Peer = Peer(rx: seq<RxEvent>, tx: seq<TxEvent>, tlsRx: seq<RxEvent>, tlsTx: seq<TxEvent>)

  datatype Connecting =
    | Immediate
    | InProgress(wait: Err, optionRead: bool, optionError: int)
    | Refused

  /** One address: the descriptor that `socket()` returns, or NONE, and how
      connecting goes. */
  datatype Candidate = Candidate(fd: int, nonblocking: Err, connect: Connecting, peer: Peer)

  datatype Lookup =
    | LookupFailed(err: Fault)
    | Found(candidates: seq<Candidate>)

  datatype Resolution =
    | Unresolved(err: Fault)
    | Addresses(lookups: seq<Lookup>)

  /** Where setting up TLS gets to. */
  datatype Tls =
    | NoBundle
    | NoContext
    | BundleUnreadable
    | NoSsl
    | NoBio
    | HostRejected
    | Shaken(err: Err)

  datatype Attempt = Attempt(resolution: Resolution, tls: Tls)

  predicate Connects(c: Candidate) {
    && c.fd >= 0
    && c.nonblocking == NoErr
    && match c.connect
       case Immediate => true
       case InProgress(wait, optionRead, optionError) => wait == NoErr && optionRead && optionError == 0
       case Refused => false
  }

  // ----- the ledger -----

  datatype Event =
    | Opened(fd: int)
    | Closed(fd: int)
    | Installed(fd: int, ssl: nat)
    | Freed(fd: int, ssl: nat)

  datatype Ledger =
    | Books(open: set<int>, ssl: map<int, nat>, used: set<nat>)
    | Wrong

  /** One more entry. It is wrong to open what is open, to close what is not or
      what still carries a TLS object, to install a TLS object twice or where
      there is one, and to free one that is not installed. */
  function Enter(l: Ledger, e: Event): Ledger {
    if l.Wrong? then Wrong
    else match e
      case Opened(fd) => if fd in l.open then Wrong else l.(open := l.open + {fd})
      case Closed(fd) => if fd !in l.open || fd in l.ssl then Wrong else l.(open := l.open - {fd})
      case Installed(fd, ssl) =>
        if fd !in l.open || fd in l.ssl || ssl in l.used then Wrong
        else l.(ssl := l.ssl[fd := ssl], used := l.used + {ssl})
      case Freed(fd, ssl) =>
        if fd !in l.ssl || l.ssl[fd] != ssl then Wrong else l.(ssl := l.ssl - {fd})
  }

  function Audit(trail: seq<Event>): Ledger {
    if trail == [] then Books({}, map[], {}) else Enter(Audit(trail[..|trail| - 1]), trail[|trail| - 1])
  }

  function Count(trail: seq<Event>, e: Event): nat {
    if trail == [] then 0 else Count(trail[..|trail| - 1], e) + if trail[|trail| - 1] == e then 1 else 0
  }

  /** In a ledger without a wrong entry every opening of a descriptor is matched
      by one closing, except that of a descriptor still open, and every TLS
      object is installed at most once, and freed once unless still installed. */
  lemma {:induction false} AuditCounts(trail: seq<Event>, fd: int, ssl: nat)
    requires Audit(trail).Books?
    ensures var l := Audit(trail);
      && Count(trail, Opened(fd)) == Count(trail, Closed(fd)) + (if fd in l.open then 1 else 0)
      && Count(trail, Installed(fd, ssl))
         == Count(trail, Freed(fd, ssl)) + (if fd in l.ssl && l.ssl[fd] == ssl then 1 else 0)
      && Count(trail, Installed(fd, ssl)) <= 1
      && (Count(trail, Installed(fd, ssl)) == 1 ==> ssl in l.used)
  {
    if trail == [] {
    } else {
      AuditCounts(trail[..|trail| - 1], fd, ssl);
    }
  }

  /** How often a TLS object is installed, on whatever descriptor, and freed. */
  function Installs(trail: seq<Event>, ssl: nat): nat {
    if trail == [] then 0
    else
      var e := trail[|trail| - 1];
      Installs(trail[..|trail| - 1], ssl) + if e.Installed? && e.ssl == ssl then 1 else 0
  }

  function Frees(trail: seq<Event>, ssl: nat): nat {
    if trail == [] then 0
    else
      var e := trail[|trail| - 1];
      Frees(trail[..|trail| - 1], ssl) + if e.Freed? && e.ssl == ssl then 1 else 0
  }

  /** No TLS object is on two descriptors, and each has been used. */
  lemma {:induction false} AuditApart(trail: seq<Event>)
    requires Audit(trail).Books?
    ensures var l := Audit(trail);
      && (forall f, g :: f in l.ssl && g in l.ssl && l.ssl[f] == l.ssl[g] ==> f == g)
      && (forall f :: f in l.ssl ==> l.ssl[f] in l.used)
  {
    if trail == [] {
    } else {
      AuditApart(trail[..|trail| - 1]);
    }
  }

  /** In a ledger without a wrong entry every TLS object is installed at most once
      on all descriptors together, and freed once unless still installed. */
  lemma {:induction false} AuditObjects(trail: seq<Event>, ssl: nat)
    requires Audit(trail).Books?
    ensures var l := Audit(trail);
      && Installs(trail, ssl) == (if ssl in l.used then 1 else 0)
      && Installs(trail, ssl) == Frees(trail, ssl) + (if exists f :: f in l.ssl && l.ssl[f] == ssl then 1 else 0)
  {
    if trail == [] {
    } else {
      var before, e := trail[..|trail| - 1], trail[|trail| - 1];
      AuditObjects(before, ssl);
      AuditApart(before);
      var l, m := Audit(before), Audit(trail);
      assert m == Enter(l, e);
      if e.Installed? {
        assert m.ssl[e.fd] == e.ssl;
        assert forall f :: f in l.ssl ==> f in m.ssl && m.ssl[f] == l.ssl[f];
      } else if e.Freed? {
        assert forall f :: f in m.ssl <==> f in l.ssl && f != e.fd;
      }
    }
  }

  // ----- the state, and closing -----

  datatype Own = Own(
    sock: int,             // `sock_`
    ssl: map<int, nat>,    // `fd_to_ssl_`
    tls: bool,             // `protocol_flag_tls`
    websocket: bool,       // `protocol_flag_websocket`
    open: set<int>,        // descriptors that are open
    nextSsl: nat,          // names for TLS objects
    trail: seq<Event>)

  function OpenFd(o: Own, fd: int): Own {
    o.(sock := fd, open := o.open + {fd}, trail := o.trail + [Opened(fd)])
  }

  function CloseFd(o: Own, fd: int): Own {
    o.(open := o.open - {fd}, trail := o.trail + [Closed(fd)])
  }

  /** `netx_closesocket`: with TLS enabled, a descriptor without a TLS object is
      refused and stays as it is. */
  function CloseSocket(o: Own, fd: int): Own {
    if !o.tls then CloseFd(o, fd)
    else if fd !in o.ssl then o
    else CloseFd(o.(ssl := o.ssl - {fd}, trail := o.trail + [Freed(fd, o.ssl[fd])]), fd)
  }

  // ----- dialling -----

  datatype Dialled = Dialled(err: Err, own: Own, peer: Peer)

  const NOBODY: Peer := Peer([], [], [], [])

  function TryCandidates(o: Own, cs: seq<Candidate>): Dialled
    decreases |cs|
  {
    if cs == [] then Dialled(IoError, o, NOBODY)
    else if cs[0].fd < 0 then TryCandidates(o.(sock := NONE), cs[1..])
    else
      var o1 := OpenFd(o, cs[0].fd);
      if Connects(cs[0]) then Dialled(NoErr, o1, cs[0].peer)
      else TryCandidates(CloseFd(o1, cs[0].fd).(sock := NONE), cs[1..])
  }

  function TryLookups(o: Own, ls: seq<Lookup>): Dialled
    decreases |ls|
  {
    if ls == [] then Dialled(IoError, o, NOBODY)
    else match ls[0]
      case LookupFailed(err) => Dialled(err, o, NOBODY)
      case Found(cs) =>
        var d := TryCandidates(o, cs);
        if d.err == NoErr then d else TryLookups(d.own, ls[1..])
  }

  function DialTcp(o: Own, r: Resolution): Dialled {
    if o.sock != NONE then Dialled(InvalidArgument, o, NOBODY)
    else match r
      case Unresolved(err) => Dialled(err, o, NOBODY)
      case Addresses(ls) => TryLookups(o, ls)
  }

  // ----- the layers above TCP -----

  datatype Connection = Connection(err: Err, own: Own, chan: Chan)

  /** A fresh connection: nothing sent on it yet; masking keys are drawn on. */
  function Plug(c: Chan, rx: seq<RxEvent>, tx: seq<TxEvent>, tls: bool): Chan {
    c.(input := Arriving(rx), inFault := InFault(rx), room := Capacity(tx), outFault := OutFault(tx),
       sent := [], tls := tls)
  }

  datatype Target = Target(host: bytes, port: bytes, path: bytes, hostHeader: bytes, proxyPort: bytes)

  const PROTOCOL: bytes := Ascii("net.measurementlab.ndt.v7")
  const REQUIRED: set<Flag> := {ConnectionUpgrade, UpgradeWebsocket, SecAccept, SecProtocol}

  datatype Layered = Layered(err: Err, own: Own, chan: Chan, peer: Peer)

  /** TCP, or SOCKS5 over TCP to a local proxy. */
  function DialSocks(o: Own, c: Chan, t: Target, r: Resolution): Layered {
    var d := DialTcp(o, r);
    if d.err != NoErr then Layered(d.err, d.own, c, d.peer)
    else
      var c1 := Plug(c, d.peer.rx, d.peer.tx, false);
      if t.proxyPort == [] then Layered(NoErr, d.own, c1, d.peer)
      else
        var s := Socks5.Exchange(c1, t.host, t.port);
        if s.err == NoErr then Layered(NoErr, d.own, s.chan, d.peer)
        else Layered(s.err, CloseSocket(d.own, d.own.sock).(sock := NONE), s.chan, d.peer)
  }

  /** Setting up TLS on a connected socket. */
  function StartTls(o: Own, c: Chan, peer: Peer, tls: Tls): Connection {
    if tls == NoBundle then Connection(InvalidArgument, o, c)
    else if tls == NoContext || tls == BundleUnreadable || tls == NoSsl then
      Connection(SslGeneric, CloseSocket(o, o.sock), c)
    else
      var o1 := Install(o);
      if tls == Shaken(NoErr) then Connection(NoErr, o1, Plug(c, peer.tlsRx, peer.tlsTx, true))
      else Connection(SslGeneric, CloseSocket(o1, o1.sock), c)
  }

  /** Putting TLS on top, if it is enabled; below it is not. */
  function DialTls(o: Own, c: Chan, t: Target, a: Attempt): Connection {
    var l := DialSocks(o.(tls := false), c, t, a.resolution);
    var o1 := l.own.(tls := o.tls);
    if l.err != NoErr || !o.tls then Connection(l.err, o1, l.chan) else StartTls(o1, l.chan, l.peer, a.tls)
  }

  function Install(o: Own): Own {
    o.(ssl := o.ssl[o.sock := o.nextSsl], nextSsl := o.nextSsl + 1, trail := o.trail + [Installed(o.sock, o.nextSsl)])
  }

  /** Putting WebSocket on top. */
  function DialWs(o: Own, c: Chan, t: Target, a: Attempt): Connection {
    var n := DialTls(o, c, t, a);
    if n.err != NoErr || !n.own.websocket then n
    else
      var s := Shake(n.chan, t.hostHeader, t.port, REQUIRED, PROTOCOL, t.path);
      if s.err == NoErr then Connection(NoErr, n.own, s.chan)
      else Connection(s.err, CloseSocket(n.own, n.own.sock).(sock := NONE), s.chan)
  }

  /** `ndt7_connect`. */
  function Connect(o: Own, c: Chan, t: Target, a: Attempt): Connection {
    var o1 := if o.sock >= 0 then CloseSocket(o, o.sock).(sock := NONE) else o;
    DialWs(o1.(websocket := true), c, t, a)
  }

  /** The destructor. */
  function Destroy(o: Own): Own {
    if o.sock != NONE then CloseSocket(o, o.sock) else o
  }

  // ----- what every operation keeps -----

  /** The ledger has no wrong entry and agrees with the fields. */
  ghost predicate Booked(o: Own) {
    var l := Audit(o.trail);
    && l.Books? && l.open == o.open && l.ssl == o.ssl && o.ssl.Keys <= o.open
    && forall i :: i in l.used ==> i < o.nextSsl
  }

  ghost predicate Inv(o: Own) {
    && Booked(o)
    && o.sock >= NONE
    && o.ssl.Keys <= {o.sock}
    && (o.sock == NONE ==> o.ssl == map[])
    && (!o.tls ==> o.ssl == map[] && (o.sock == NONE || o.sock in o.open))
  }

  /** The descriptors that the client will close in the end. */
  function Owned(o: Own): set<int> {
    if o.tls then o.ssl.Keys else if o.sock == NONE then {} else {o.sock}
  }

  /** The descriptors that nobody will ever close. */
  function Lost(o: Own): set<int> {
    o.open - Owned(o)
  }

  /** Between two connections. */
  ghost predicate Idle(o: Own) {
    Booked(o) && o.sock == NONE && o.ssl == map[]
  }

  /** Nothing has changed but for entries in the ledger that cancel out. */
  ghost predicate Unchanged(o: Own, o': Own) {
    o' == o.(trail := o'.trail) && Audit(o'.trail) == Audit(o.trail)
  }

  /** Closing leaves nothing owned, and loses nothing. */
  lemma CloseSocketKeeps(o: Own)
    requires Inv(o) && o.sock >= 0
    ensures var o' := CloseSocket(o, o.sock);
      && Idle(o'.(sock := NONE)) && Lost(o'.(sock := NONE)) == Lost(o)
      && (o.tls ==> Inv(o') && Owned(o') == {} && Lost(o') == Lost(o))
      && o'.tls == o.tls && o'.websocket == o.websocket && o'.sock == o.sock
  {
  }

  predicate Fresh(cs: seq<Candidate>, open: set<int>) {
    forall i :: 0 <= i < |cs| && cs[i].fd >= 0 ==> cs[i].fd !in open
  }

  datatype Choice = Nobody | Chosen(candidate: Candidate)

  /** The first candidate that connects. */
  function FirstUp(cs: seq<Candidate>): Choice {
    if cs == [] then Nobody else if Connects(cs[0]) then Chosen(cs[0]) else FirstUp(cs[1..])
  }

  lemma {:induction false} FirstUpIsFirst(cs: seq<Candidate>)
    ensures FirstUp(cs).Nobody? <==> forall i :: 0 <= i < |cs| ==> !Connects(cs[i])
    ensures FirstUp(cs).Chosen? ==>
      exists i :: 0 <= i < |cs| && FirstUp(cs) == Chosen(cs[i]) && Connects(cs[i])
                  && forall j :: 0 <= j < i ==> !Connects(cs[j])
  {
    hide Connects;
    if cs != [] && !Connects(cs[0]) {
      var tail := cs[1..];
      FirstUpIsFirst(tail);
      assert forall i :: 0 < i < |cs| ==> cs[i] == tail[i - 1];
      assert forall i :: 0 <= i < |tail| ==> tail[i] == cs[i + 1];
    }
  }

  lemma {:induction false} FirstUpJoined(cs: seq<Candidate>, ds: seq<Candidate>)
    ensures FirstUp(cs + ds) == if FirstUp(cs).Chosen? then FirstUp(cs) else FirstUp(ds)
  {
    hide Connects;
    if cs == [] {
      assert cs + ds == ds;
    } else {
      FirstUpJoined(cs[1..], ds);
      assert (cs + ds)[0] == cs[0] && (cs + ds)[1..] == cs[1..] + ds;
    }
  }

  /** The state after connecting to a candidate. */
  ghost predicate Holds(o: Own, o': Own, c: Candidate) {
    && o' == o.(sock := c.fd, open := o.open + {c.fd}, trail := o'.trail)
    && c.fd !in o.open && c.fd >= 0
    && Booked(o') && Audit(o'.trail) == Enter(Audit(o.trail), Opened(c.fd))
  }

  /** A candidate that does not connect leaves no trace but a closed descriptor. */
  lemma CandidateDropped(o: Own, c: Candidate)
    requires Idle(o) && c.fd >= 0 && c.fd !in o.open
    ensures var o1 := OpenFd(o, c.fd);
      && Holds(o, o1, c)
      && Unchanged(o, CloseFd(o1, c.fd).(sock := NONE))
  {
  }

  /** What dialling comes to: the chosen candidate and no other holds an open
      descriptor; the descriptors of those before it are closed again. */
  ghost predicate Settled(o: Own, d: Dialled, choice: Choice) {
    match choice
    case Chosen(c) => d.err == NoErr && Holds(o, d.own, c) && d.peer == c.peer
    case Nobody => d.err != NoErr && Unchanged(o, d.own)
  }

  lemma {:induction false} TryCandidatesKeeps(o: Own, cs: seq<Candidate>)
    requires Idle(o) && Fresh(cs, o.open)
    ensures Settled(o, TryCandidates(o, cs), FirstUp(cs))
    decreases |cs|
  {
    hide Audit;
    if cs == [] {
    } else {
      var c, tail := cs[0], cs[1..];
      assert Fresh(tail, o.open);
      if c.fd >= 0 {
        CandidateDropped(o, c);
      }
      if !Connects(c) {
        var o' := if c.fd >= 0 then CloseFd(OpenFd(o, c.fd), c.fd).(sock := NONE) else o;
        TryCandidatesKeeps(o', tail);
      }
    }
  }

  /** The candidates that are tried, one lookup after the other, until a lookup
      fails. */
  function Offered(ls: seq<Lookup>): seq<Candidate> {
    if ls == [] || ls[0].LookupFailed? then [] else ls[0].candidates + Offered(ls[1..])
  }

  /** The error if none of them connects. */
  function LastError(ls: seq<Lookup>): Fault {
    if ls == [] then IoError else if ls[0].LookupFailed? then ls[0].err else LastError(ls[1..])
  }

  lemma {:induction false} TryLookupsKeeps(o: Own, ls: seq<Lookup>)
    requires Idle(o) && Fresh(Offered(ls), o.open)
    ensures Settled(o, TryLookups(o, ls), FirstUp(Offered(ls)))
    ensures FirstUp(Offered(ls)).Nobody? ==> TryLookups(o, ls).err == LastError(ls)
    decreases |ls|
  {
    hide Audit, TryCandidates, Connects;
    if ls != [] && ls[0].Found? {
      var cs, rest := ls[0].candidates, Offered(ls[1..]);
      FreshParts(cs, rest, o.open);
      FirstUpJoined(cs, rest);
      TryCandidatesKeeps(o, cs);
      if FirstUp(cs).Nobody? {
        TryLookupsKeeps(TryCandidates(o, cs).own, ls[1..]);
      }
    }
  }

  lemma FreshParts(cs: seq<Candidate>, ds: seq<Candidate>, open: set<int>)
    requires Fresh(cs + ds, open)
    ensures Fresh(cs, open) && Fresh(ds, open)
  {
    assert forall i :: 0 <= i < |cs| ==> cs[i] == (cs + ds)[i];
    assert forall i :: 0 <= i < |ds| ==> ds[i] == (cs + ds)[|cs| + i];
  }

  /** The candidates that a resolution offers. */
  function Candidates(r: Resolution): seq<Candidate> {
    match r
    case Unresolved(_) => []
    case Addresses(ls) => Offered(ls)
  }

  lemma DialTcpKeeps(o: Own, r: Resolution)
    requires Idle(o) && Fresh(Candidates(r), o.open)
    ensures Settled(o, DialTcp(o, r), FirstUp(Candidates(r)))
  {
    hide Audit, TryLookups;
    if r.Addresses? {
      TryLookupsKeeps(o, r.lookups);
    }
  }

  lemma ClosedAgain(o: Own, o1: Own, c: Candidate)
    requires Idle(o) && Holds(o, o1, c)
    ensures Unchanged(o, CloseFd(o1, c.fd).(sock := NONE))
  {
  }

  lemma DialSocksKeeps(o: Own, c: Chan, t: Target, r: Resolution)
    requires Idle(o) && !o.tls && Fresh(Candidates(r), o.open)
    ensures var l, choice := DialSocks(o, c, t, r), FirstUp(Candidates(r));
      && (l.err == NoErr ==> choice.Chosen? && Holds(o, l.own, choice.candidate) && l.peer == choice.candidate.peer)
      && (l.err != NoErr ==> Unchanged(o, l.own))
  {
    hide Audit, DialTcp, Socks5.Exchange, FirstUp, Candidates, Fresh, Connects;
    DialTcpKeeps(o, r);
    var d, choice := DialTcp(o, r), FirstUp(Candidates(r));
    if choice.Chosen? {
      ClosedAgain(o, d.own, choice.candidate);
    }
  }

  /** With TLS, an attempt that gets as far as a connected socket and then fails
      before its TLS object is installed. */
  predicate FailsEarly(tls: Tls) {
    tls == NoBundle || tls == NoContext || tls == BundleUnreadable || tls == NoSsl
  }

  /** The descriptors that an attempt from an idle state loses. */
  function LostBy(o: Own, c: Chan, t: Target, a: Attempt): set<int> {
    var l := DialSocks(o.(tls := false), c, t, a.resolution);
    if o.tls && l.err == NoErr && FailsEarly(a.tls) then {l.own.sock} else {}
  }

  /** What holds after an attempt: success leaves exactly one descriptor owned,
      that of the first candidate that connects; failure leaves none owned, and
      with TLS off also no descriptor in `sock_`. In both cases only `lost` is
      lost, and the protocol flags are as before. */
  ghost predicate Outcome(o: Own, n: Connection, r: Resolution, lost: set<int>) {
    && Inv(n.own)
    && n.own.tls == o.tls && n.own.websocket == o.websocket
    && Lost(n.own) == o.open + lost
    && lost !! o.open
    && (n.err == NoErr ==>
         && FirstUp(Candidates(r)).Chosen?
         && n.own.sock == FirstUp(Candidates(r)).candidate.fd
         && n.own.sock !in o.open
         && Owned(n.own) == {n.own.sock} && n.own.sock in n.own.open)
    && (n.err != NoErr ==> Owned(n.own) == {} && (!o.tls ==> n.own.sock == NONE))
  }

  /** Installing a TLS object never finds one there already. */
  lemma InstallKeeps(o: Own, o1: Own, c: Candidate)
    requires Idle(o) && o.tls && Holds(o, o1, c)
    ensures c.fd !in o1.ssl
    ensures Inv(Install(o1)) && Owned(Install(o1)) == {c.fd}
  {
  }

  lemma DialTlsKeeps(o: Own, c: Chan, t: Target, a: Attempt)
    requires Idle(o) && Fresh(Candidates(a.resolution), o.open)
    ensures Outcome(o, DialTls(o, c, t, a), a.resolution, LostBy(o, c, t, a))
  {
    hide Audit, DialSocks, FirstUp, Candidates, Fresh, Connects, Plug;
    var plain := o.(tls := false);
    DialSocksKeeps(plain, c, t, a.resolution);
    var l := DialSocks(plain, c, t, a.resolution);
    if l.err == NoErr {
      var cd := FirstUp(Candidates(a.resolution)).candidate;
      var o1 := l.own.(tls := o.tls);
      assert Holds(o, o1, cd);
      if o.tls && !FailsEarly(a.tls) {
        InstallKeeps(o, o1, cd);
        CloseSocketKeeps(Install(o1));
      }
    }
  }

  lemma DialWsKeeps(o: Own, c: Chan, t: Target, a: Attempt)
    requires Idle(o) && Fresh(Candidates(a.resolution), o.open)
    ensures Outcome(o, DialWs(o, c, t, a), a.resolution, LostBy(o, c, t, a))
  {
    hide Audit, DialTls, FirstUp, Candidates, Fresh, Shake, LostBy, Ascii;
    DialTlsKeeps(o, c, t, a);
    var n := DialTls(o, c, t, a);
    if n.err == NoErr {
      CloseSocketKeeps(n.own);
    }
  }

  /** Closing what is left of the previous connection. */
  function Reset(o: Own): Own {
    (if o.sock >= 0 then CloseSocket(o, o.sock).(sock := NONE) else o).(websocket := true)
  }

  lemma ResetKeeps(o: Own)
    requires Inv(o)
    ensures Idle(Reset(o)) && Reset(o).open == Lost(o) && Reset(o).tls == o.tls
  {
  }

  /** Connecting, from whatever an earlier attempt has left behind. */
  lemma ConnectKeeps(o: Own, c: Chan, t: Target, a: Attempt)
    requires Inv(o) && Fresh(Candidates(a.resolution), Lost(o))
    ensures Outcome(Reset(o), Connect(o, c, t, a), a.resolution, LostBy(Reset(o), c, t, a))
    ensures Lost(Connect(o, c, t, a).own) == Lost(o) + LostBy(Reset(o), c, t, a)
  {
    hide Audit, DialWs, FirstUp, Candidates, Fresh, LostBy, CloseSocket;
    ResetKeeps(o);
    DialWsKeeps(Reset(o), c, t, a);
  }

  // ----- whole lives -----

  /** A connect, with the state that the connection is in by then. */
  datatype Step = Step(chan: Chan, target: Target, attempt: Attempt)

  function Run(o: Own, steps: seq<Step>): Own
    decreases |steps|
  {
    if steps == [] then o
    else Run(Connect(o, steps[0].chan, steps[0].target, steps[0].attempt).own, steps[1..])
  }

  /** The system never hands out a descriptor that is open. */
  ghost predicate Feasible(o: Own, steps: seq<Step>)
    decreases |steps|
  {
    steps == [] ||
    (Fresh(Candidates(steps[0].attempt.resolution), Lost(o)) &&
     Feasible(Connect(o, steps[0].chan, steps[0].target, steps[0].attempt).own, steps[1..]))
  }

  /** No attempt fails between connecting and installing the TLS object. */
  ghost predicate NoneLost(o: Own, steps: seq<Step>)
    decreases |steps|
  {
    steps == [] ||
    (LostBy(Reset(o), steps[0].chan, steps[0].target, steps[0].attempt) == {} &&
     NoneLost(Connect(o, steps[0].chan, steps[0].target, steps[0].attempt).own, steps[1..]))
  }

  lemma {:induction false} RunKeeps(o: Own, steps: seq<Step>)
    requires Inv(o) && Feasible(o, steps)
    ensures Inv(Run(o, steps)) && Lost(o) <= Lost(Run(o, steps))
    ensures Lost(Run(o, steps)) == Lost(o) <==> NoneLost(o, steps)
    decreases |steps|
  {
    hide Audit, Connect, Candidates, Fresh, LostBy, Reset, Lost;
    if steps == [] {
    } else {
      var s := steps[0];
      ConnectKeeps(o, s.chan, s.target, s.attempt);
      RunKeeps(Connect(o, s.chan, s.target, s.attempt).own, steps[1..]);
      ResetKeeps(o);
    }
  }

  function NewClient(tls: bool): Own {
    Own(NONE, map[], tls, false, {}, 0, [])
  }

  /** Over every life of a client, whatever fails: no TLS object outlives it,
      each was installed and freed exactly once, and every descriptor was closed
      as often as it was opened, except for those lost by attempts that fail
      between connecting and installing the TLS object. There are such if and
      only if TLS is enabled and an attempt fails there. */
  lemma LifeOfAClient(tls: bool, steps: seq<Step>, fd: int, ssl: nat)
    requires Feasible(NewClient(tls), steps)
    ensures var o := Run(NewClient(tls), steps);
      var last := Destroy(o);
      && Audit(last.trail).Books? && Audit(last.trail).ssl == map[]
      && Audit(last.trail).open == Lost(o)
      && Installs(last.trail, ssl) == Frees(last.trail, ssl) <= 1
      && Count(last.trail, Installed(fd, ssl)) == Count(last.trail, Freed(fd, ssl))
      && Count(last.trail, Opened(fd)) == Count(last.trail, Closed(fd)) + (if fd in Lost(o) then 1 else 0)
      && (Audit(last.trail).open == {} <==> NoneLost(NewClient(tls), steps))
  {
    hide Feasible, NoneLost, Run, CloseSocket, Count, Installs, Frees;
    var o := Run(NewClient(tls), steps);
    RunKeeps(NewClient(tls), steps);
    if o.sock != NONE {
      CloseSocketKeeps(o);
    }
    AuditCounts(Destroy(o).trail, fd, ssl);
    AuditObjects(Destroy(o).trail, ssl);
  }

  /** Without TLS nothing is ever lost. */
  lemma {:induction false} PlainLosesNothing(o: Own, steps: seq<Step>)
    requires Inv(o) && !o.tls && Feasible(o, steps)
    ensures NoneLost(o, steps)
    decreases |steps|
  {
    hide Audit, Connect, Candidates, Fresh;
    if steps == [] {
    } else {
      var s := steps[0];
      ConnectKeeps(o, s.chan, s.target, s.attempt);
      ResetKeeps(o);
      PlainLosesNothing(Connect(o, s.chan, s.target, s.attempt).own, steps[1..]);
    }
  }

  /** With TLS, a client that finds no CA bundle leaves its socket open for good. */
  lemma NoBundleLosesSocket(c: Chan, t: Target, peer: Peer)
    requires t.proxyPort == []
    ensures var a := Attempt(Addresses([Found([Candidate(5, NoErr, Immediate, peer)])]), NoBundle);
      && Feasible(NewClient(true), [Step(c, t, a)])
      && Destroy(Run(NewClient(true), [Step(c, t, a)])).open == {5}
  {
    hide Shake, Plug, Audit, Ascii;
    var a := Attempt(Addresses([Found([Candidate(5, NoErr, Immediate, peer)])]), NoBundle);
    var o := NewClient(true);
    var n := Connect(o, c, t, a);
    assert n.own.sock == 5 && n.own.open == {5} && n.own.ssl == map[];
    assert Run(o, [Step(c, t, a)]) == Run(n.own, []) == n.own;
    assert Feasible(n.own, []);
    assert Offered([Found([Candidate(5, NoErr, Immediate, peer)])]) == [Candidate(5, NoErr, Immediate, peer)] + [];
  }
}

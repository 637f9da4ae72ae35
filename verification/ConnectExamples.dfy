/**
  Connecting, spelled out: which response upgrades the connection, which socket
  counts as connected, and an attempt that succeeds.
 */
module ConnectExamples {
  import opened Bytes
  import opened Netx
  import opened Handshake
  import opened HandshakeLines
  import opened Ownership
  import opened Connecting

  lemma ProtocolName()
    ensures PROTOCOL == Ascii("net.measurementlab.ndt.v7")
    ensures 10 !in PROTOCOL && 13 !in PROTOCOL && |PROTOCOL| == 25
  {
    PrintableLine("net.measurementlab.ndt.v7");
    hide Ascii;
  }

  /** What the client asks of the response to its upgrade, line by line. */
  lemma RespondedExactly(s: bytes, raws: seq<bytes>, rest: bytes)
    ensures RespondedBefore(s, raws, rest)
      <==> Spells(raws, Ascii("net.measurementlab.ndt.v7")) && s == Raw(raws) + rest
  {
    ProtocolName();
    hide Ascii, Spells, IsResponse, Raw;
    SpellsExactly(raws, PROTOCOL);
    assert REQUIRED == ALL_FLAGS;
  }

  lemma OneCandidate(o: Own, c: Candidate)
    ensures TryCandidates(o, [c]).err == NoErr <==> Connects(c)
  {
  }

  /** A socket is used exactly if it could be made, put into nonblocking mode and
      connected, at once or in the end and then without an error pending. */
  lemma EstablishedExactly(o: Own, c: Candidate)
    requires o.sock == NONE
    ensures DialTcp(o, Addresses([Found([c])])).err == NoErr <==>
      && c.fd >= 0 && c.nonblocking == NoErr
      && (c.connect.Immediate?
          || (c.connect.InProgress? && c.connect.wait == NoErr && c.connect.optionRead && c.connect.optionError == 0))
  {
    assert [Found([c])][1..] == [] && [c][1..] == [];
    OneCandidate(o, c);
    hide TryCandidates;
    assert TryLookups(TryCandidates(o, [c]).own, []).err == IoError;
  }

  /** A server that answers the request with the sample response is connected to:
      without TLS and proxy the request is what it has been sent, and what follows
      the response is what comes next. */
  lemma ConnectWorks(o: Own, c: Chan, t: Target, a: Attempt, peer: Peer, rest: bytes)
    requires Inv(o) && !o.tls && t.proxyPort == [] && RequestFits(t) && Fresh(Candidates(a.resolution), Lost(o))
    requires FirstUp(Candidates(a.resolution)).Chosen? && FirstUp(Candidates(a.resolution)).candidate.peer == peer
    requires Arriving(peer.rx) == OnWire(Sample(Ascii("net.measurementlab.ndt.v7"))) + rest
    requires |Request(t.hostHeader, t.port, false, PROTOCOL, t.path)| <= Capacity(peer.tx)
    ensures var n := Connect(o, c, t, a);
      && n.err == NoErr && n.chan.input == rest
      && n.chan.sent == Request(t.hostHeader, t.port, false, PROTOCOL, t.path)
  {
    ProtocolName();
    hide Ascii, OnWire, Sample, Request, Connect, Candidates, FirstUp, Fresh, Inv, Lost, RequestFits, Arriving,
      Capacity, InFault, OutFault, Spells, Raw, IsResponse;
    SampleSpells(PROTOCOL);
    RawsOnWire(Sample(PROTOCOL));
    RespondedExactly(Arriving(peer.rx), Raws(Sample(PROTOCOL)), rest);
    var c1 := Plug(c, peer.rx, peer.tx, false);
    var c' := Upgraded(c1, Request(t.hostHeader, t.port, false, PROTOCOL, t.path), rest);
    assert RespondedBefore(c1.input, Raws(Sample(PROTOCOL)), c'.input);
    assert Upgrades(c1, t, c');
    assert Leads(c, false, t, peer, c1, c');
    assert Reaches(c, false, t, a, c');
    ConnectExact(o, c, t, a);
    assert [] + Request(t.hostHeader, t.port, false, PROTOCOL, t.path)
        == Request(t.hostHeader, t.port, false, PROTOCOL, t.path);
  }
}

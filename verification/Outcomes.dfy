/** Exactly when the tests succeed, in terms of the clock, the room and the stream. */
module Outcomes {
  import opened Bytes
  import opened Netx
  import opened Rfc6455
  import opened Frames
  import opened Messages
  import opened TestLoops
  import opened Endings

  // ----- upload -----

  /** Reading number `k + n` of the clock is the first past the limit. */
  predicate FirstLate(clock: Clock, k: nat, begin: real, n: nat) {
    clock(k + n) - begin > 10.0 && forall t :: k <= t < k + n ==> clock(t) - begin <= 10.0
  }

  /** The reports that the clock makes due in `n` rounds. */
  function Due(clock: Clock, k: nat, begin: real, latest: real, total: nat, n: nat): seq<Report>
    decreases n
  {
    if n == 0 then []
    else if clock(k) - latest > 0.25 then
      [Report(k, total, clock(k) - begin)] + Due(clock, k + 1, begin, clock(k), total + 8192, n - 1)
    else Due(clock, k + 1, begin, latest, total + 8192, n - 1)
  }

  /** How many bytes a masked frame takes. */
  function FrameSize(n: nat): (r: nat)
    ensures r > n
  {
    (if n < 126 then 2 else if n < 0x1_0000 then 4 else 10) + 4 + n
  }

  lemma FrameSizeIs(first: byte, m: Mask, payload: bytes)
    ensures |ClientFrame(first, m, payload)| == FrameSize(|payload|)
  {
  }

  /** How many bytes the reports take. */
  function ReportSize(reports: seq<Report>, render: Renderer): nat {
    if reports == [] then 0 else FrameSize(|render(reports[0])|) + ReportSize(reports[1..], render)
  }

  /** There is room for `n` binary frames and the reports, none of them too long for one write. */
  predicate Carries(c: Chan, reports: seq<Report>, n: nat, render: Renderer) {
    && ReportSize(reports, render) + n * FrameSize(8192) <= c.room
    && forall r :: r in reports ==> FrameSize(|render(r)|) <= IoLimit(c.tls)
  }

  /** How a write goes. */
  lemma WriteExact(c: Chan, data: bytes)
    requires data != []
    ensures var w := Write(c, data);
      && (w.err == NoErr <==> |data| <= IoLimit(c.tls) && |data| <= c.room)
      && (w.err == NoErr ==> w.chan.room == c.room - |data| && w.chan.tls == c.tls)
  {
  }

  /** The two sends of a round go well exactly if there is room for both. */
  lemma RoundExact(c: Chan, clock: Clock, k: nat, begin: real, latest: real, total: nat, frame: bytes,
        render: Renderer)
    requires |frame| == FrameSize(8192)
    ensures var w := RoundSends(c, clock, k, begin, latest, total, frame, render).1;
      var size := FrameSize(|render(Report(k, total, clock(k) - begin))|);
      var due := clock(k) - latest > INTERVAL;
      && (w.err == NoErr <==> (if due then size <= IoLimit(c.tls) else true)
                              && (if due then size else 0) + |frame| <= c.room)
      && (w.err == NoErr ==> w.chan.tls == c.tls && w.chan.room == c.room - |frame| - if due then size else 0)
  {
    var text := render(Report(k, total, clock(k) - begin));
    var c' := c.(drawn := c.drawn + 1);
    FrameSizeIs(TEXT_BYTE, c.masks(c.drawn), text);
    hide Write, ClientFrame, IoLimit;
    WriteExact(c', ClientFrame(TEXT_BYTE, c.masks(c.drawn), text));
    WriteExact(RoundSends(c, clock, k, begin, latest, total, frame, render).0.chan, frame);
    assert |frame| <= IoLimit(c.tls);
  }

  lemma ReportSizeJoined(news: seq<Report>, later: seq<Report>, render: Renderer)
    requires |news| <= 1
    ensures ReportSize(news + later, render) == ReportSize(news, render) + ReportSize(later, render)
  {
    if news == [] {
      assert news + later == later;
    } else {
      assert (news + later)[1..] == later && news[1..] == [];
    }
  }

  lemma CarriesMore(c: Chan, c': Chan, news: seq<Report>, later: seq<Report>, n: nat,
                    render: Renderer)
    requires |news| <= 1 && c'.tls == c.tls
    requires c'.room == c.room - FrameSize(8192) - ReportSize(news, render)
    ensures Carries(c, news + later, n + 1, render) <==>
      Carries(c', later, n, render) && forall r :: r in news ==> FrameSize(|render(r)|) <= IoLimit(c.tls)
  {
    hide FrameSize, ReportSize;
    ReportSizeJoined(news, later, render);
    var size := FrameSize(8192);
    assert (n + 1) * size == n * size + size;
    assert forall r :: r in news + later <==> r in news || r in later;
  }

  lemma DueNext(clock: Clock, k: nat, begin: real, latest: real, total: nat, n: nat)
    requires n > 0
    ensures var latest' := if clock(k) - latest > INTERVAL then clock(k) else latest;
      Due(clock, k, begin, latest, total, n)
      == News(clock, k, begin, latest, total) + Due(clock, k + 1, begin, latest', total + UPLOAD_BUFFER, n - 1)
  {
  }

  /** The first of `n` rounds goes well, and there is room for the others behind
      it, exactly if there is room for all. */
  lemma RoundCarries(c: Chan, clock: Clock, k: nat, begin: real, latest: real, total: nat,
                     frame: bytes, render: Renderer, later: seq<Report>, n: nat)
    requires |frame| == FrameSize(8192)
    ensures var w := RoundSends(c, clock, k, begin, latest, total, frame, render).1;
      Carries(c, News(clock, k, begin, latest, total) + later, n + 1, render)
      <==> w.err == NoErr && Carries(w.chan, later, n, render)
  {
    RoundExact(c, clock, k, begin, latest, total, frame, render);
    var w := RoundSends(c, clock, k, begin, latest, total, frame, render).1;
    var news := News(clock, k, begin, latest, total);
    hide RoundSends, FrameSize, Carries;
    OneReport(news, render);
    if w.err == NoErr {
      CarriesMore(c, w.chan, news, later, n, render);
    } else {
      CarriesNone(c, news, later, n, render);
    }
  }

  lemma OneReport(news: seq<Report>, render: Renderer)
    requires |news| <= 1
    ensures ReportSize(news, render) == if news == [] then 0 else FrameSize(|render(news[0])|)
  {
  }

  lemma NoneDue(c: Chan, clock: Clock, k: nat, begin: real, latest: real, total: nat, render: Renderer)
    requires FirstLate(clock, k, begin, 0)
    ensures clock(k) - begin > MAX_UPLOAD_TIME
    ensures Due(clock, k, begin, latest, total, 0) == [] && Carries(c, [], 0, render)
  {
  }

  /** An upload whose time is up after `n` rounds: exactly when it succeeds, and
      what it has reported and counted then. */
  lemma {:induction false} UploadRoundsExact(c: Chan, clock: Clock, k: nat, begin: real, latest: real, total: nat,
                                             frame: bytes, render: Renderer, n: nat)
    requires |frame| == FrameSize(8192) && FirstLate(clock, k, begin, n)
    ensures var out, due := UploadRounds(c, clock, k, begin, latest, total, frame, render),
          Due(clock, k, begin, latest, total, n);
      && (out.ok <==> Carries(c, due, n, render))
      && (out.ok ==> out.reports == due && out.total == total + n * UPLOAD_BUFFER
                     && out.ticks == k + n + 1 && out.elapsed == clock(k + n) - begin)
    decreases n
  {
    hide UploadRounds, Due, Carries, FirstLate, RoundSends, News, FrameSize;
    if n == 0 {
      NoneDue(c, clock, k, begin, latest, total, render);
      UploadStops(c, clock, k, begin, latest, total, frame, render);
    } else {
      LaterLate(clock, k, begin, n);
      var w := RoundSends(c, clock, k, begin, latest, total, frame, render).1;
      var latest' := if clock(k) - latest > INTERVAL then clock(k) else latest;
      var later := Due(clock, k + 1, begin, latest', total + UPLOAD_BUFFER, n - 1);
      DueNext(clock, k, begin, latest, total, n);
      UploadGoesOn(c, clock, k, begin, latest, total, frame, render);
      RoundCarries(c, clock, k, begin, latest, total, frame, render, later, n - 1);
      if w.err == NoErr {
        UploadRoundsExact(w.chan, clock, k + 1, begin, latest', total + UPLOAD_BUFFER, frame, render, n - 1);
      }
    }
  }

  lemma LaterLate(clock: Clock, k: nat, begin: real, n: nat)
    requires n > 0 && FirstLate(clock, k, begin, n)
    ensures clock(k) - begin <= MAX_UPLOAD_TIME && FirstLate(clock, k + 1, begin, n - 1)
  {
  }

  /** There is no room for all if there is none for the first round. */
  lemma {:induction false} CarriesNone(c: Chan, news: seq<Report>, later: seq<Report>, n: nat, render: Renderer)
    requires |news| <= 1
    requires c.room < FrameSize(8192) + ReportSize(news, render)
          || exists r :: r in news && FrameSize(|render(r)|) > IoLimit(c.tls)
    ensures !Carries(c, news + later, n + 1, render)
  {
  }

  /** An upload ends by itself only when its time is up. */
  lemma {:induction false} UploadNeedsTime(c: Chan, clock: Clock, k: nat, begin: real, latest: real, total: nat,
                                           frame: bytes, render: Renderer) returns (n: nat)
    requires frame != []
    ensures UploadRounds(c, clock, k, begin, latest, total, frame, render).ok ==> FirstLate(clock, k, begin, n)
    decreases c.room
  {
    hide UploadRounds, RoundSends, FirstLate, News;
    n := 0;
    if clock(k) - begin > MAX_UPLOAD_TIME {
      LateNow(clock, k, begin);
    } else {
      UploadGoesOn(c, clock, k, begin, latest, total, frame, render);
      var w := RoundSends(c, clock, k, begin, latest, total, frame, render).1;
      var latest' := if clock(k) - latest > INTERVAL then clock(k) else latest;
      if w.err == NoErr {
        var m := UploadNeedsTime(w.chan, clock, k + 1, begin, latest', total + UPLOAD_BUFFER, frame, render);
        EarlierLate(clock, k, begin, m);
        n := m + 1;
      }
    }
  }

  lemma LateNow(clock: Clock, k: nat, begin: real)
    requires clock(k) - begin > MAX_UPLOAD_TIME
    ensures FirstLate(clock, k, begin, 0)
  {
  }

  lemma EarlierLate(clock: Clock, k: nat, begin: real, n: nat)
    requires clock(k) - begin <= MAX_UPLOAD_TIME
    ensures FirstLate(clock, k + 1, begin, n) ==> FirstLate(clock, k, begin, n + 1)
  {
  }

  /** The upload lasts `n` rounds: its time is up then, and there is room for all
      frames up to then. */
  ghost predicate UploadLasts(c: Chan, clock: Clock, k: nat, render: Renderer, n: nat) {
    && FirstLate(clock, k + 1, clock(k), n)
    && Carries(c, Due(clock, k + 1, clock(k), clock(k), 0, n), n, render)
  }

  /** What an upload that lasts `n` rounds has counted and reported. */
  ghost predicate CountedRounds(out: Uploaded, clock: Clock, k: nat, n: nat) {
    && out.ok
    && out.total == n * 8192
    && out.reports == Due(clock, k + 1, clock(k), clock(k), 0, n)
    && out.elapsed == clock(k + 1 + n) - clock(k)
  }

  lemma UploadRoundsOf(c: Chan, clock: Clock, k: nat, payload: bytes, render: Renderer, n: nat)
    requires |payload| == UPLOAD_BUFFER && FirstLate(clock, k + 1, clock(k), n)
    ensures var out := Upload(c, clock, k, payload, render);
      && (out.ok <==> UploadLasts(c, clock, k, render, n))
      && (out.ok ==> CountedRounds(out, clock, k, n))
  {
    hide UploadRounds, Due, FirstLate, ReportSize, FrameSize, ClientFrame;
    var frame, c' := ClientFrame(BINARY_BYTE, c.masks(c.drawn), payload), c.(drawn := c.drawn + 1);
    FrameSizeIs(BINARY_BYTE, c.masks(c.drawn), payload);
    UploadRoundsExact(c', clock, k + 1, clock(k), clock(k), 0, frame, render, n);
  }

  lemma UploadTime(c: Chan, clock: Clock, k: nat, payload: bytes, render: Renderer) returns (n: nat)
    requires |payload| == UPLOAD_BUFFER
    ensures Upload(c, clock, k, payload, render).ok ==> FirstLate(clock, k + 1, clock(k), n)
  {
    hide UploadRounds, FirstLate, FrameSize, ClientFrame;
    var frame, c' := ClientFrame(BINARY_BYTE, c.masks(c.drawn), payload), c.(drawn := c.drawn + 1);
    FrameSizeIs(BINARY_BYTE, c.masks(c.drawn), payload);
    n := UploadNeedsTime(c', clock, k + 1, clock(k), clock(k), 0, frame, render);
  }

  lemma LastsUntilLate(c: Chan, clock: Clock, k: nat, render: Renderer, n: nat)
    ensures UploadLasts(c, clock, k, render, n) ==> FirstLate(clock, k + 1, clock(k), n)
  {
  }

  /** Exactly when an upload succeeds, and then what it has counted and reported. */
  lemma {:induction false} UploadExact(c: Chan, clock: Clock, k: nat, payload: bytes, render: Renderer)
    requires |payload| == UPLOAD_BUFFER
    ensures var out := Upload(c, clock, k, payload, render);
      && (out.ok <==> exists n :: UploadLasts(c, clock, k, render, n))
      && (forall n :: UploadLasts(c, clock, k, render, n) ==> CountedRounds(out, clock, k, n))
  {
    hide Upload, FirstLate, UploadLasts, CountedRounds;
    if Upload(c, clock, k, payload, render).ok {
      var n := UploadTime(c, clock, k, payload, render);
      UploadRoundsOf(c, clock, k, payload, render, n);
    }
    forall n | UploadLasts(c, clock, k, render, n)
      ensures var out := Upload(c, clock, k, payload, render); out.ok && CountedRounds(out, clock, k, n)
    {
      LastsUntilLate(c, clock, k, render, n);
      UploadRoundsOf(c, clock, k, payload, render, n);
    }
  }

  // ----- download -----

  /** The complete messages `ms`, then the frames `ws` of one that goes on, and
      then the next frame ends it all; with room for all answers before that. */
  ghost predicate Closes(c: Chan, ms: seq<seq<Wire>>, ws: seq<Wire>, rest: bytes) {
    && AreMessages(ms, IoLimit(c.tls)) && AllLegal(Flat(ms)) && AllLegal(ws)
    && c.input == Encode(Flat(ms)) + (Encode(ws) + rest)
    && |Stream(c, Replies(Flat(ms)))| <= c.room
    && EndsIn(Advance(c, Encode(ws) + rest, Replies(Flat(ms))), ws, rest, 0x100_0000, 0, false)
  }

  /** The clock stays within the limit for the messages and the receive behind them. */
  predicate InTime(clock: Clock, k: nat, begin: real, n: nat, maxRuntime: nat) {
    forall t :: k <= t <= k + n ==> clock(t) - begin <= maxRuntime as real
  }

  lemma ClosesHere(c: Chan, ws: seq<Wire>, rest: bytes)
    ensures Closes(c, [], ws, rest) <==> EndsIn(c, ws, rest, DOWNLOAD_BUFFER, 0, false)
  {
    AdvanceSilently(c, c.input);
    hide EndsIn, Stream;
    assert Flat([]) == [] && Encode([]) == [] && Replies([]) == [];
    if AllLegal(ws) {
      assert [] + (Encode(ws) + rest) == Encode(ws) + rest;
    }
    if EndsIn(c, ws, rest, DOWNLOAD_BUFFER, 0, false) {
      EndsInMeans(c, ws, rest);
    }
  }

  lemma EndsInMeans(c: Chan, ws: seq<Wire>, rest: bytes)
    requires EndsIn(c, ws, rest, DOWNLOAD_BUFFER, 0, false)
    ensures AllLegal(ws) && c.input == Encode(ws) + rest
  {
  }

  /** One more message in front. */
  lemma ClosesInFront(c: Chan, m: seq<Wire>, after: bytes, ms: seq<seq<Wire>>, ws: seq<Wire>,
                      rest: bytes)
    requires StartsWith(c, m, DOWNLOAD_BUFFER) && c.input == Encode(m) + after
    requires Closes(Advance(c, after, Replies(m)), ms, ws, rest)
    ensures Closes(c, [m] + ms, ws, rest)
  {
    hide EndsIn, Stream, Encode, Replies, IsMessage, LegalWire;
    var c' := Advance(c, after, Replies(m));
    assert ([m] + ms)[1..] == ms;
    JoinFrames(m, Flat(ms));
    StreamSplit(c, c', Replies(m), Replies(Flat(ms)));
    AdvanceTwice(c, after, Replies(m), Encode(ws) + rest, Replies(Flat(ms)));
    Associate(Encode(m), Encode(Flat(ms)), Encode(ws) + rest);
  }

  /** What is left behind the first message. */
  lemma ClosesLater(c: Chan, ms: seq<seq<Wire>>, ws: seq<Wire>, rest: bytes) returns (after: bytes)
    requires ms != [] && Closes(c, ms, ws, rest)
    ensures StartsWith(c, ms[0], DOWNLOAD_BUFFER) && c.input == Encode(ms[0]) + after
    ensures Closes(Advance(c, after, Replies(ms[0])), ms[1..], ws, rest)
  {
    hide EndsIn, Stream, Encode, Replies, IsMessage, LegalWire;
    var m, tail := ms[0], Flat(ms[1..]);
    TailLegal(m, tail);
    JoinFrames(m, tail);
    after := Encode(tail) + (Encode(ws) + rest);
    Associate(Encode(m), Encode(tail), Encode(ws) + rest);
    AdvanceTwice(c, after, Replies(m), Encode(ws) + rest, Replies(tail));
  }

  lemma TailLegal(ws: seq<Wire>, vs: seq<Wire>)
    requires AllLegal(ws + vs)
    ensures AllLegal(ws) && AllLegal(vs)
  {
    assert forall i :: 0 <= i < |ws| ==> (ws + vs)[i] == ws[i];
    assert forall i :: 0 <= i < |vs| ==> (ws + vs)[|ws| + i] == vs[i];
  }

  /** A download that succeeds meets complete messages and then the end. */
  lemma {:induction false} DownloadSound(c: Chan, clock: Clock, k: nat, begin: real, latest: real, total: nat,
                                         maxRuntime: nat)
      returns (ms: seq<seq<Wire>>, ws: seq<Wire>, rest: bytes)
    requires DownloadRounds(c, clock, k, begin, latest, total, maxRuntime).ok
    ensures Closes(c, ms, ws, rest) && InTime(clock, k, begin, |ms|, maxRuntime)
    decreases |c.input|
  {
    hide RecvMsg, Closes, DownloadRounds, StartsWith, Encode, Payload, Opcode, Stream, Replies, EndsIn, News;
    var m := RecvMsg(c, DOWNLOAD_BUFFER);
    if clock(k) - begin > maxRuntime as real || m.err != NoErr {
      DownloadEnds(c, clock, k, begin, latest, total, maxRuntime);
      RecvIsMsg(c);
      ws, rest := RecvEofSound(c, DOWNLOAD_BUFFER, 0, [], false);
      ClosesHere(c, ws, rest);
      ms := [];
    } else {
      DownloadGoesOn(c, clock, k, begin, latest, total, maxRuntime);
      var first, after := MessageTaken(c);
      var latest' := if clock(k) - latest > INTERVAL then clock(k) else latest;
      ms, ws, rest := DownloadSound(m.chan, clock, k + 1, begin, latest', total + |m.data|, maxRuntime);
      ClosesInFront(c, first, after, ms, ws, rest);
      ms := [first] + ms;
    }
  }

  lemma RecvIsMsg(c: Chan)
    ensures Recv(c, DOWNLOAD_BUFFER, 0, [], false) == RecvMsg(c, DOWNLOAD_BUFFER)
  {
  }

  /** And one that meets them in time succeeds. */
  lemma {:induction false} DownloadComplete(c: Chan, clock: Clock, k: nat, begin: real, latest: real, total: nat,
                                            maxRuntime: nat, ms: seq<seq<Wire>>, ws: seq<Wire>, rest: bytes)
    requires Closes(c, ms, ws, rest) && InTime(clock, k, begin, |ms|, maxRuntime)
    ensures DownloadRounds(c, clock, k, begin, latest, total, maxRuntime).ok
    decreases |ms|
  {
    hide RecvMsg, Closes, DownloadRounds, StartsWith, Encode, Payload, Opcode, Stream, Replies, EndsIn, News;
    RecvIsMsg(c);
    if ms == [] {
      ClosesHere(c, ws, rest);
      RecvEofComplete(c, DOWNLOAD_BUFFER, 0, [], false, ws, rest);
      DownloadEnds(c, clock, k, begin, latest, total, maxRuntime);
    } else {
      var after := ClosesLater(c, ms, ws, rest);
      RecvMsgExact(c, DOWNLOAD_BUFFER);
      var m := RecvMsg(c, DOWNLOAD_BUFFER);
      DownloadGoesOn(c, clock, k, begin, latest, total, maxRuntime);
      var latest' := if clock(k) - latest > INTERVAL then clock(k) else latest;
      DownloadComplete(m.chan, clock, k + 1, begin, latest', total + |m.data|, maxRuntime, ms[1..], ws, rest);
    }
  }

  /** The download ends well: the stream closes behind some complete messages, in time. */
  ghost predicate DownloadLasts(c: Chan, clock: Clock, k: nat, maxRuntime: nat) {
    exists ms, ws, rest :: Closes(c, ms, ws, rest) && InTime(clock, k + 1, clock(k), |ms|, maxRuntime)
  }

  /** Exactly when a download succeeds. */
  lemma DownloadSucceeds(c: Chan, clock: Clock, k: nat, maxRuntime: nat)
    ensures Download(c, clock, k, maxRuntime).ok <==> DownloadLasts(c, clock, k, maxRuntime)
  {
    hide DownloadRounds, Closes, InTime;
    if Download(c, clock, k, maxRuntime).ok {
      var ms, ws, rest := DownloadSound(c, clock, k + 1, clock(k), clock(k), 0, maxRuntime);
    }
    if ms, ws, rest :| Closes(c, ms, ws, rest) && InTime(clock, k + 1, clock(k), |ms|, maxRuntime) {
      DownloadComplete(c, clock, k + 1, clock(k), clock(k), 0, maxRuntime, ms, ws, rest);
    }
  }
}

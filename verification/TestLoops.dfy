/**
  The download and upload tests after the connection has been set up: what they
  send, what they count and how often they report.
 */
module TestLoops {
  import opened Bytes
  import opened Netx
  import opened Rfc6455
  import opened Frames
  import opened Messages

  const DOWNLOAD_BUFFER: Size := 0x100_0000
  const UPLOAD_BUFFER: Size := 0x2000
  const MAX_UPLOAD_TIME: real := 10.0
  const INTERVAL: real := 0.25

  const TEXT_BYTE: byte := OP_TEXT | FIN_FLAG
  const BINARY_BYTE: byte := OP_BINARY | FIN_FLAG

  /** A measurement: the clock reading that triggered it, the bytes so far, and
      the seconds since the test began. */
  datatype Report = Report(tick: nat, total: nat, elapsed: real)

  /** Readings of the clock, in order. */
  type Clock = nat -> real

  /** A measurement rendered as text; a text in memory is shorter than 2^63. */
  type Text = t: bytes | |t| < TWO63
  type Renderer = Report -> Text

  function SpeedKbits(total: nat, elapsed: real): real {
    if elapsed <= 0.0 then 0.0 else total as real * 8.0 / 1000.0 / elapsed
  }

  // ----- upload -----

  datatype Uploaded = Uploaded(ok: bool, chan: Chan, total: nat, reports: seq<Report>, ticks: nat, elapsed: real)

  /** One round of the upload loop after another, from clock reading `k` on. */
  function UploadRounds(c: Chan, clock: Clock, k: nat, begin: real, latest: real, total: nat,
                        frame: bytes, render: Renderer): Uploaded
    requires frame != []
    decreases c.room
  {
    var now := clock(k);
    var elapsed := now - begin;
    if elapsed > MAX_UPLOAD_TIME then Uploaded(true, c, total, [], k + 1, elapsed)
    else
      var due := now - latest > INTERVAL;
      var report := Report(k, total, elapsed);
      var s := if due then SendFrame(c, TEXT_BYTE, Present(render(report))) else WriteOut(NoErr, c);
      var reports := if due then [report] else [];
      if s.err != NoErr then Uploaded(false, s.chan, total, reports, k + 1, elapsed)
      else
        var w := Write(s.chan, frame);
        if w.err != NoErr then Uploaded(false, w.chan, total, reports, k + 1, elapsed)
        else
          var rest := UploadRounds(w.chan, clock, k + 1, begin, if due then now else latest,
                                   total + UPLOAD_BUFFER, frame, render);
          rest.(reports := reports + rest.reports)
  }

  /** The whole upload on an established connection: one binary frame prepared
      from `payload` is sent over and over. */
  function Upload(c: Chan, clock: Clock, k: nat, payload: bytes, render: Renderer): Uploaded {
    var frame := ClientFrame(BINARY_BYTE, c.masks(c.drawn), payload);
    UploadRounds(c.(drawn := c.drawn + 1), clock, k + 1, clock(k), clock(k), 0, frame, render)
  }

  /** The texts sent, in order, and how many binary frames were sent: their first
      bytes are 0x81 and 0x82. */
  function Texts(msgs: seq<ClientMsg>): seq<bytes> {
    if msgs == [] then []
    else (if msgs[0].first == 0x81 then [msgs[0].payload] else []) + Texts(msgs[1..])
  }

  function Rendered(reports: seq<Report>, render: Renderer): seq<bytes> {
    if reports == [] then [] else [render(reports[0])] + Rendered(reports[1..], render)
  }

  function Binaries(msgs: seq<ClientMsg>): nat {
    if msgs == [] then 0 else (if msgs[0].first == 0x82 then 1 else 0) + Binaries(msgs[1..])
  }

  /** How many bytes have been counted when each of the texts is sent. */
  function CountedAt(msgs: seq<ClientMsg>, total: nat): seq<nat> {
    if msgs == [] then []
    else if msgs[0].first == 0x81 then [total] + CountedAt(msgs[1..], total)
    else CountedAt(msgs[1..], total + 8192)
  }

  function Totals(reports: seq<Report>): seq<nat> {
    if reports == [] then [] else [reports[0].total] + Totals(reports[1..])
  }

  /** Every message is a final text frame or the one final binary frame. */
  ghost predicate UploadMsgs(msgs: seq<ClientMsg>, payload: bytes) {
    forall i :: 0 <= i < |msgs| ==>
      (msgs[i].first == 0x81 || msgs[i] == ClientMsg(0x82, payload)) && |msgs[i].payload| < TWO63
  }

  /** The log grows by whole frames, one text frame for every report and with its
      text; or, if the upload fails, by a prefix of such frames. */
  ghost predicate UploadLog(c: Chan, out: Uploaded, total: nat, payload: bytes, render: Renderer,
        msgs: seq<ClientMsg>, keys: seq<Mask>) {
    && |msgs| == |keys|
    && UploadMsgs(msgs, payload)
    && Texts(msgs) == Rendered(out.reports, render)
    && CountedAt(msgs, total) == Totals(out.reports)
    && c.sent <= out.chan.sent <= c.sent + ClientStream(msgs, keys)
    && (out.ok ==>
         && out.chan.sent == c.sent + ClientStream(msgs, keys)
         && out.total == total + 8192 * Binaries(msgs))
  }

  /** One more binary frame in front. */
  lemma BinaryInFront(c: Chan, c1: Chan, out: Uploaded, total: nat, payload: bytes, render: Renderer, key: Mask,
        msgs: seq<ClientMsg>, keys: seq<Mask>)
    requires |payload| < TWO63
    requires c1.sent == c.sent + ClientFrame(BINARY_BYTE, key, payload)
    requires UploadLog(c1, out, total + UPLOAD_BUFFER, payload, render, msgs, keys)
    ensures UploadLog(c, out, total, payload, render, [ClientMsg(BINARY_BYTE, payload)] + msgs, [key] + keys)
  {
    hide ClientFrame, ClientFrames, ClientStream, Rendered;
    var ms, ks := [ClientMsg(BINARY_BYTE, payload)] + msgs, [key] + keys;
    assert ms[1..] == msgs && ks[1..] == keys;
    ClientStreamCons(ms, ks);
    Associate(c.sent, ClientFrame(BINARY_BYTE, key, payload), ClientStream(msgs, keys));
    assert TEXT_BYTE != BINARY_BYTE;
  }

  /** One more report in front. */
  lemma ReportInFront(c: Chan, c1: Chan, out: Uploaded, total: nat, payload: bytes, render: Renderer, report: Report,
        key: Mask, msgs: seq<ClientMsg>, keys: seq<Mask>)
    requires c1.sent == c.sent + ClientFrame(TEXT_BYTE, key, render(report)) && report.total == total
    requires UploadLog(c1, out, total, payload, render, msgs, keys)
    ensures UploadLog(c, out.(reports := [report] + out.reports), total, payload, render,
                      [ClientMsg(TEXT_BYTE, render(report))] + msgs, [key] + keys)
  {
    hide ClientFrame, ClientFrames, ClientStream;
    var ms, ks := [ClientMsg(TEXT_BYTE, render(report))] + msgs, [key] + keys;
    assert ms[1..] == msgs && ks[1..] == keys;
    assert ([report] + out.reports)[1..] == out.reports;
    ClientStreamCons(ms, ks);
    Associate(c.sent, ClientFrame(TEXT_BYTE, key, render(report)), ClientStream(msgs, keys));
    assert TEXT_BYTE != BINARY_BYTE;
  }

  lemma NothingSent(c: Chan, out: Uploaded, total: nat, payload: bytes, render: Renderer)
    requires out.chan.sent == c.sent && out.reports == [] && (out.ok ==> out.total == total)
    ensures UploadLog(c, out, total, payload, render, [], [])
  {
  }

  /** A write puts all of its data on the wire, or fails with a prefix there. */
  lemma WriteSends(c: Chan, data: bytes)
    ensures var w := Write(c, data);
      && c.sent <= w.chan.sent <= c.sent + data
      && (w.err == NoErr ==> w.chan.sent == c.sent + data)
  {
  }

  lemma CutOff(c: Chan, out: Uploaded, total: nat, payload: bytes, render: Renderer, msg: ClientMsg, key: Mask)
    requires !out.ok && c.sent <= out.chan.sent <= c.sent + ClientFrame(msg.first, key, msg.payload)
    requires if out.reports == [] then msg == ClientMsg(BINARY_BYTE, payload) && |payload| < TWO63
             else
               && |out.reports| == 1 && out.reports[0].total == total
               && msg == ClientMsg(TEXT_BYTE, render(out.reports[0]))
    ensures UploadLog(c, out, total, payload, render, [msg], [key])
  {
  }

  /** The two sends of one round: the report, if one is due, and the frame. */
  function RoundSends(c: Chan, clock: Clock, k: nat, begin: real, latest: real, total: nat, frame: bytes,
        render: Renderer): (r: (WriteOut, WriteOut)) {
    var report := Report(k, total, clock(k) - begin);
    var due := clock(k) - latest > INTERVAL;
    var s := if due then SendFrame(c, TEXT_BYTE, Present(render(report))) else WriteOut(NoErr, c);
    (s, if s.err != NoErr then s else Write(s.chan, frame))
  }

  /** The log of a round in which sending the report fails. */
  lemma ReportFails(c: Chan, report: Report, total: nat, payload: bytes, render: Renderer, out: Uploaded)
    requires !out.ok && out.reports == [report] && report.total == total
    requires out.chan == SendFrame(c, TEXT_BYTE, Present(render(report))).chan
    ensures UploadLog(c, out, total, payload, render, [ClientMsg(TEXT_BYTE, render(report))], [c.masks(c.drawn)])
  {
    var text, key := render(report), c.masks(c.drawn);
    hide ClientFrame, ClientStream, UploadLog, Write, UploadMsgs;
    WriteSends(c.(drawn := c.drawn + 1), ClientFrame(TEXT_BYTE, key, text));
    CutOff(c, out, total, payload, render, ClientMsg(TEXT_BYTE, text), key);
  }

  /** The log of a round in which sending the frame fails. */
  lemma FrameFails(c: Chan, payload: bytes, key: Mask, total: nat, render: Renderer, out: Uploaded)
    requires |payload| < TWO63 && !out.ok && out.reports == []
    requires out.chan == Write(c, ClientFrame(BINARY_BYTE, key, payload)).chan
    ensures UploadLog(c, out, total, payload, render, [ClientMsg(BINARY_BYTE, payload)], [key])
  {
    hide ClientFrame, ClientStream, UploadLog, Write, UploadMsgs;
    WriteSends(c, ClientFrame(BINARY_BYTE, key, payload));
    CutOff(c, out, total, payload, render, ClientMsg(BINARY_BYTE, payload), key);
  }

  /** The log of a round in which sending fails. */
  lemma RoundFails(c: Chan, clock: Clock, k: nat, begin: real, latest: real, total: nat, payload: bytes, key: Mask,
        render: Renderer)
      returns (msgs: seq<ClientMsg>, keys: seq<Mask>)
    requires |payload| < TWO63 && clock(k) - begin <= MAX_UPLOAD_TIME
    requires var frame := ClientFrame(BINARY_BYTE, key, payload);
      RoundSends(c, clock, k, begin, latest, total, frame, render).1.err != NoErr
    ensures var frame := ClientFrame(BINARY_BYTE, key, payload);
      UploadLog(c, UploadRounds(c, clock, k, begin, latest, total, frame, render), total, payload, render, msgs, keys)
  {
    var frame := ClientFrame(BINARY_BYTE, key, payload);
    assert frame != [];
    ReportSent(c, render(Report(k, total, clock(k) - begin)));
    hide ClientFrame, ClientStream, UploadLog, Write, SendFrame, UploadMsgs;
    var out := UploadRounds(c, clock, k, begin, latest, total, frame, render);
    var due, report := clock(k) - latest > INTERVAL, Report(k, total, clock(k) - begin);
    var s := RoundSends(c, clock, k, begin, latest, total, frame, render).0;
    if s.err != NoErr {
      ReportFails(c, report, total, payload, render, out);
      return [ClientMsg(TEXT_BYTE, render(report))], [c.masks(c.drawn)];
    }
    var last := out.(reports := []);
    assert out.reports + [] == out.reports;
    FrameFails(s.chan, payload, key, total, render, last);
    msgs, keys := MaybeReport(c, s.chan, last, total, payload, render, due, report, c.masks(c.drawn),
                              [ClientMsg(BINARY_BYTE, payload)], [key]);
  }

  lemma ReportSent(c: Chan, text: bytes)
    ensures var s := SendFrame(c, TEXT_BYTE, Present(text));
      s.err == NoErr ==> s.chan.sent == c.sent + ClientFrame(TEXT_BYTE, c.masks(c.drawn), text)
  {
  }

  /** What a round puts on the wire when both sends go well. */
  lemma RoundSucceeds(c: Chan, clock: Clock, k: nat, begin: real, latest: real, total: nat, frame: bytes,
        render: Renderer)
    requires frame != [] && RoundSends(c, clock, k, begin, latest, total, frame, render).1.err == NoErr
    ensures var text := render(Report(k, total, clock(k) - begin));
      var (s, w) := RoundSends(c, clock, k, begin, latest, total, frame, render);
      && s.err == NoErr && w == Write(s.chan, frame)
      && w.chan.sent == s.chan.sent + frame && w.chan.room < c.room
      && if clock(k) - latest > INTERVAL
         then s.chan.sent == c.sent + ClientFrame(TEXT_BYTE, c.masks(c.drawn), text)
         else s.chan == c
  {
  }

  /** After any number of rounds. */
  lemma {:induction false} UploadRoundsLog(c: Chan, clock: Clock, k: nat, begin: real, latest: real, total: nat,
                                           payload: bytes, key: Mask, render: Renderer)
      returns (msgs: seq<ClientMsg>, keys: seq<Mask>)
    requires |payload| < TWO63
    ensures var frame := ClientFrame(BINARY_BYTE, key, payload);
      UploadLog(c, UploadRounds(c, clock, k, begin, latest, total, frame, render), total, payload, render, msgs, keys)
    decreases c.room
  {
    var frame := ClientFrame(BINARY_BYTE, key, payload);
    assert frame != [];
    hide ClientFrame, ClientStream, UploadLog, Write, SendFrame, UploadMsgs;
    var out := UploadRounds(c, clock, k, begin, latest, total, frame, render);
    if clock(k) - begin > MAX_UPLOAD_TIME {
      NothingSent(c, out, total, payload, render);
      return [], [];
    }
    var (s, w) := RoundSends(c, clock, k, begin, latest, total, frame, render);
    if w.err != NoErr {
      msgs, keys := RoundFails(c, clock, k, begin, latest, total, payload, key, render);
      return;
    }
    var due, report := clock(k) - latest > INTERVAL, Report(k, total, clock(k) - begin);
    var latest' := if due then clock(k) else latest;
    RoundSucceeds(c, clock, k, begin, latest, total, frame, render);
    msgs, keys := UploadRoundsLog(w.chan, clock, k + 1, begin, latest', total + UPLOAD_BUFFER, payload, key, render);
    var rest := UploadRounds(w.chan, clock, k + 1, begin, latest', total + UPLOAD_BUFFER, frame, render);
    BinaryInFront(s.chan, w.chan, rest, total, payload, render, key, msgs, keys);
    msgs, keys := MaybeReport(c, s.chan, rest, total, payload, render, due, report, c.masks(c.drawn),
                              [ClientMsg(BINARY_BYTE, payload)] + msgs, [key] + keys);
  }

  /** A report in front, if one is due. */
  lemma MaybeReport(c: Chan, c1: Chan, out: Uploaded, total: nat, payload: bytes, render: Renderer, due: bool,
        report: Report, key: Mask, msgs: seq<ClientMsg>, keys: seq<Mask>)
      returns (msgs': seq<ClientMsg>, keys': seq<Mask>)
    requires due ==> c1.sent == c.sent + ClientFrame(TEXT_BYTE, key, render(report)) && report.total == total
    requires !due ==> c1 == c
    requires UploadLog(c1, out, total, payload, render, msgs, keys)
    ensures var news := if due then [report] else [];
      UploadLog(c, out.(reports := news + out.reports), total, payload, render, msgs', keys')
  {
    msgs', keys' := msgs, keys;
    if due {
      ReportInFront(c, c1, out, total, payload, render, report, key, msgs, keys);
      msgs', keys' := [ClientMsg(TEXT_BYTE, render(report))] + msgs, [key] + keys;
    } else {
      assert [] + out.reports == out.reports;
    }
  }

  lemma {:induction false} ManyMsgs(msgs: seq<ClientMsg>, payload: bytes)
    requires UploadMsgs(msgs, payload)
    ensures |msgs| == |Texts(msgs)| + Binaries(msgs)
  {
    if msgs == [] {
    } else {
      assert TEXT_BYTE != BINARY_BYTE;
      ManyMsgs(msgs[1..], payload);
    }
  }

  /** What the server sees of an upload that succeeds: complete final frames with
      nothing left over, each of them a rendered measurement or the one binary
      payload; one text for each report, in order and behind as many binary frames
      as it counts; and the bytes counted are 8192 for each binary frame. Of an
      upload that fails, it sees a prefix of
      such frames. */
  lemma ServerSeesUpload(c: Chan, clock: Clock, k: nat, payload: bytes, render: Renderer)
      returns (msgs: seq<ClientMsg>, keys: seq<Mask>)
    requires |payload| == UPLOAD_BUFFER
    ensures |msgs| == |keys| && UploadMsgs(msgs, payload)
    ensures var out := Upload(c, clock, k, payload, render);
      && SplitMasked(ClientStream(msgs, keys)) == Whole(msgs)
      && c.sent <= out.chan.sent <= c.sent + ClientStream(msgs, keys)
      && Texts(msgs) == Rendered(out.reports, render)
      && CountedAt(msgs, 0) == Totals(out.reports)
      && (out.ok ==>
           && SplitMasked(out.chan.sent[|c.sent|..]) == Whole(msgs)
           && out.total == 8192 * Binaries(msgs)
           && |msgs| == |out.reports| + Binaries(msgs))
  {
    hide ClientStream, UploadRounds, ClientFrame, SplitMasked;
    var out := Upload(c, clock, k, payload, render);
    msgs, keys := UploadRoundsLog(c.(drawn := c.drawn + 1), clock, k + 1, clock(k), clock(k), 0, payload,
          c.masks(c.drawn), render);
    ClientStreamSplits(msgs, keys);
    ManyMsgs(msgs, payload);
    RenderedLength(out.reports, render);
    if out.ok {
      assert out.chan.sent[|c.sent|..] == ClientStream(msgs, keys);
    }
  }

  lemma {:induction false} RenderedLength(reports: seq<Report>, render: Renderer)
    ensures |Rendered(reports, render)| == |reports|
  {
    if reports == [] {
    } else {
      RenderedLength(reports[1..], render);
    }
  }

  // ----- how often the tests report -----

  /** Reports more than a quarter of a second apart, the first of them that long
      after `since`, none after `limit`, and the bytes never go down. */
  ghost predicate Paced(reports: seq<Report>, since: real, limit: real, total: nat) {
    && (reports != [] ==> reports[0].elapsed - since > INTERVAL)
    && (forall i :: 0 <= i < |reports| - 1 ==> reports[i + 1].elapsed - reports[i].elapsed > INTERVAL)
    && (forall r :: r in reports ==> r.elapsed <= limit && total <= r.total)
    && (forall i, j :: 0 <= i < j < |reports| ==> reports[i].total <= reports[j].total)
  }

  /** The reports of one round. */
  function News(clock: Clock, k: nat, begin: real, latest: real, total: nat): seq<Report> {
    if clock(k) - latest > INTERVAL then [Report(k, total, clock(k) - begin)] else []
  }

  lemma PacedInFront(report: Report, reports: seq<Report>, since: real, limit: real, total: nat)
    requires Paced(reports, report.elapsed, limit, report.total) && total <= report.total
    requires report.elapsed - since > INTERVAL && report.elapsed <= limit
    ensures Paced([report] + reports, since, limit, total)
  {
  }

  /** Each report comes after more than as many quarters of a second as there are
      reports up to it. */
  lemma {:induction false} PacedAt(reports: seq<Report>, since: real, limit: real, total: nat, i: nat)
    requires Paced(reports, since, limit, total) && i < |reports|
    ensures since + INTERVAL * (i + 1) as real < reports[i].elapsed <= limit
  {
    if i == 0 {
    } else {
      PacedAt(reports, since, limit, total, i - 1);
      assert reports[i - 1 + 1].elapsed - reports[i - 1].elapsed > INTERVAL;
    }
    assert reports[i] in reports;
  }

  /** The reports of one round in front of those of the later ones. */
  lemma PacedRound(clock: Clock, k: nat, begin: real, latest: real, limit: real, total: nat, later: seq<Report>,
                   total': nat)
    requires clock(k) - begin <= limit && total <= total'
    requires Paced(later, (if clock(k) - latest > INTERVAL then clock(k) else latest) - begin, limit, total')
    ensures Paced(News(clock, k, begin, latest, total) + later, latest - begin, limit, total)
  {
    hide Paced;
    if clock(k) - latest > INTERVAL {
      PacedEarlier(later, clock(k) - begin, limit, total', total);
      PacedInFront(Report(k, total, clock(k) - begin), later, latest - begin, limit, total);
    } else {
      assert [] + later == later;
      PacedEarlier(later, latest - begin, limit, total', total);
    }
  }

  /** At clock reading `t` the last report is at most a quarter of a second old,
      counting from `latest` if there is none yet. */
  ghost predicate Covered(reports: seq<Report>, clock: Clock, t: nat, latest: real) {
    clock(t) - latest <= 0.25 || exists r :: r in reports && r.tick <= t && clock(t) - clock(r.tick) <= 0.25
  }

  /** Every report says when it was made, and none is missing at any reading from
      `k` up to `end` within the limit. */
  ghost predicate Prompt(reports: seq<Report>, clock: Clock, k: nat, end: nat, begin: real, latest: real, limit: real) {
    && (forall r :: r in reports ==> k <= r.tick < end && r.elapsed == clock(r.tick) - begin)
    && (forall t :: k <= t < end && clock(t) - begin <= limit ==> Covered(reports, clock, t, latest))
  }

  lemma PromptRound(clock: Clock, k: nat, end: nat, begin: real, latest: real, limit: real, total: nat,
                    later: seq<Report>)
    requires k < end
    requires Prompt(later, clock, k + 1, end, begin, if clock(k) - latest > INTERVAL then clock(k) else latest, limit)
    ensures Prompt(News(clock, k, begin, latest, total) + later, clock, k, end, begin, latest, limit)
  {
  }

  /** A round of the upload before its time is up. */
  lemma UploadGoesOn(c: Chan, clock: Clock, k: nat, begin: real, latest: real, total: nat, frame: bytes,
                     render: Renderer)
    requires frame != [] && clock(k) - begin <= MAX_UPLOAD_TIME
    ensures var w := RoundSends(c, clock, k, begin, latest, total, frame, render).1;
      var latest' := if clock(k) - latest > INTERVAL then clock(k) else latest;
      var out := UploadRounds(c, clock, k, begin, latest, total, frame, render);
      if w.err != NoErr then !out.ok && out.reports == News(clock, k, begin, latest, total) && out.ticks == k + 1
      else
        var rest := UploadRounds(w.chan, clock, k + 1, begin, latest', total + UPLOAD_BUFFER, frame, render);
        w.chan.room < c.room && out == rest.(reports := News(clock, k, begin, latest, total) + rest.reports)
  {
  }

  lemma UploadStops(c: Chan, clock: Clock, k: nat, begin: real, latest: real, total: nat, frame: bytes,
                    render: Renderer)
    requires frame != [] && clock(k) - begin > MAX_UPLOAD_TIME
    ensures UploadRounds(c, clock, k, begin, latest, total, frame, render)
      == Uploaded(true, c, total, [], k + 1, clock(k) - begin)
  {
  }

  lemma {:induction false} UploadPaced(c: Chan, clock: Clock, k: nat, begin: real, latest: real, total: nat,
                                       frame: bytes, render: Renderer)
    requires frame != []
    ensures Paced(UploadRounds(c, clock, k, begin, latest, total, frame, render).reports, latest - begin,
          MAX_UPLOAD_TIME, total)
    decreases c.room
  {
    hide UploadRounds, RoundSends, Paced, News;
    if clock(k) - begin > MAX_UPLOAD_TIME {
      UploadStops(c, clock, k, begin, latest, total, frame, render);
      NoReports(latest - begin, MAX_UPLOAD_TIME, total);
    } else {
      UploadGoesOn(c, clock, k, begin, latest, total, frame, render);
      var w := RoundSends(c, clock, k, begin, latest, total, frame, render).1;
      var latest' := if clock(k) - latest > INTERVAL then clock(k) else latest;
      var later := [];
      if w.err == NoErr {
        later := UploadRounds(w.chan, clock, k + 1, begin, latest', total + UPLOAD_BUFFER, frame, render).reports;
        UploadPaced(w.chan, clock, k + 1, begin, latest', total + UPLOAD_BUFFER, frame, render);
      } else {
        NoReports(latest' - begin, MAX_UPLOAD_TIME, total + UPLOAD_BUFFER);
        assert News(clock, k, begin, latest, total) + [] == News(clock, k, begin, latest, total);
      }
      PacedRound(clock, k, begin, latest, MAX_UPLOAD_TIME, total, later, total + UPLOAD_BUFFER);
    }
  }

  lemma NoReports(since: real, limit: real, total: nat)
    ensures Paced([], since, limit, total)
  {
  }

  lemma PacedEarlier(reports: seq<Report>, since: real, limit: real, total: nat, before: nat)
    requires Paced(reports, since, limit, total) && before <= total
    ensures Paced(reports, since, limit, before)
  {
  }

  /** Every report of an upload counts the frames sent before it. */
  ghost predicate InBlocks(reports: seq<Report>, k: nat, total: nat) {
    forall r :: r in reports ==> k <= r.tick && r.total == total + 8192 * (r.tick - k)
  }

  lemma BlocksLater(clock: Clock, k: nat, begin: real, latest: real, total: nat, later: seq<Report>)
    requires InBlocks(later, k + 1, total + 8192)
    ensures InBlocks(News(clock, k, begin, latest, total) + later, k, total)
  {
  }

  /** What `Paced` says from the start of a test on. */
  lemma PacedFromStart(rs: seq<Report>, limit: real)
    requires Paced(rs, 0.0, limit, 0)
    ensures forall i :: 0 <= i < |rs| ==> 0.25 * (i + 1) as real < rs[i].elapsed <= limit
    ensures rs != [] ==> 0.25 * |rs| as real < limit
    ensures forall i :: 0 <= i < |rs| - 1 ==> rs[i + 1].elapsed - rs[i].elapsed > 0.25
    ensures forall i, j :: 0 <= i < j < |rs| ==> rs[i].total <= rs[j].total
  {
    forall i | 0 <= i < |rs|
      ensures 0.25 * (i + 1) as real < rs[i].elapsed <= limit
    {
      PacedAt(rs, 0.0, limit, 0, i);
    }
    assert rs != [] ==> 0.25 * |rs| as real < rs[|rs| - 1].elapsed;
  }

  lemma {:induction false} UploadPrompt(c: Chan, clock: Clock, k: nat, begin: real, latest: real, total: nat,
                                        frame: bytes, render: Renderer)
    requires frame != []
    ensures var out := UploadRounds(c, clock, k, begin, latest, total, frame, render);
      && k < out.ticks && InBlocks(out.reports, k, total)
      && Prompt(out.reports, clock, k, out.ticks, begin, latest, MAX_UPLOAD_TIME)
    decreases c.room
  {
    hide UploadRounds, RoundSends, Prompt, InBlocks, News;
    var news := News(clock, k, begin, latest, total);
    var latest' := if clock(k) - latest > INTERVAL then clock(k) else latest;
    if clock(k) - begin > MAX_UPLOAD_TIME {
      UploadStops(c, clock, k, begin, latest, total, frame, render);
      NothingMissing(clock, k, begin, latest, MAX_UPLOAD_TIME, total);
    } else {
      UploadGoesOn(c, clock, k, begin, latest, total, frame, render);
      var w := RoundSends(c, clock, k, begin, latest, total, frame, render).1;
      var later, end := [], k + 1;
      if w.err == NoErr {
        UploadPrompt(w.chan, clock, k + 1, begin, latest', total + UPLOAD_BUFFER, frame, render);
        var rest := UploadRounds(w.chan, clock, k + 1, begin, latest', total + UPLOAD_BUFFER, frame, render);
        later, end := rest.reports, rest.ticks;
      } else {
        NothingDue(clock, k + 1, begin, latest', MAX_UPLOAD_TIME, total + 8192);
        assert news + [] == news;
      }
      PromptRound(clock, k, end, begin, latest, MAX_UPLOAD_TIME, total, later);
      BlocksLater(clock, k, begin, latest, total, later);
    }
  }

  lemma NothingMissing(clock: Clock, k: nat, begin: real, latest: real, limit: real, total: nat)
    requires clock(k) - begin > limit
    ensures Prompt([], clock, k, k + 1, begin, latest, limit) && InBlocks([], k, total)
  {
  }

  lemma NothingDue(clock: Clock, k: nat, begin: real, latest: real, limit: real, total: nat)
    ensures Prompt([], clock, k, k, begin, latest, limit) && InBlocks([], k, total)
  {
  }

  lemma ClientFrameThere(first: byte, m: Mask, payload: bytes)
    ensures ClientFrame(first, m, payload) != []
  {
  }

  /** An upload sends at most 39 measurements, whatever the clock says: more than a
      quarter of a second apart, but none missing when that time is over, each
      with the time and with 8192 bytes for every round before it. */
  lemma UploadCadence(c: Chan, clock: Clock, k: nat, payload: bytes, render: Renderer)
    ensures var out := Upload(c, clock, k, payload, render);
      var rs := out.reports;
      && |rs| <= 39
      && (forall i :: 0 <= i < |rs| ==> 0.25 * (i + 1) as real < rs[i].elapsed <= 10.0)
      && (forall i :: 0 <= i < |rs| - 1 ==> rs[i + 1].elapsed - rs[i].elapsed > 0.25)
      && (forall i, j :: 0 <= i < j < |rs| ==> rs[i].total <= rs[j].total)
      && (forall r :: r in rs ==>
            && k < r.tick < out.ticks && r.elapsed == clock(r.tick) - clock(k)
            && r.total == 8192 * (r.tick - k - 1))
      && (forall t :: k < t < out.ticks && clock(t) - clock(k) <= 10.0 ==> Covered(rs, clock, t, clock(k)))
  {
    hide UploadRounds, Covered, Paced, ClientFrame;
    var frame := ClientFrame(BINARY_BYTE, c.masks(c.drawn), payload);
    var c' := c.(drawn := c.drawn + 1);
    ClientFrameThere(BINARY_BYTE, c.masks(c.drawn), payload);
    UploadPaced(c', clock, k + 1, clock(k), clock(k), 0, frame, render);
    UploadPrompt(c', clock, k + 1, clock(k), clock(k), 0, frame, render);
    PacedFromStart(Upload(c, clock, k, payload, render).reports, MAX_UPLOAD_TIME);
  }

  // ----- download -----

  datatype Downloaded = Downloaded(ok: bool, err: Err, chan: Chan, total: nat, reports: seq<Report>,
        results: seq<bytes>, ticks: nat, elapsed: real)

  lemma RecvMsgShrinks(c: Chan, total: nat)
    requires RecvMsg(c, total).err == NoErr
    ensures |RecvMsg(c, total).chan.input| < |c.input|
  {
    var ws, after := RecvSound(c, total, 0, [], false);
    hide RecvMsg;
    RecvComplete(c, total, 0, [], false, ws, after);
    assert |Encode(ws)| > 0;
  }

  /** One message after another until the server closes the connection. */
  function DownloadRounds(c: Chan, clock: Clock, k: nat, begin: real, latest: real, total: nat,
        maxRuntime: nat): Downloaded
    decreases |c.input|
  {
    var now := clock(k);
    var elapsed := now - begin;
    if elapsed > maxRuntime as real then Downloaded(false, NoErr, c, total, [], [], k + 1, elapsed)
    else
      var due := now - latest > INTERVAL;
      var reports := if due then [Report(k, total, elapsed)] else [];
      var m := RecvMsg(c, DOWNLOAD_BUFFER);
      if m.err != NoErr then Downloaded(m.err == Eof, m.err, m.chan, total, reports, [], k + 1, elapsed)
      else
        RecvMsgShrinks(c, DOWNLOAD_BUFFER);
        var rest := DownloadRounds(m.chan, clock, k + 1, begin, if due then now else latest, total + |m.data|,
              maxRuntime);
        var results := if m.opcode == OP_TEXT then [m.data] else [];
        rest.(reports := reports + rest.reports, results := results + rest.results)
  }

  function Download(c: Chan, clock: Clock, k: nat, maxRuntime: nat): Downloaded {
    DownloadRounds(c, clock, k + 1, clock(k), clock(k), 0, maxRuntime)
  }

  /** A download with some reports and results before it. */
  ghost function After(rs: seq<Report>, ts: seq<bytes>, d: Downloaded): Downloaded {
    d.(reports := rs + d.reports, results := ts + d.results)
  }

  /** A round in which a message is received. */
  lemma DownloadGoesOn(c: Chan, clock: Clock, k: nat, begin: real, latest: real, total: nat, max: nat)
    requires clock(k) - begin <= max as real && RecvMsg(c, DOWNLOAD_BUFFER).err == NoErr
    ensures var m := RecvMsg(c, DOWNLOAD_BUFFER);
      var latest' := if clock(k) - latest > INTERVAL then clock(k) else latest;
      && |m.chan.input| < |c.input|
      && DownloadRounds(c, clock, k, begin, latest, total, max)
         == After(News(clock, k, begin, latest, total), if m.opcode == OP_TEXT then [m.data] else [],
                  DownloadRounds(m.chan, clock, k + 1, begin, latest', total + |m.data|, max))
  {
    hide RecvMsg;
    RecvMsgShrinks(c, DOWNLOAD_BUFFER);
  }

  /** A round that is the last: the time is up, or receiving fails. */
  lemma DownloadEnds(c: Chan, clock: Clock, k: nat, begin: real, latest: real, total: nat, max: nat)
    requires clock(k) - begin > max as real || RecvMsg(c, DOWNLOAD_BUFFER).err != NoErr
    ensures var late, m := clock(k) - begin > max as real, RecvMsg(c, DOWNLOAD_BUFFER);
      DownloadRounds(c, clock, k, begin, latest, total, max) ==
        if late then Downloaded(false, NoErr, c, total, [], [], k + 1, clock(k) - begin)
        else Downloaded(m.err == Eof, m.err, m.chan, total, News(clock, k, begin, latest, total), [], k + 1,
              clock(k) - begin)
  {
  }

  /** The messages that frames carry, one after the other. */
  ghost predicate AreMessages(ms: seq<seq<Wire>>, limit: nat) {
    forall i :: 0 <= i < |ms| ==> AllLegal(ms[i]) && IsMessage(ms[i], 0x100_0000, limit, 0, false)
  }

  function TotalPayload(ms: seq<seq<Wire>>): nat {
    if ms == [] then 0 else |Payload(ms[0])| + TotalPayload(ms[1..])
  }

  function TextPayloads(ms: seq<seq<Wire>>): seq<bytes> {
    if ms == [] then []
    else (if Opcode(ms[0]) == OP_TEXT then [Payload(ms[0])] else []) + TextPayloads(ms[1..])
  }

  function Flat(ms: seq<seq<Wire>>): seq<Wire> {
    if ms == [] then [] else ms[0] + Flat(ms[1..])
  }

  /** What a download has counted when its last receive begins: the messages
      before it, each received in full and its PINGs answered. */
  ghost predicate Counted(c: Chan, last: Chan, ms: seq<seq<Wire>>, total: int, results: seq<bytes>) {
    && AreMessages(ms, IoLimit(c.tls))
    && Answered(c, last, NoErr, Flat(ms))
    && total == TotalPayload(ms)
    && results == TextPayloads(ms)
  }

  lemma AnsweredInFront(c: Chan, ws: seq<Wire>, after: bytes, last: Chan, vs: seq<Wire>)
    requires StartsWith(c, ws, DOWNLOAD_BUFFER) && c.input == Encode(ws) + after
    requires Answered(Advance(c, after, Replies(ws)), last, NoErr, vs)
    ensures Answered(c, last, NoErr, ws + vs)
  {
    hide Encode, IsMessage, AllLegal, Stream, Replies, Answered;
    MessageHasNoClose(ws, DOWNLOAD_BUFFER, IoLimit(c.tls), 0, false);
    AnsweredInFull(c, ws, after);
    AnsweredThen(c, Advance(c, after, Replies(ws)), ws, last, NoErr, vs);
  }

  /** One more message in front. */
  lemma CountedInFront(c: Chan, ws: seq<Wire>, after: bytes, last: Chan, ms: seq<seq<Wire>>, total: int,
        results: seq<bytes>)
    requires StartsWith(c, ws, DOWNLOAD_BUFFER) && c.input == Encode(ws) + after
    requires Counted(Advance(c, after, Replies(ws)), last, ms, total, results)
    ensures Counted(c, last, [ws] + ms, |Payload(ws)| + total,
          (if Opcode(ws) == OP_TEXT then [Payload(ws)] else []) + results)
  {
    hide Encode, IsMessage, Payload, Opcode, AllLegal, Stream, Replies, Answered;
    AnsweredInFront(c, ws, after, last, Flat(ms));
    assert ([ws] + ms)[1..] == ms;
  }

  lemma MessageTaken(c: Chan) returns (ws: seq<Wire>, after: bytes)
    requires RecvMsg(c, DOWNLOAD_BUFFER).err == NoErr
    ensures StartsWith(c, ws, DOWNLOAD_BUFFER) && c.input == Encode(ws) + after
    ensures RecvMsg(c, DOWNLOAD_BUFFER) == MsgOut(NoErr, Opcode(ws), Payload(ws), Advance(c, after, Replies(ws)))
  {
    hide RecvMsg, Encode, IsMessage, Payload, Opcode, AllLegal, Stream, Replies;
    ws, after := RecvSound(c, DOWNLOAD_BUFFER, 0, [], false);
    RecvComplete(c, DOWNLOAD_BUFFER, 0, [], false, ws, after);
    assert [] + Payload(ws) == Payload(ws);
  }

  /** What `DownloadCounts` is about. */
  ghost predicate EndsAt(c: Chan, total: nat, out: Downloaded, ms: seq<seq<Wire>>, last: Chan) {
    var m := RecvMsg(last, DOWNLOAD_BUFFER);
    && Counted(c, last, ms, out.total - total, out.results)
    && (if out.err == NoErr then out.chan == last else out.err == m.err && out.chan == m.chan)
    && (out.ok <==> out.err == Eof)
  }

  lemma EndsHere(c: Chan, total: nat, out: Downloaded)
    requires out.total == total && out.results == [] && (out.ok <==> out.err == Eof)
    requires var m := RecvMsg(c, DOWNLOAD_BUFFER);
      if out.err == NoErr then out.chan == c else out.err == m.err && out.chan == m.chan
    ensures EndsAt(c, total, out, [], c)
  {
    hide RecvMsg, Answered;
    NothingTaken(c.input);
    NothingYet(c, c, NoErr);
  }

  lemma EndsLater(c: Chan, total: nat, rest: Downloaded, news: seq<Report>, ws: seq<Wire>, after: bytes,
        ms: seq<seq<Wire>>, last: Chan)
    requires StartsWith(c, ws, DOWNLOAD_BUFFER) && c.input == Encode(ws) + after
    requires EndsAt(Advance(c, after, Replies(ws)), total + |Payload(ws)|, rest, ms, last)
    ensures EndsAt(c, total, After(news, if Opcode(ws) == OP_TEXT then [Payload(ws)] else [], rest), [ws] + ms, last)
  {
    hide Counted, StartsWith, RecvMsg, Encode, Payload, Opcode, Stream, Replies;
    CountedInFront(c, ws, after, last, ms, rest.total - total - |Payload(ws)|, rest.results);
  }

  /** There is a clock reading for each of the messages and one more, which ends
      the time; and every report counts the messages received before it. */
  ghost predicate Tallied(out: Downloaded, clock: Clock, k: nat, begin: real, total: nat, ms: seq<seq<Wire>>) {
    && out.ticks == k + |ms| + 1
    && out.elapsed == clock(k + |ms|) - begin
    && forall r :: r in out.reports ==>
         k <= r.tick <= k + |ms| && r.total == total + TotalPayload(ms[..r.tick - k])
  }

  lemma TalliedHere(out: Downloaded, clock: Clock, k: nat, begin: real, latest: real, total: nat)
    requires out.ticks == k + 1 && out.elapsed == clock(k) - begin
    requires out.reports == [] || out.reports == News(clock, k, begin, latest, total)
    ensures Tallied(out, clock, k, begin, total, [])
  {
  }

  lemma TalliedLater(rest: Downloaded, clock: Clock, k: nat, begin: real, latest: real, total: nat, ws: seq<Wire>,
                     ms: seq<seq<Wire>>, texts: seq<bytes>)
    requires Tallied(rest, clock, k + 1, begin, total + |Payload(ws)|, ms)
    ensures Tallied(After(News(clock, k, begin, latest, total), texts, rest), clock, k, begin, total, [ws] + ms)
  {
    hide Payload;
    var all := [ws] + ms;
    assert all[..0] == [];
    forall n: nat | n <= |ms|
      ensures TotalPayload(all[..n + 1]) == |Payload(ws)| + TotalPayload(ms[..n])
    {
      assert all[..n + 1][0] == ws && all[..n + 1][1..] == ms[..n];
    }
    forall r | r in rest.reports
      ensures r.total == total + TotalPayload(all[..r.tick - k])
    {
      assert r.tick - k == (r.tick - (k + 1)) + 1;
    }
  }

  /** A download ends with a receive that fails, or before it when its time is up. */
  lemma {:induction false} DownloadCounts(c: Chan, clock: Clock, k: nat, begin: real, latest: real, total: nat,
        maxRuntime: nat)
      returns (ms: seq<seq<Wire>>, last: Chan)
    ensures EndsAt(c, total, DownloadRounds(c, clock, k, begin, latest, total, maxRuntime), ms, last)
    ensures Tallied(DownloadRounds(c, clock, k, begin, latest, total, maxRuntime), clock, k, begin, total, ms)
    decreases |c.input|
  {
    hide RecvMsg, EndsAt, DownloadRounds, StartsWith, Encode, Payload, Opcode, Stream, Replies, News, Tallied;
    var m := RecvMsg(c, DOWNLOAD_BUFFER);
    if clock(k) - begin > maxRuntime as real || m.err != NoErr {
      DownloadEnds(c, clock, k, begin, latest, total, maxRuntime);
      ms, last := [], c;
      EndsHere(c, total, DownloadRounds(c, clock, k, begin, latest, total, maxRuntime));
      TalliedHere(DownloadRounds(c, clock, k, begin, latest, total, maxRuntime), clock, k, begin, latest, total);
    } else {
      DownloadGoesOn(c, clock, k, begin, latest, total, maxRuntime);
      var ws, after := MessageTaken(c);
      var latest' := if clock(k) - latest > INTERVAL then clock(k) else latest;
      ms, last := DownloadCounts(m.chan, clock, k + 1, begin, latest', total + |m.data|, maxRuntime);
      var rest := DownloadRounds(m.chan, clock, k + 1, begin, latest', total + |m.data|, maxRuntime);
      EndsLater(c, total, rest, News(clock, k, begin, latest, total), ws, after, ms, last);
      TalliedLater(rest, clock, k, begin, latest, total, ws, ms,
                   if Opcode(ws) == OP_TEXT then [Payload(ws)] else []);
      ms := [ws] + ms;
    }
  }

  /** Over every download, whether it succeeds or not, every PING is answered in
      order; at most one CLOSE is sent, only by a download that succeeds, and
      nothing is sent after it. */
  lemma {:induction false} DownloadAnswers(c: Chan, clock: Clock, k: nat, begin: real, latest: real, total: nat,
        maxRuntime: nat)
      returns (ws: seq<Wire>)
    ensures var out := DownloadRounds(c, clock, k, begin, latest, total, maxRuntime);
      Answered(c, out.chan, out.err, ws)
    decreases |c.input|
  {
    hide RecvMsg, Answered;
    var out := DownloadRounds(c, clock, k, begin, latest, total, maxRuntime);
    var now := clock(k);
    if now - begin > maxRuntime as real {
      NothingTaken(c.input);
      NothingYet(c, c, NoErr);
      return [];
    }
    var m := RecvMsg(c, DOWNLOAD_BUFFER);
    ws := RecvAnswers(c, DOWNLOAD_BUFFER, 0, [], false);
    if m.err == NoErr {
      RecvMsgShrinks(c, DOWNLOAD_BUFFER);
      var vs := DownloadAnswers(m.chan, clock, k + 1, begin, if now - latest > INTERVAL then now else latest,
            total + |m.data|, maxRuntime);
      AnsweredThen(c, m.chan, ws, out.chan, out.err, vs);
      ws := ws + vs;
    }
  }

  lemma {:induction false} CloseComesLast(ws: seq<Wire>)
    requires forall i :: 0 <= i < |ws| && ws[i].opcode == OP_CLOSE ==> i == |ws| - 1
    ensures forall i :: 0 <= i < |Replies(ws)| && Replies(ws)[i].first == CLOSE_BYTE ==> i == |Replies(ws)| - 1
    ensures (forall i :: 0 <= i < |ws| ==> ws[i].opcode != OP_CLOSE) ==>
      forall i :: 0 <= i < |Replies(ws)| ==> Replies(ws)[i].first != CLOSE_BYTE
  {
    if ws == [] {
    } else {
      CloseComesLast(ws[1..]);
      assert PONG_BYTE != CLOSE_BYTE;
    }
  }

  lemma {:induction false} DownloadPrompt(c: Chan, clock: Clock, k: nat, begin: real, latest: real, total: nat,
                                          maxRuntime: nat)
    ensures var out := DownloadRounds(c, clock, k, begin, latest, total, maxRuntime);
      k < out.ticks && Prompt(out.reports, clock, k, out.ticks, begin, latest, maxRuntime as real)
    decreases |c.input|
  {
    hide RecvMsg, DownloadRounds, Prompt, News, InBlocks;
    var limit := maxRuntime as real;
    var m := RecvMsg(c, DOWNLOAD_BUFFER);
    var latest' := if clock(k) - latest > INTERVAL then clock(k) else latest;
    if clock(k) - begin > limit {
      DownloadEnds(c, clock, k, begin, latest, total, maxRuntime);
      NothingMissing(clock, k, begin, latest, limit, total);
    } else if m.err != NoErr {
      DownloadEnds(c, clock, k, begin, latest, total, maxRuntime);
      NothingDue(clock, k + 1, begin, latest', limit, total);
      PromptRound(clock, k, k + 1, begin, latest, limit, total, []);
      assert News(clock, k, begin, latest, total) + [] == News(clock, k, begin, latest, total);
    } else {
      DownloadGoesOn(c, clock, k, begin, latest, total, maxRuntime);
      DownloadPrompt(m.chan, clock, k + 1, begin, latest', total + |m.data|, maxRuntime);
      var rest := DownloadRounds(m.chan, clock, k + 1, begin, latest', total + |m.data|, maxRuntime);
      PromptRound(clock, k, rest.ticks, begin, latest, limit, total, rest.reports);
    }
  }

  lemma {:induction false} DownloadPaced(c: Chan, clock: Clock, k: nat, begin: real, latest: real, total: nat,
                                         maxRuntime: nat)
    ensures Paced(DownloadRounds(c, clock, k, begin, latest, total, maxRuntime).reports, latest - begin,
          maxRuntime as real, total)
    decreases |c.input|
  {
    hide RecvMsg, DownloadRounds, Paced, News;
    var limit := maxRuntime as real;
    var m := RecvMsg(c, DOWNLOAD_BUFFER);
    var latest' := if clock(k) - latest > INTERVAL then clock(k) else latest;
    if clock(k) - begin > limit {
      DownloadEnds(c, clock, k, begin, latest, total, maxRuntime);
      NoReports(latest - begin, limit, total);
    } else if m.err != NoErr {
      DownloadEnds(c, clock, k, begin, latest, total, maxRuntime);
      NoReports(latest' - begin, limit, total);
      PacedRound(clock, k, begin, latest, limit, total, [], total);
      assert News(clock, k, begin, latest, total) + [] == News(clock, k, begin, latest, total);
    } else {
      DownloadGoesOn(c, clock, k, begin, latest, total, maxRuntime);
      var rest := DownloadRounds(m.chan, clock, k + 1, begin, latest', total + |m.data|, maxRuntime);
      DownloadPaced(m.chan, clock, k + 1, begin, latest', total + |m.data|, maxRuntime);
      PacedRound(clock, k, begin, latest, limit, total, rest.reports, total + |m.data|);
    }
  }

  /** A download counts exactly the payload bytes of the complete messages from
      the first byte after the handshake on, up to the place where no complete
      message is left that could be received, and hands over exactly the text
      messages among them; it never counts control frames, nor a message that a
      CLOSE, the end of the stream or an error cuts short. Each report counts the
      messages before it. Every PING received is answered, in order; at most one
      CLOSE is sent, only by a download that succeeds, and nothing is sent after
      it. */
  lemma DownloadExact(c: Chan, clock: Clock, k: nat, maxRuntime: nat)
      returns (ms: seq<seq<Wire>>, last: Chan, ws: seq<Wire>)
    ensures var out := Download(c, clock, k, maxRuntime);
      && Counted(c, last, ms, out.total, out.results)
      && (out.err != NoErr ==> forall vs :: !StartsWith(last, vs, 0x100_0000))
      && (out.err == NoErr ==> out.chan == last)
      && (out.ok <==> out.err == Eof)
      && Answered(c, out.chan, out.err, ws)
      && out.elapsed == clock(k + 1 + |ms|) - clock(k)
      && (forall r :: r in out.reports ==>
            k < r.tick <= k + 1 + |ms| && r.total == TotalPayload(ms[..r.tick - k - 1]))
    ensures forall i :: 0 <= i < |Replies(ws)| && Replies(ws)[i].first == 0x88 ==>
      i == |Replies(ws)| - 1 && Download(c, clock, k, maxRuntime).ok
  {
    hide DownloadRounds, Stream, Counted, RecvMsg, StartsWith;
    ms, last := DownloadCounts(c, clock, k + 1, clock(k), clock(k), 0, maxRuntime);
    RecvMsgExact(last, DOWNLOAD_BUFFER);
    ws := DownloadAnswers(c, clock, k + 1, clock(k), clock(k), 0, maxRuntime);
    CloseComesLast(ws);
  }

  /** A download of `maxRuntime` seconds reports fewer than four times as often,
      and never at all if it may not run: more than a quarter of a second apart,
      but none missing when that time is over and a message has come. */
  lemma DownloadCadence(c: Chan, clock: Clock, k: nat, maxRuntime: nat)
    ensures var out := Download(c, clock, k, maxRuntime);
      var rs := out.reports;
      && (rs == [] || |rs| < 4 * maxRuntime)
      && (forall i :: 0 <= i < |rs| ==> 0.25 * (i + 1) as real < rs[i].elapsed <= maxRuntime as real)
      && (forall i :: 0 <= i < |rs| - 1 ==> rs[i + 1].elapsed - rs[i].elapsed > 0.25)
      && (forall i, j :: 0 <= i < j < |rs| ==> rs[i].total <= rs[j].total)
      && (forall r :: r in rs ==> k < r.tick < out.ticks && r.elapsed == clock(r.tick) - clock(k))
      && (forall t :: k < t < out.ticks && clock(t) - clock(k) <= maxRuntime as real ==>
            Covered(rs, clock, t, clock(k)))
  {
    hide DownloadRounds, Covered, Paced;
    DownloadPaced(c, clock, k + 1, clock(k), clock(k), 0, maxRuntime);
    DownloadPrompt(c, clock, k + 1, clock(k), clock(k), 0, maxRuntime);
    PacedFromStart(Download(c, clock, k, maxRuntime).reports, maxRuntime as real);
  }
}

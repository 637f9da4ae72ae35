/** The ndt7 tests as the client runs them, one server after the other. */
module Ndt7 {
  import opened Bytes
  import opened Netx
  import opened Rfc6455
  import opened Frames
  import opened Messages
  import opened MessageReceiver
  import opened Ownership
  import opened Dialling
  import opened TestLoops
  import opened WholeRun

  /** An upload with some reports before it. */
  ghost function Following(rs: seq<Report>, u: Uploaded): Uploaded {
    u.(reports := rs + u.reports)
  }

  lemma NothingBefore(d: Downloaded)
    ensures After([], [], d) == d
  {
  }

  lemma AfterMore(rs: seq<Report>, ts: seq<bytes>, x: seq<Report>, y: seq<bytes>, d: Downloaded)
    ensures After(rs, ts, After(x, y, d)) == After(rs + x, ts + y, d)
  {
  }

  lemma NothingMore(rs: seq<Report>, ts: seq<bytes>, d: Downloaded)
    requires d.results == []
    ensures After(rs, ts, d) == d.(reports := rs + d.reports, results := ts)
  {
  }

  lemma FollowingNothing(rs: seq<Report>, u: Uploaded)
    ensures Following(rs, u) == u.(reports := rs + u.reports)
  {
  }

  lemma FollowingMore(rs: seq<Report>, x: seq<Report>, u: Uploaded)
    ensures Following(rs, Following(x, u)) == Following(rs + x, u)
  {
  }

  /** One round of an upload. */
  lemma UploadRound(c: Chan, clock: Clock, k: nat, begin: real, latest: real, total: nat, frame: bytes,
        render: Renderer)
    requires frame != []
    ensures var u := UploadRounds(c, clock, k, begin, latest, total, frame, render);
      var elapsed, news := clock(k) - begin, News(clock, k, begin, latest, total);
      var (s, w) := RoundSends(c, clock, k, begin, latest, total, frame, render);
      if elapsed > MAX_UPLOAD_TIME then u == Uploaded(true, c, total, [], k + 1, elapsed)
      else if w.err != NoErr then u == Uploaded(false, w.chan, total, news, k + 1, elapsed)
      else
        && w.chan.room < c.room
        && u == Following(news, UploadRounds(w.chan, clock, k + 1, begin, if news != [] then clock(k) else latest,
                                             total + UPLOAD_BUFFER, frame, render))
  {
  }

  /** The strings fit in memory, and an upload's payload has its fixed size. */
  predicate PlanFits(p: Plan) {
    |p.target.hostHeader| + |p.target.port| + |p.target.path| <= SIZE_MAX - 200 && |p.payload| == UPLOAD_BUFFER
  }

  predicate OffersFit(offers: seq<Offer>) {
    forall i :: 0 <= i < |offers| && offers[i].At? ==> PlanFits(offers[i].plan)
  }

  lemma NoMetricsYet(inspect: bytes -> Finding)
    ensures MetricsOf([], inspect) == NO_METRICS
  {
  }

  lemma MetricsMore(ts: seq<bytes>, texts: seq<bytes>, inspect: bytes -> Finding)
    requires |texts| <= 1
    ensures MetricsOf(ts + texts, inspect)
      == if texts == [] then MetricsOf(ts, inspect) else Noted(MetricsOf(ts, inspect), inspect(texts[0]))
  {
    if texts == [] {
      assert ts + texts == ts;
    } else {
      assert texts == [texts[0]];
      MetricsNext(ts, texts[0], inspect);
    }
  }

  class Tester {
    const client: Client
    const env: Env
    var ticks: nat
    var downloadSpeed: real
    var uploadSpeed: real
    var metrics: Metrics
    var reports: seq<Report>    // calls of `on_performance`
    var results: seq<bytes>     // calls of `on_result`

    constructor (client: Client, env: Env)
      ensures this.client == client && this.env == env
      ensures ticks == 0 && Summary() == BLANK
    {
      this.client, this.env := client, env;
      ticks, downloadSpeed, uploadSpeed, metrics, reports, results := 0, 0.0, 0.0, NO_METRICS, [], [];
    }

    lemma ShownMore(a: seq<Report>, b: seq<Report>)
      ensures Shown(a + b) == Shown(a) + Shown(b) && Shown([]) == []
    {
    }

    ghost function Shown(rs: seq<Report>): seq<Report> {
      WholeRun.Shown(env.summaryOnly, rs)
    }

    ghost function Summary(): Summary
      reads this
    {
      WholeRun.Summary(downloadSpeed, uploadSpeed, metrics, reports, results)
    }

    method Now() returns (t: real)
      modifies this`ticks
      ensures t == env.clock(old(ticks)) && ticks == old(ticks) + 1
    {
      t := env.clock(ticks);
      ticks := ticks + 1;
    }

    method OnPerformance(r: Report)
      modifies this`reports
      ensures reports == old(reports) + Shown([r])
    {
      if !env.summaryOnly {
        reports := reports + [r];
      }
    }

    /** Reports, unless the last report was too short a time ago. */
    method ReportIfDue(tick: nat, now: real, begin: real, latest: real, total: nat) returns (latest': real)
      requires now == env.clock(tick)
      modifies this`reports
      ensures latest' == if now - latest > INTERVAL then now else latest
      ensures reports == old(reports) + Shown(News(env.clock, tick, begin, latest, total))
    {
      latest' := latest;
      if now - latest > INTERVAL {
        OnPerformance(Report(tick, total, now - begin));
        latest' := now;
      } else {
        assert old(reports) + [] == old(reports);
      }
    }

    /** Takes note of a text from the server and hands it over. */
    method OnText(text: bytes)
      modifies this`metrics, this`results
      ensures metrics == Noted(old(metrics), env.inspect(text))
      ensures results == old(results) + [text]
    {
      metrics := Noted(metrics, env.inspect(text));
      results := results + [text];
    }

    /** Starts the clock and downloads. */
    method Receive() returns (ok: bool)
      modifies this, client.conn
      ensures var d := Download(old(client.conn.View()), env.clock, old(ticks), env.maxRuntime);
        && ok == d.ok && client.conn.View() == d.chan && ticks == d.ticks
        && Summary() == AfterDownload(old(Summary()), d, env)
    {
      hide client.conn.View, DownloadRounds, SpeedKbits;
      var begin := Now();
      downloadSpeed, metrics := 0.0, NO_METRICS;
      ok := ReceiveRounds(begin);
    }

    /** One round: the clock, a report if one is due, and a message. */
    method ReceiveRound(buff: array<byte>, begin: real, latest: real, total: nat)
      returns (more: bool, ok: bool, elapsed: real, latest': real, total': nat,
               ghost news: seq<Report>, ghost texts: seq<bytes>)
      requires buff.Length == DOWNLOAD_BUFFER
      modifies this`ticks, this`reports, this`results, this`metrics, client.conn, buff
      ensures reports == old(reports) + Shown(news) && results == old(results) + texts
      ensures texts == [] ==> metrics == old(metrics)
      ensures texts != [] ==> |texts| == 1 && metrics == Noted(old(metrics), env.inspect(texts[0]))
      ensures var d := DownloadRounds(old(client.conn.View()), env.clock, old(ticks), begin, latest, total,
            env.maxRuntime);
        if more then
          && |client.conn.View().input| < |old(client.conn.View()).input|
          && d == After(news, texts, DownloadRounds(client.conn.View(), env.clock, ticks, begin, latest', total',
                env.maxRuntime))
        else
          && texts == [] && total' == total
          && d == Downloaded(ok, d.err, client.conn.View(), total, news, [], ticks, elapsed)
    {
      hide client.conn.View, RecvMsg, DownloadRounds, After, News, Shown;
      more, ok, latest', total', news, texts := false, false, latest, total, [], [];
      ghost var c := client.conn.View();
      var tick := ticks;
      var now := Now();
      elapsed := now - begin;
      ShownMore([], []);
      if elapsed > env.maxRuntime as real {
        DownloadEnds(c, env.clock, tick, begin, latest, total, env.maxRuntime);
        return;
      }
      news := News(env.clock, tick, begin, latest, total);
      latest' := ReportIfDue(tick, now, begin, latest, total);
      var err, opcode, count := WsRecvMsg(client.conn, buff, DOWNLOAD_BUFFER);
      if err != NoErr {
        DownloadEnds(c, env.clock, tick, begin, latest, total, env.maxRuntime);
        ok := err == Eof;
        return;
      }
      DownloadGoesOn(c, env.clock, tick, begin, latest, total, env.maxRuntime);
      if opcode == OP_TEXT {
        texts := [buff[..count]];
        OnText(buff[..count]);
      }
      more, total' := true, total + count;
    }

    /** Receives messages until the server closes the connection. */
    method ReceiveRounds(begin: real) returns (ok: bool)
      requires downloadSpeed == 0.0 && metrics == NO_METRICS
      modifies this, client.conn
      ensures var d := DownloadRounds(old(client.conn.View()), env.clock, old(ticks), begin, begin, 0, env.maxRuntime);
        && ok == d.ok && client.conn.View() == d.chan && ticks == d.ticks
        && Summary() == AfterDownload(old(Summary()), d, env)
    {
      hide client.conn.View, DownloadRounds, After, WholeRun.Shown, SpeedKbits, Noted, MetricsOf;
      ghost var d := DownloadRounds(client.conn.View(), env.clock, ticks, begin, begin, 0, env.maxRuntime);
      var buff := new byte[DOWNLOAD_BUFFER];
      var latest: real, total: nat, elapsed := begin, 0, 0.0;
      ghost var rs: seq<Report>, ts: seq<bytes> := [], [];
      ShownMore([], []);
      NothingBefore(d);
      NoMetricsYet(env.inspect);
      var more := true;
      ok := false;
      while more
        invariant downloadSpeed == 0.0 && uploadSpeed == old(uploadSpeed)
        invariant metrics == MetricsOf(ts, env.inspect)
        invariant reports == old(reports) + Shown(rs)
        invariant results == old(results) + ts
        invariant more ==>
          d == After(rs, ts, DownloadRounds(client.conn.View(), env.clock, ticks, begin, latest, total, env.maxRuntime))
        invariant !more ==> d == Downloaded(ok, d.err, client.conn.View(), total, rs, ts, ticks, elapsed)
        decreases more, |client.conn.View().input|
      {
        ghost var news, texts;
        ghost var round := DownloadRounds(client.conn.View(), env.clock, ticks, begin, latest, total, env.maxRuntime);
        more, ok, elapsed, latest, total, news, texts := ReceiveRound(buff, begin, latest, total);
        if more {
          AfterMore(rs, ts, news, texts,
                    DownloadRounds(client.conn.View(), env.clock, ticks, begin, latest, total, env.maxRuntime));
        } else {
          NothingMore(rs, ts, round);
        }
        MetricsMore(ts, texts, env.inspect);
        ShownMore(rs, news);
        rs, ts := rs + news, ts + texts;
      }
      if ok {
        downloadSpeed := SpeedKbits(total, elapsed);
      }
    }

    /** Prepares the one binary frame and uploads it. */
    method Transmit(buff: array<byte>) returns (ok: bool)
      requires buff.Length == UPLOAD_BUFFER
      modifies this, client.conn, buff
      ensures var u := Upload(old(client.conn.View()), env.clock, old(ticks), old(buff[..]), env.render);
        && ok == u.ok && client.conn.View() == u.chan && ticks == u.ticks
        && Summary() == AfterUpload(old(Summary()), u, env)
    {
      hide Arriving, InFault, Capacity, OutFault, ClientFrame, UploadRounds, Overlay, Masked, Rendered, SpeedKbits,
            Shown;
      var conn := client.conn;
      ghost var c, payload := conn.View(), buff[..];
      var begin := Now();
      uploadSpeed := 0.0;
      assert payload == buff[0..UPLOAD_BUFFER];
      var frame := WsPrepareFrame(conn, OP_BINARY | FIN_FLAG, buff, 0, UPLOAD_BUFFER);
      FrameNotEmpty(BINARY_BYTE, c.masks(c.drawn), payload);
      ok := SendRounds(frame, begin);
    }

    /** Sends a measurement, unless the last one was too short a time ago. */
    method SendIfDue(tick: nat, now: real, begin: real, latest: real, total: nat, ghost frame: bytes)
      returns (err: Err, latest': real)
      requires now == env.clock(tick)
      modifies this`reports, this`results, client.conn
      ensures var s := RoundSends(old(client.conn.View()), env.clock, tick, begin, latest, total, frame, env.render).0;
        err == s.err && client.conn.View() == s.chan
      ensures var news := News(env.clock, tick, begin, latest, total);
        && latest' == (if news != [] then now else latest)
        && reports == old(reports) + Shown(news) && results == old(results) + Rendered(news, env.render)
    {
      hide client.conn.View, Write, SendFrame, Rendered, WholeRun.Shown;
      err, latest' := NoErr, latest;
      if now - latest > INTERVAL {
        err := SendMeasurement(Report(tick, total, now - begin));
        latest' := now;
      } else {
        ShownMore([], []);
        RenderedMore([], [], env.render);
        assert old(reports) + [] == old(reports) && old(results) + [] == old(results);
      }
    }

    /** One round: the clock, a measurement if one is due, and the frame. */
    method SendRound(frame: bytes, begin: real, latest: real, total: nat)
      returns (more: bool, ok: bool, elapsed: real, latest': real, total': nat, ghost news: seq<Report>)
      requires 0 < |frame| <= SIZE_MAX
      modifies this`ticks, this`reports, this`results, client.conn
      ensures reports == old(reports) + Shown(news) && results == old(results) + Rendered(news, env.render)
      ensures var u := UploadRounds(old(client.conn.View()), env.clock, old(ticks), begin, latest, total, frame,
            env.render);
        if more then
          && client.conn.View().room < old(client.conn.View()).room
          && u == Following(news, UploadRounds(client.conn.View(), env.clock, ticks, begin, latest', total', frame,
                env.render))
        else total' == total && u == Uploaded(ok, client.conn.View(), total, news, ticks, elapsed)
    {
      hide client.conn.View, Write, SendFrame, UploadRounds, Following, News, Rendered, WholeRun.Shown;
      UploadRound(client.conn.View(), env.clock, ticks, begin, latest, total, frame, env.render);
      more, ok, latest', total', news := false, true, latest, total, [];
      var tick := ticks;
      var now := Now();
      elapsed := now - begin;
      if elapsed > MAX_UPLOAD_TIME {
        ShownMore([], []);
        RenderedMore([], [], env.render);
        return;
      }
      news := News(env.clock, tick, begin, latest, total);
      var err;
      err, latest' := SendIfDue(tick, now, begin, latest, total, frame);
      if err == NoErr {
        err := client.conn.Sendn(frame);
      }
      if err != NoErr {
        ok := false;
        return;
      }
      more, total' := true, total + UPLOAD_BUFFER;
    }

    /** Sends the frame over and over, and measurements in between. */
    method SendRounds(frame: bytes, begin: real) returns (ok: bool)
      requires 0 < |frame| <= SIZE_MAX
      requires uploadSpeed == 0.0
      modifies this, client.conn
      ensures var u := UploadRounds(old(client.conn.View()), env.clock, old(ticks), begin, begin, 0, frame, env.render);
        && ok == u.ok && client.conn.View() == u.chan && ticks == u.ticks
        && Summary() == AfterUpload(old(Summary()), u, env)
    {
      hide client.conn.View, UploadRounds, Following, Rendered, SpeedKbits, WholeRun.Shown;
      ghost var u := UploadRounds(client.conn.View(), env.clock, ticks, begin, begin, 0, frame, env.render);
      var latest: real, total: nat, elapsed := begin, 0, 0.0;
      ghost var rs: seq<Report> := [];
      ShownMore([], []);
      RenderedMore([], [], env.render);
      NoneBefore(u);
      var more := true;
      ok := false;
      while more
        invariant reports == old(reports) + Shown(rs)
        invariant results == old(results) + Rendered(rs, env.render)
        invariant uploadSpeed == 0.0 && downloadSpeed == old(downloadSpeed) && metrics == old(metrics)
        invariant more ==>
          u == Following(rs, UploadRounds(client.conn.View(), env.clock, ticks, begin, latest, total, frame,
                env.render))
        invariant !more ==> u == Uploaded(ok, client.conn.View(), total, rs, ticks, elapsed)
        decreases more, client.conn.View().room
      {
        ghost var news;
        ghost var round := UploadRounds(client.conn.View(), env.clock, ticks, begin, latest, total, frame, env.render);
        more, ok, elapsed, latest, total, news := SendRound(frame, begin, latest, total);
        if more {
          FollowingMore(rs, news, UploadRounds(client.conn.View(), env.clock, ticks, begin, latest, total, frame,
                env.render));
        } else {
          FollowingNothing(rs, round);
        }
        ShownMore(rs, news);
        RenderedMore(rs, news, env.render);
        rs := rs + news;
      }
      if ok {
        uploadSpeed := SpeedKbits(total, elapsed);
      }
    }

    ghost function World(): World
      reads this, client, client.conn
    {
      WholeRun.World(client.Own(), client.conn.View(), ticks, Summary())
    }

    method Ndt7Download(p: Plan) returns (ok: bool)
      requires PlanFits(p)
      modifies this, client, client.conn, client.errno
      ensures Tested(ok, World()) == TestDownload(old(World()), p, env)
    {
      hide Connect, client.conn.View, Download;
      var err := client.Ndt7Connect(p.target, p.attempt);
      if err != NoErr {
        return false;
      }
      ok := Receive();
    }

    method Ndt7Upload(p: Plan) returns (ok: bool)
      requires PlanFits(p)
      modifies this, client, client.conn, client.errno
      ensures Tested(ok, World()) == TestUpload(old(World()), p, env)
    {
      hide Connect, client.conn.View, Upload;
      var err := client.Ndt7Connect(p.target, p.attempt);
      if err != NoErr {
        return false;
      }
      var buff := new byte[UPLOAD_BUFFER](i requires 0 <= i < UPLOAD_BUFFER => p.payload[i]);
      assert buff[..] == p.payload;
      ok := Transmit(buff);
    }

    /** One kind of test at one server after the other, until one succeeds. */
    method TryServers(upload: bool, offers: seq<Offer>) returns (success: bool)
      requires OffersFit(offers)
      modifies this, client, client.conn, client.errno
      ensures Tested(success, World()) == Phase(upload, old(World()), offers, env, true)
    {
      hide World, TestDownload, TestUpload;
      success := true;
      for i := 0 to |offers|
        invariant Phase(upload, World(), offers[i..], env, success) == Phase(upload, old(World()), offers, env, true)
      {
        assert offers[i..][0] == offers[i] && offers[i..][1..] == offers[i + 1..];
        if offers[i].Missing? {
          continue;
        }
        if upload {
          success := Ndt7Upload(offers[i].plan);
        } else {
          success := Ndt7Download(offers[i].plan);
        }
        if success {
          return;
        }
      }
    }

    method Run(targets: Targets, download: bool, upload: bool) returns (success: bool)
      requires targets.Located? ==> OffersFit(targets.downloads) && OffersFit(targets.uploads)
      modifies this, client, client.conn, client.errno
      ensures Tested(success, World()) == WholeRun.Run(old(World()), targets, download, upload, env)
    {
      hide World, Phase;
      if targets.Unlocated? {
        return false;
      }
      success := true;
      if download {
        success := TryServers(false, targets.downloads);
      }
      if !success {
        return false;
      }
      if upload {
        success := TryServers(true, targets.uploads);
      }
    }

    method SendMeasurement(report: Report) returns (err: Err)
      modifies this`reports, this`results, client.conn
      ensures var out := SendFrame(old(client.conn.View()), TEXT_BYTE, Present(env.render(report)));
        err == out.err && client.conn.View() == out.chan
      ensures reports == old(reports) + Shown([report])
      ensures results == old(results) + Rendered([report], env.render)
    {
      hide client.conn.View, SendFrame;
      OnPerformance(report);
      var json := env.render(report);
      results := results + [json];
      err := SendText(json);
    }

    /** Sends a text, masked in a buffer of its own. */
    method SendText(json: Text) returns (err: Err)
      modifies client.conn
      ensures var out := SendFrame(old(client.conn.View()), TEXT_BYTE, Present(json));
        err == out.err && client.conn.View() == out.chan
    {
      hide client.conn.View, SendFrame;
      var data := new byte[|json|](i requires 0 <= i < |json| => json[i]);
      assert data[0..|json|] == json;
      err := WsSendFrame(client.conn, OP_TEXT | FIN_FLAG, data, 0, |json|);
    }
  }

  lemma FrameNotEmpty(first: byte, m: Mask, payload: bytes)
    ensures 0 < |ClientFrame(first, m, payload)| <= |payload| + 14
  {
  }

  lemma NoneBefore(u: Uploaded)
    ensures Following([], u) == u
  {
  }

  lemma {:induction false} RenderedMore(a: seq<Report>, b: seq<Report>, render: Renderer)
    ensures Rendered(a + b, render) == Rendered(a, render) + Rendered(b, render) && Rendered([], render) == []
  {
    if a == [] {
      assert a + b == b;
    } else {
      RenderedMore(a[1..], b, render);
      assert (a + b)[0] == a[0] && (a + b)[1..] == a[1..] + b;
    }
  }
}

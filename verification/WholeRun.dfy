/** Whole tests, from connecting on, and the whole run over a list of servers. */
module WholeRun {
  import opened Bytes
  import opened Netx
  import opened Rfc6455
  import opened Messages
  import opened Ownership
  import opened TestLoops
  import opened Outcomes

  /** What a test at one server meets, and the random payload of an upload. */
  datatype Plan = Plan(target: Target, attempt: Attempt, payload: bytes)

  /** A server from the list: without the URL that the test needs, or with it. */
  datatype Offer = Missing | At(plan: Plan)

  /** What a text from the server says about the TCP connection: nothing usable,
      the retransmitted and sent bytes, or these and the round-trip time. */
  datatype Finding =
    | Nothing
    | Ratio(retransmitted: int, sent: int)
    | Full(retransmitted: int, sent: int, minRtt: nat)

  datatype Metrics = Metrics(retransmission: real, minRtt: nat)

  const NO_METRICS: Metrics := Metrics(0.0, 0)

  function Noted(m: Metrics, f: Finding): Metrics {
    if f.Nothing? then m
    else
      var ratio := if f.sent != 0 then f.retransmitted as real / f.sent as real else 0.0;
      Metrics(ratio, if f.Full? then f.minRtt else m.minRtt)
  }

  /** What some texts come to, one after the other. */
  function MetricsOf(texts: seq<bytes>, inspect: bytes -> Finding): Metrics {
    if texts == [] then NO_METRICS
    else Noted(MetricsOf(texts[..|texts| - 1], inspect), inspect(texts[|texts| - 1]))
  }

  lemma MetricsNext(texts: seq<bytes>, text: bytes, inspect: bytes -> Finding)
    ensures MetricsOf(texts + [text], inspect) == Noted(MetricsOf(texts, inspect), inspect(text))
  {
  }

  /** The retransmission rate is settled by the last text that has the numbers: it
      is the part of the bytes sent that was sent again, or 0 if none were. */
  lemma {:induction false} LastFindingWins(texts: seq<bytes>, inspect: bytes -> Finding, i: nat)
    requires i < |texts| && !inspect(texts[i]).Nothing?
    requires forall j :: i < j < |texts| ==> inspect(texts[j]).Nothing?
    ensures var f, rate := inspect(texts[i]), MetricsOf(texts, inspect).retransmission;
      if f.sent == 0 then rate == 0.0 else rate * f.sent as real == f.retransmitted as real
    decreases |texts|
  {
    if i < |texts| - 1 {
      LastFindingWins(texts[..|texts| - 1], inspect, i);
    } else {
      Divided(inspect(texts[i]).retransmitted, inspect(texts[i]).sent);
    }
  }

  lemma Divided(a: int, b: int)
    ensures b != 0 ==> (a as real / b as real) * b as real == a as real
  {
  }

  /** The round-trip time is settled by the last text that has it. */
  lemma {:induction false} LastRttWins(texts: seq<bytes>, inspect: bytes -> Finding, i: nat)
    requires i < |texts| && inspect(texts[i]).Full?
    requires forall j :: i < j < |texts| ==> !inspect(texts[j]).Full?
    ensures MetricsOf(texts, inspect).minRtt == inspect(texts[i]).minRtt
    decreases |texts|
  {
    if i < |texts| - 1 {
      LastRttWins(texts[..|texts| - 1], inspect, i);
    }
  }

  /** Without such texts both are zero. */
  lemma {:induction false} NoFinding(texts: seq<bytes>, inspect: bytes -> Finding)
    ensures (forall i :: 0 <= i < |texts| ==> inspect(texts[i]).Nothing?) ==>
      MetricsOf(texts, inspect).retransmission == 0.0
    ensures (forall i :: 0 <= i < |texts| ==> !inspect(texts[i]).Full?) ==> MetricsOf(texts, inspect).minRtt == 0
    decreases |texts|
  {
    if texts == [] {
    } else {
      NoFinding(texts[..|texts| - 1], inspect);
    }
  }

  /** The summary, and what the callbacks have been given: measurements by
      `on_performance` and texts by `on_result`. */
  datatype Summary = Summary(downloadSpeed: real, uploadSpeed: real, metrics: Metrics, reports: seq<Report>,
        results: seq<bytes>)

  const BLANK: Summary := Summary(0.0, 0.0, NO_METRICS, [], [])

  datatype World = World(own: Own, chan: Chan, ticks: nat, summary: Summary)

  /** `inspect` is what the client finds in a text from the server. */
  datatype Env = Env(clock: Clock, maxRuntime: nat, render: Renderer, inspect: bytes -> Finding, summaryOnly: bool)

  /** The measurements handed to `on_performance`. */
  function Shown(summaryOnly: bool, rs: seq<Report>): seq<Report> {
    if summaryOnly then [] else rs
  }

  function AfterDownload(s: Summary, d: Downloaded, env: Env): Summary {
    s.(downloadSpeed := if d.ok then SpeedKbits(d.total, d.elapsed) else 0.0,
       metrics := MetricsOf(d.results, env.inspect),
       reports := s.reports + Shown(env.summaryOnly, d.reports), results := s.results + d.results)
  }

  function AfterUpload(s: Summary, u: Uploaded, env: Env): Summary {
    s.(uploadSpeed := if u.ok then SpeedKbits(u.total, u.elapsed) else 0.0,
       reports := s.reports + Shown(env.summaryOnly, u.reports), results := s.results + Rendered(u.reports, env.render))
  }

  datatype Tested = Tested(ok: bool, world: World)

  function TestDownload(w: World, p: Plan, env: Env): Tested {
    var n := Connect(w.own, w.chan, p.target, p.attempt);
    if n.err != NoErr then Tested(false, World(n.own, n.chan, w.ticks, w.summary))
    else
      var d := Download(n.chan, env.clock, w.ticks, env.maxRuntime);
      Tested(d.ok, World(n.own, d.chan, d.ticks, AfterDownload(w.summary, d, env)))
  }

  function TestUpload(w: World, p: Plan, env: Env): Tested {
    var n := Connect(w.own, w.chan, p.target, p.attempt);
    if n.err != NoErr then Tested(false, World(n.own, n.chan, w.ticks, w.summary))
    else
      var u := Upload(n.chan, env.clock, w.ticks, p.payload, env.render);
      Tested(u.ok, World(n.own, u.chan, u.ticks, AfterUpload(w.summary, u, env)))
  }

  function Test(upload: bool, w: World, p: Plan, env: Env): Tested {
    if upload then TestUpload(w, p, env) else TestDownload(w, p, env)
  }

  /** Trying one server after the other until a test succeeds. `success` is the
      outcome so far. */
  function Phase(upload: bool, w: World, offers: seq<Offer>, env: Env, success: bool): Tested
    decreases |offers|
  {
    if offers == [] then Tested(success, w)
    else match offers[0]
      case Missing => Phase(upload, w, offers[1..], env, success)
      case At(p) =>
        var t := Test(upload, w, p, env);
        if t.ok then t else Phase(upload, t.world, offers[1..], env, false)
  }

  /** What the Locate query comes to: the servers, as far as each kind of test goes. */
  datatype Targets =
    | Unlocated
    | Located(downloads: seq<Offer>, uploads: seq<Offer>)

  /** The run: downloads first, then, unless they failed, uploads. */
  function Run(w: World, targets: Targets, download: bool, upload: bool, env: Env): Tested {
    if targets.Unlocated? then Tested(false, w)
    else
      var d := if download then Phase(false, w, targets.downloads, env, true) else Tested(true, w);
      if !d.ok || !upload then d else Phase(true, d.world, targets.uploads, env, true)
  }

  // ----- when a run succeeds -----

  ghost predicate NobodyOffers(offers: seq<Offer>) {
    forall i :: 0 <= i < |offers| ==> offers[i].Missing?
  }

  function AfterTest(upload: bool, w: World, offer: Offer, env: Env): World {
    if offer.Missing? then w else Test(upload, w, offer.plan, env).world
  }

  /** The world after the test at each of the servers. */
  function AfterTests(upload: bool, w: World, offers: seq<Offer>, env: Env): World
    decreases |offers|
  {
    if offers == [] then w else AfterTests(upload, AfterTest(upload, w, offers[0], env), offers[1..], env)
  }

  /** The test succeeds at server number `i` after the tests at those before it. */
  ghost predicate WorksAt(upload: bool, w: World, offers: seq<Offer>, env: Env, i: nat) {
    && i < |offers|
    && offers[i].At?
    && Test(upload, AfterTests(upload, w, offers[..i], env), offers[i].plan, env).ok
  }

  /** And it fails at all of those, as far as they offer it. */
  ghost predicate FirstWorks(upload: bool, w: World, offers: seq<Offer>, env: Env, i: nat) {
    WorksAt(upload, w, offers, env, i) && forall j: nat :: j < i ==> !WorksAt(upload, w, offers, env, j)
  }

  ghost predicate SomeServerWorks(upload: bool, w: World, offers: seq<Offer>, env: Env) {
    exists i :: FirstWorks(upload, w, offers, env, i)
  }

  /** Behind the first server things are as if the test there had been made before. */
  lemma WorksLater(upload: bool, w: World, offers: seq<Offer>, env: Env, i: nat)
    requires i + 1 < |offers|
    ensures var next, tail := AfterTest(upload, w, offers[0], env), offers[1..];
      && AfterTests(upload, w, offers[..i + 1], env) == AfterTests(upload, next, tail[..i], env)
      && (WorksAt(upload, w, offers, env, i + 1) <==> WorksAt(upload, next, tail, env, i))
  {
    hide Test, AfterTest;
    assert offers[..i + 1][0] == offers[0] && offers[..i + 1][1..] == offers[1..][..i];
  }

  lemma FirstWorksLater(upload: bool, w: World, offers: seq<Offer>, env: Env, i: nat)
    requires FirstWorks(upload, w, offers, env, i + 1)
    ensures FirstWorks(upload, AfterTest(upload, w, offers[0], env), offers[1..], env, i)
    ensures !WorksAt(upload, w, offers, env, 0)
  {
    assert i + 1 < |offers|;
    hide WorksAt, AfterTest;
    forall j: nat | j <= i
      ensures WorksAt(upload, w, offers, env, j + 1)
        <==> WorksAt(upload, AfterTest(upload, w, offers[0], env), offers[1..], env, j)
    {
      WorksLater(upload, w, offers, env, j);
    }
  }

  /** If the test works at a server but at none before it, then everything is as
      that test leaves it, run in the world that the failing tests have left. */
  lemma {:induction false} PhaseAt(upload: bool, w: World, offers: seq<Offer>, env: Env, success: bool, i: nat)
    requires FirstWorks(upload, w, offers, env, i)
    ensures i < |offers| && offers[i].At?
    ensures Phase(upload, w, offers, env, success)
      == Test(upload, AfterTests(upload, w, offers[..i], env), offers[i].plan, env)
    decreases i
  {
    hide Test;
    assert offers[..0] == [];
    if i > 0 {
      FirstWorksLater(upload, w, offers, env, i - 1);
      WorksLater(upload, w, offers, env, i - 1);
      var next, tail := AfterTest(upload, w, offers[0], env), offers[1..];
      PhaseAt(upload, next, tail, env, success && offers[0].Missing?, i - 1);
    }
  }

  /** If it works at none then all have been tried, and it counts as a success only
      if none of them offers the test and nothing failed before. */
  lemma {:induction false} PhaseNone(upload: bool, w: World, offers: seq<Offer>, env: Env, success: bool)
    requires forall i: nat :: !WorksAt(upload, w, offers, env, i)
    ensures Phase(upload, w, offers, env, success)
      == Tested(success && NobodyOffers(offers), AfterTests(upload, w, offers, env))
    decreases |offers|
  {
    if offers == [] {
    } else {
      var next, tail := AfterTest(upload, w, offers[0], env), offers[1..];
      assert offers[..0] == [] && !WorksAt(upload, w, offers, env, 0);
      hide Test;
      forall i: nat
        ensures !WorksAt(upload, next, tail, env, i)
      {
        if i < |tail| {
          WorksLater(upload, w, offers, env, i);
        }
      }
      NobodyOffersLater(offers);
      PhaseNone(upload, next, tail, env, success && offers[0].Missing?);
    }
  }

  lemma NobodyOffersLater(offers: seq<Offer>)
    requires offers != []
    ensures NobodyOffers(offers) <==> offers[0].Missing? && NobodyOffers(offers[1..])
  {
  }

  lemma LeastWorks(upload: bool, w: World, offers: seq<Offer>, env: Env, i: nat) returns (k: nat)
    requires WorksAt(upload, w, offers, env, i)
    ensures FirstWorks(upload, w, offers, env, k)
  {
    hide WorksAt;
    k := 0;
    while !WorksAt(upload, w, offers, env, k)
      invariant k <= i && forall j: nat :: j < k ==> !WorksAt(upload, w, offers, env, j)
      decreases i - k
    {
      k := k + 1;
    }
  }

  /** A list of servers counts as a success exactly if the test succeeds at one
      of them, or if none of them offers it and there was no failure before. */
  lemma PhaseExact(upload: bool, w: World, offers: seq<Offer>, env: Env, success: bool)
    ensures Phase(upload, w, offers, env, success).ok <==>
      SomeServerWorks(upload, w, offers, env) || (success && NobodyOffers(offers))
  {
    hide Phase, Test, NobodyOffers;
    if i: nat :| WorksAt(upload, w, offers, env, i) {
      var k := LeastWorks(upload, w, offers, env, i);
      PhaseAt(upload, w, offers, env, success, k);
    } else {
      PhaseNone(upload, w, offers, env, success);
    }
  }

  /** Exactly when a run succeeds. In particular one that never ran a test does,
      if no server offers one; and a run without servers never does. */
  lemma RunExact(w: World, targets: Targets, download: bool, upload: bool, env: Env)
    ensures Run(w, targets, download, upload, env).ok <==>
      && targets.Located?
      && (download ==> SomeServerWorks(false, w, targets.downloads, env) || NobodyOffers(targets.downloads))
      && (upload ==> SomeServerWorks(true, AfterDownloads(w, targets, download, env), targets.uploads, env)
                     || NobodyOffers(targets.uploads))
  {
    hide Phase, SomeServerWorks, NobodyOffers;
    if targets.Located? {
      PhaseExact(false, w, targets.downloads, env, true);
      PhaseExact(true, AfterDownloads(w, targets, download, env), targets.uploads, env, true);
    }
  }

  /** The world in which the uploads begin. */
  function AfterDownloads(w: World, targets: Targets, download: bool, env: Env): World {
    if targets.Located? && download then Phase(false, w, targets.downloads, env, true).world else w
  }

  /** Exactly when the test at a server succeeds, in terms of the clock and of the
      connection made to it: an upload lasts until its time is up, and a download
      until the server closes, in time. */
  lemma TestExact(upload: bool, w: World, p: Plan, env: Env)
    requires |p.payload| == UPLOAD_BUFFER
    ensures var n := Connect(w.own, w.chan, p.target, p.attempt);
      Test(upload, w, p, env).ok <==>
        && n.err == NoErr
        && if upload then exists i :: UploadLasts(n.chan, env.clock, w.ticks, env.render, i)
           else DownloadLasts(n.chan, env.clock, w.ticks, env.maxRuntime)
  {
    hide Connect, Upload, Download, UploadLasts, DownloadLasts;
    var n := Connect(w.own, w.chan, p.target, p.attempt);
    UploadExact(n.chan, env.clock, w.ticks, p.payload, env.render);
    DownloadSucceeds(n.chan, env.clock, w.ticks, env.maxRuntime);
  }

  /** Uploads leave the download's speed and the metrics alone. */
  lemma {:induction false} UploadKeepsSpeed(w: World, offers: seq<Offer>, env: Env, success: bool)
    ensures var s := Phase(true, w, offers, env, success).world.summary;
      s.downloadSpeed == w.summary.downloadSpeed && s.metrics == w.summary.metrics
    decreases |offers|
  {
    hide Connect, Upload;
    if offers == [] {
    } else {
      match offers[0]
      case Missing => UploadKeepsSpeed(w, offers[1..], env, success);
      case At(p) => UploadKeepsSpeed(TestUpload(w, p, env).world, offers[1..], env, false);
    }
  }

  /** The connection on which a test at one of the servers runs. */
  function Dialled(upload: bool, w: World, offers: seq<Offer>, env: Env, i: nat): Connection
    requires i < |offers| && offers[i].At?
  {
    var before, p := AfterTests(upload, w, offers[..i], env), offers[i].plan;
    Connect(before.own, before.chan, p.target, p.attempt)
  }

  /** The speed of so many bytes in that time: in kilobits per second, of 8 bits to
      the byte and 1000 bits to the kilobit. */
  predicate IsSpeed(speed: real, total: nat, elapsed: real) {
    if elapsed > 0.0 then speed * 1000.0 * elapsed == 8.0 * total as real else speed == 0.0
  }

  lemma SpeedIs(total: nat, elapsed: real)
    ensures IsSpeed(SpeedKbits(total, elapsed), total, elapsed)
  {
  }

  /** The download speed that a run ends with, if some server works: it is made
      from the payload bytes of the complete messages that the first such server
      sent after its handshake, control frames and cut-off messages not counted,
      and from the time up to that server's CLOSE or end of stream; and the
      metrics from that server's texts. */
  lemma DownloadSpeedIsGenuine(w: World, targets: Targets, upload: bool, env: Env, i: nat)
      returns (ms: seq<seq<Wire>>, last: Chan)
    requires targets.Located? && FirstWorks(false, w, targets.downloads, env, i)
    ensures i < |targets.downloads| && targets.downloads[i].At?
    ensures var n := Dialled(false, w, targets.downloads, env, i);
      var k := AfterTests(false, w, targets.downloads[..i], env).ticks;
      var d := Download(n.chan, env.clock, k, env.maxRuntime);
      && n.err == NoErr && d.err == Eof
      && Counted(n.chan, last, ms, d.total, d.results)
      && RecvMsg(last, 0x100_0000).err != NoErr
      && d.elapsed == env.clock(k + 1 + |ms|) - env.clock(k)
      && var s := Run(w, targets, true, upload, env).world.summary;
      && IsSpeed(s.downloadSpeed, TotalPayload(ms), d.elapsed)
      && s.metrics == MetricsOf(TextPayloads(ms), env.inspect)
  {
    hide Connect, Download, Counted, SpeedKbits, IsSpeed, RecvMsg, Phase, AfterTests;
    PhaseAt(false, w, targets.downloads, env, true, i);
    var n := Dialled(false, w, targets.downloads, env, i);
    var k := AfterTests(false, w, targets.downloads[..i], env).ticks;
    ms, last := DownloadTotal(n.chan, env.clock, k, env.maxRuntime);
    SpeedIs(TotalPayload(ms), Download(n.chan, env.clock, k, env.maxRuntime).elapsed);
    UploadKeepsSpeed(Phase(false, w, targets.downloads, env, true).world, targets.uploads, env, true);
  }

  /** The upload speed that a run ends with, if some server works: it is made from
      8192 times the number of binary frames that the first such server can split
      out of what the client sent after the handshake, and nothing else is there
      but measurements. */
  lemma UploadSpeedIsGenuine(w: World, targets: Targets, download: bool, env: Env, i: nat)
      returns (msgs: seq<ClientMsg>)
    requires targets.Located?
    requires download ==> Phase(false, w, targets.downloads, env, true).ok
    requires FirstWorks(true, AfterDownloads(w, targets, download, env), targets.uploads, env, i)
    requires i < |targets.uploads| && targets.uploads[i].At? && |targets.uploads[i].plan.payload| == UPLOAD_BUFFER
    ensures var w' := AfterDownloads(w, targets, download, env);
      var n := Dialled(true, w', targets.uploads, env, i);
      var k, payload := AfterTests(true, w', targets.uploads[..i], env).ticks, targets.uploads[i].plan.payload;
      var u := Upload(n.chan, env.clock, k, payload, env.render);
      && n.err == NoErr && u.ok
      && n.chan.sent <= u.chan.sent
      && SplitMasked(u.chan.sent[|n.chan.sent|..]) == Whole(msgs)
      && UploadMsgs(msgs, payload)
      && IsSpeed(Run(w, targets, download, true, env).world.summary.uploadSpeed, 8192 * Binaries(msgs), u.elapsed)
  {
    hide Connect, Upload, SpeedKbits, IsSpeed, Phase, AfterTests, SplitMasked, UploadMsgs, Binaries;
    var w' := AfterDownloads(w, targets, download, env);
    PhaseAt(true, w', targets.uploads, env, true, i);
    var n := Dialled(true, w', targets.uploads, env, i);
    var k := AfterTests(true, w', targets.uploads[..i], env).ticks;
    var keys;
    msgs, keys := ServerSeesUpload(n.chan, env.clock, k, targets.uploads[i].plan.payload, env.render);
    SpeedIs(8192 * Binaries(msgs), Upload(n.chan, env.clock, k, targets.uploads[i].plan.payload, env.render).elapsed);
  }

  lemma DownloadTotal(c: Chan, clock: Clock, k: nat, maxRuntime: nat) returns (ms: seq<seq<Wire>>, last: Chan)
    ensures var d := Download(c, clock, k, maxRuntime);
      && Counted(c, last, ms, d.total, d.results)
      && d.total == TotalPayload(ms) && d.results == TextPayloads(ms)
      && d.elapsed == clock(k + 1 + |ms|) - clock(k)
      && (d.ok ==> d.err == Eof && RecvMsg(last, DOWNLOAD_BUFFER).err != NoErr)
  {
    hide DownloadRounds, RecvMsg, Answered, AreMessages;
    ms, last := DownloadCounts(c, clock, k + 1, clock(k), clock(k), 0, maxRuntime);
  }

  // ----- what the callbacks are given -----

  /** A test hands its texts to `on_result`, and its measurements to
      `on_performance` unless only the summary is wanted. */
  ghost predicate HandsOver(before: Summary, after: Summary, reports: seq<Report>, texts: seq<bytes>, quiet: bool) {
    && after.results == before.results + texts
    && after.reports == before.reports + if quiet then [] else reports
  }

  lemma TestHandsOver(upload: bool, w: World, p: Plan, env: Env)
    ensures var n, t := Connect(w.own, w.chan, p.target, p.attempt), Test(upload, w, p, env);
      var u := Upload(n.chan, env.clock, w.ticks, p.payload, env.render);
      var d := Download(n.chan, env.clock, w.ticks, env.maxRuntime);
      var quiet := env.summaryOnly;
      if n.err != NoErr then t.world.summary == w.summary
      else if upload then HandsOver(w.summary, t.world.summary, u.reports, Rendered(u.reports, env.render), quiet)
      else HandsOver(w.summary, t.world.summary, d.reports, d.results, quiet)
    ensures Connect(w.own, w.chan, p.target, p.attempt).err == NoErr && !Test(upload, w, p, env).ok ==>
      var s := Test(upload, w, p, env).world.summary; (if upload then s.uploadSpeed else s.downloadSpeed) == 0.0
  {
  }

  // ----- a run is a series of connects -----

  lemma {:induction false} RunTwice(o: Own, a: seq<Step>, b: seq<Step>)
    ensures Ownership.Run(o, a + b) == Ownership.Run(Ownership.Run(o, a), b)
    decreases |a|
  {
    hide Connect;
    if a == [] {
      assert a + b == b;
    } else {
      assert (a + b)[0] == a[0] && (a + b)[1..] == a[1..] + b;
      RunTwice(Connect(o, a[0].chan, a[0].target, a[0].attempt).own, a[1..], b);
    }
  }

  lemma TestConnectsOnce(upload: bool, w: World, p: Plan, env: Env)
    ensures Test(upload, w, p, env).world.own == Ownership.Run(w.own, [Step(w.chan, p.target, p.attempt)])
  {
  }

  /** The connects of one phase, each with the state that the connection is in by then. */
  function PhaseSteps(upload: bool, w: World, offers: seq<Offer>, env: Env): seq<Step>
    decreases |offers|
  {
    if offers == [] then []
    else match offers[0]
      case Missing => PhaseSteps(upload, w, offers[1..], env)
      case At(p) =>
        var t := Test(upload, w, p, env);
        [Step(w.chan, p.target, p.attempt)] + if t.ok then [] else PhaseSteps(upload, t.world, offers[1..], env)
  }

  function RunSteps(w: World, targets: Targets, download: bool, upload: bool, env: Env): seq<Step> {
    if targets.Unlocated? then []
    else
      var d := if download then Phase(false, w, targets.downloads, env, true) else Tested(true, w);
      (if download then PhaseSteps(false, w, targets.downloads, env) else [])
      + (if d.ok && upload then PhaseSteps(true, d.world, targets.uploads, env) else [])
  }

  lemma {:induction false} PhaseConnects(upload: bool, w: World, offers: seq<Offer>, env: Env, success: bool)
    ensures Phase(upload, w, offers, env, success).world.own == Ownership.Run(w.own, PhaseSteps(upload, w, offers, env))
    decreases |offers|
  {
    hide Test, Connect;
    if offers == [] {
    } else {
      match offers[0]
      case Missing =>
        PhaseConnects(upload, w, offers[1..], env, success);
      case At(p) =>
        var t := Test(upload, w, p, env);
        var first := [Step(w.chan, p.target, p.attempt)];
        TestConnectsOnce(upload, w, p, env);
        if t.ok {
          assert first + [] == first;
        } else {
          PhaseConnects(upload, t.world, offers[1..], env, false);
          RunTwice(w.own, first, PhaseSteps(upload, t.world, offers[1..], env));
        }
    }
  }

  /** As far as sockets and TLS objects go, a run is nothing but a series of
      connects, so that all that holds over such series holds over runs. */
  lemma RunConnects(w: World, targets: Targets, download: bool, upload: bool, env: Env)
    ensures Run(w, targets, download, upload, env).world.own
      == Ownership.Run(w.own, RunSteps(w, targets, download, upload, env))
  {
    hide Phase, Connect, PhaseSteps;
    if targets.Located? {
      var d := if download then Phase(false, w, targets.downloads, env, true) else Tested(true, w);
      var first := if download then PhaseSteps(false, w, targets.downloads, env) else [];
      PhaseConnects(false, w, targets.downloads, env, true);
      PhaseConnects(true, d.world, targets.uploads, env, true);
      RunTwice(w.own, first, PhaseSteps(true, d.world, targets.uploads, env));
      assert first + [] == first;
    }
  }

  /** The life of a client that performs one run: whatever fails in it, after the
      destructor no TLS object is left, each was freed exactly once, and the only
      descriptors left open are those of TLS attempts that failed early. */
  lemma LifeOfARun(tls: bool, chan: Chan, targets: Targets, download: bool, upload: bool, env: Env, fd: int, ssl: nat)
    requires Feasible(NewClient(tls), RunSteps(World(NewClient(tls), chan, 0, BLANK), targets, download, upload, env))
    ensures var w := World(NewClient(tls), chan, 0, BLANK);
      var steps := RunSteps(w, targets, download, upload, env);
      var end := Destroy(Run(w, targets, download, upload, env).world.own);
      && Audit(end.trail).Books? && Audit(end.trail).ssl == map[]
      && Installs(end.trail, ssl) == Frees(end.trail, ssl) <= 1
      && Count(end.trail, Closed(fd)) <= Count(end.trail, Opened(fd)) <= Count(end.trail, Closed(fd)) + 1
      && (Audit(end.trail).open == {} <==> NoneLost(NewClient(tls), steps))
      && (NoneLost(NewClient(tls), steps) ==> Count(end.trail, Opened(fd)) == Count(end.trail, Closed(fd)))
      && (!tls ==> NoneLost(NewClient(tls), steps))
  {
    hide Ownership.Run, Run, RunSteps, Feasible, NoneLost, Audit, Destroy, Lost, Count, Installs, Frees;
    var w := World(NewClient(tls), chan, 0, BLANK);
    var steps := RunSteps(w, targets, download, upload, env);
    RunConnects(w, targets, download, upload, env);
    LifeOfAClient(tls, steps, fd, ssl);
    NewClientInv(tls);
    if !tls {
      PlainLosesNothing(NewClient(tls), steps);
    }
  }

  lemma NewClientInv(tls: bool)
    ensures Inv(NewClient(tls))
  {
  }
}

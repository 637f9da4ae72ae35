/**
  The static reply as a text, and the URLs in it as the client reads them.
 */
module ReplyUrls {
  import opened Replacement
  import opened Substitution
  import opened Templates
  import opened PassOrder
  import opened Piecewise
  import opened BraceCount
  import opened LocateReply
  import opened Urls

  /** The values are filled in as they are, because no placeholder can be in them. */
  predicate NoBraces(opts: string, scheme: string, hostname: string, port: string) {
    '{' !in opts && '{' !in scheme && '{' !in hostname && '{' !in port
  }

  /** The URL of a test. */
  function TestUrl(opts: string, scheme: string, hostname: string, port: string, test: string): string {
    scheme + "://" + hostname + ":" + port + "/ndt/v7/" + test + "?" + opts
  }

  /** The entry for a test: its key and its URL. */
  function Entry(opts: string, scheme: string, hostname: string, port: string, test: string): string {
    "        \"" + scheme + "://" + "/ndt/v7/" + test + "\": \"" + TestUrl(opts, scheme, hostname, port, test)
  }

  /** The reply up to the entries, between them and behind them. */
  function Head(hostname: string): string {
    "{\n" + "  \"results\": [\n    " + "{\n" + "      \"machine\": \"" + hostname + "\",\n"
  }

  function Middle(): string {
    "      \"location\": " + "{\n" + "        \"city\": \"Your City\",\n" + "        \"country\": \"US\"\n"
    + "      },\n" + "      \"urls\": " + "{\n"
  }

  /** The whole reply. */
  function ReplyText(opts: string, scheme: string, hostname: string, port: string): string {
    Head(hostname) + Middle()
    + Entry(opts, scheme, hostname, port, "download") + "\",\n"
    + Entry(opts, scheme, hostname, port, "upload") + "\"\n"
    + "      }\n    }\n  ]\n}"
  }

  // ----- the template, filled in piece by piece -----

  function Filled(parts: seq<Part>, bindings: seq<Binding>): string {
    Flatten(Simultaneous(parts, bindings))
  }

  lemma {:induction false} FlattenJoined(a: seq<Part>, b: seq<Part>)
    ensures Flatten(a + b) == Flatten(a) + Flatten(b)
  {
    hide Text;
    if a == [] {
      assert a + b == b;
    } else {
      assert (a + b)[0] == a[0] && (a + b)[1..] == a[1..] + b;
      FlattenJoined(a[1..], b);
      Regroup(Text(a[0]), Flatten(a[1..]), Flatten(b));
    }
  }

  lemma Regroup(a: string, b: string, c: string)
    ensures (a + b) + c == a + (b + c)
  {
  }

  lemma FilledJoined(a: seq<Part>, b: seq<Part>, bindings: seq<Binding>)
    ensures Filled(a + b, bindings) == Filled(a, bindings) + Filled(b, bindings)
  {
    assert Simultaneous(a + b, bindings) == Simultaneous(a, bindings) + Simultaneous(b, bindings);
    FlattenJoined(Simultaneous(a, bindings), Simultaneous(b, bindings));
  }

  lemma FilledOne(p: Part, bindings: seq<Binding>)
    ensures Filled([p], bindings) == Text(Lookup(bindings, p))
  {
    var parts := Simultaneous([p], bindings);
    assert parts == [Lookup(bindings, p)];
    assert Flatten(parts) == Text(parts[0]) + Flatten([]);
  }

  /** One more piece in front. */
  lemma FilledNext(p: Part, rest: seq<Part>, bindings: seq<Binding>)
    ensures Filled([p] + rest, bindings) == Text(Lookup(bindings, p)) + Filled(rest, bindings)
  {
    FilledJoined([p], rest, bindings);
    FilledOne(p, bindings);
  }

  lemma FilledLit(text: string, rest: seq<Part>, bindings: seq<Binding>)
    ensures Filled([Lit(text)] + rest, bindings) == text + Filled(rest, bindings)
  {
    FilledNext(Lit(text), rest, bindings);
    LookupLit(bindings, text);
  }

  lemma NamesFilled(opts: string, scheme: string, hostname: string, port: string)
    ensures var all := Bindings(opts, scheme, hostname, port);
      && Lookup(all, Var("hostname")) == Lit(hostname) && Lookup(all, Var("scheme")) == Lit(scheme)
      && Lookup(all, Var("port")) == Lit(port) && Lookup(all, Var("opts")) == Lit(opts)
  {
    var all := Bindings(opts, scheme, hostname, port);
    BindingsDistinct(opts, scheme, hostname, port);
    hide Distinct;
    LookupAt(all, 0);
    LookupAt(all, 1);
    LookupAt(all, 2);
    LookupAt(all, 3);
  }

  /** Six texts in a row, however they are grouped. */
  lemma Six(a: string, b: string, c: string, d: string, e: string, f: string)
    ensures a + (b + (c + (d + (e + f)))) == a + b + c + d + e + f
  {
  }

  lemma KeyFilled(opts: string, scheme: string, hostname: string, port: string, test: string)
    ensures Filled(UrlKey(test), Bindings(opts, scheme, hostname, port))
      == "        \"" + scheme + "://" + "/ndt/v7/" + test + "\": \""
  {
    var all := Bindings(opts, scheme, hostname, port);
    NamesFilled(opts, scheme, hostname, port);
    hide Filled, Bindings, Lookup;
    var f := [Lit("\": \"")];
    var e := [Lit(test)] + f;
    var d := [Lit(TestPath())] + e;
    var c := [Lit("://")] + d;
    var b := [Var("scheme")] + c;
    assert UrlKey(test) == [Lit(KeyStart())] + b;
    FilledLit(KeyStart(), b, all);
    FilledNext(Var("scheme"), c, all);
    FilledLit("://", d, all);
    FilledLit(TestPath(), e, all);
    FilledLit(test, f, all);
    FilledOne(Lit("\": \""), all);
    LookupLit(all, "\": \"");
    Six(KeyStart(), scheme, "://", TestPath(), test, "\": \"");
  }

  lemma Five(a: string, b: string, c: string, d: string, e: string)
    ensures a + (b + (c + (d + e))) == a + b + c + d + e
  {
  }

  lemma AuthorityFilled(opts: string, scheme: string, hostname: string, port: string)
    ensures Filled(UrlAuthority(), Bindings(opts, scheme, hostname, port)) == scheme + "://" + hostname + ":" + port
  {
    var all := Bindings(opts, scheme, hostname, port);
    NamesFilled(opts, scheme, hostname, port);
    hide Filled, Bindings, Lookup;
    var e := [Var("port")];
    var d := [Lit(":")] + e;
    var c := [Var("hostname")] + d;
    var b := [Lit("://")] + c;
    assert UrlAuthority() == [Var("scheme")] + b;
    FilledNext(Var("scheme"), b, all);
    FilledLit("://", c, all);
    FilledNext(Var("hostname"), d, all);
    FilledLit(":", e, all);
    FilledOne(Var("port"), all);
    Five(scheme, "://", hostname, ":", port);
  }

  lemma UrlRegrouped(u: string, a: string, b: string, c: string, d: string, e: string)
    ensures u + (a + b + c + d + e) == u + a + b + c + d + e
  {
  }

  lemma UrlFilled(opts: string, scheme: string, hostname: string, port: string, test: string, end: string)
    ensures Filled(UrlValue(test, end), Bindings(opts, scheme, hostname, port))
      == TestUrl(opts, scheme, hostname, port, test) + end
  {
    var all := Bindings(opts, scheme, hostname, port);
    NamesFilled(opts, scheme, hostname, port);
    AuthorityFilled(opts, scheme, hostname, port);
    hide Filled, Bindings, Lookup, UrlAuthority;
    var e := [Lit(end)];
    var d := [Var("opts")] + e;
    var c := [Lit("?")] + d;
    var b := [Lit(test)] + c;
    var a := [Lit(TestPath())] + b;
    assert UrlValue(test, end) == UrlAuthority() + a;
    FilledJoined(UrlAuthority(), a, all);
    FilledLit(TestPath(), b, all);
    FilledLit(test, c, all);
    FilledLit("?", d, all);
    FilledNext(Var("opts"), e, all);
    FilledOne(Lit(end), all);
    LookupLit(all, end);
    Five(TestPath(), test, "?", opts, end);
    UrlRegrouped(scheme + "://" + hostname + ":" + port, TestPath(), test, "?", opts, end);
  }

  lemma OpeningFilled(opts: string, scheme: string, hostname: string, port: string)
    ensures Filled(Opening(), Bindings(opts, scheme, hostname, port))
      == Head(hostname)
  {
    var all := Bindings(opts, scheme, hostname, port);
    NamesFilled(opts, scheme, hostname, port);
    hide Filled, Bindings, Lookup;
    var f := [Lit("\",\n")];
    var e := [Var("hostname")] + f;
    var d := [Lit(MachineKey())] + e;
    var c := [OPEN] + d;
    var b := [Lit(ResultsLine())] + c;
    assert Opening() == [OPEN] + b;
    FilledLit("{\n", b, all);
    FilledLit(ResultsLine(), c, all);
    FilledLit("{\n", d, all);
    FilledLit(MachineKey(), e, all);
    FilledNext(Var("hostname"), f, all);
    FilledOne(Lit("\",\n"), all);
    LookupLit(all, "\",\n");
    Six("{\n", ResultsLine(), "{\n", MachineKey(), hostname, "\",\n");
  }

  lemma Seven(a: string, b: string, c: string, d: string, e: string, f: string, g: string)
    ensures a + (b + (c + (d + (e + (f + g))))) == a + b + c + d + e + f + g
  {
  }

  lemma LocationFilled(bindings: seq<Binding>)
    ensures Filled(Location(), bindings)
      == Middle()
  {
    hide Filled, Lookup;
    var g := [OPEN];
    var f := [Lit(UrlsKey())] + g;
    var e := [Lit(LocationEnd())] + f;
    var d := [Lit(CountryLine())] + e;
    var c := [Lit(CityLine())] + d;
    var b := [OPEN] + c;
    assert Location() == [Lit(LocationKey())] + b;
    FilledLit(LocationKey(), b, bindings);
    FilledLit("{\n", c, bindings);
    FilledLit(CityLine(), d, bindings);
    FilledLit(CountryLine(), e, bindings);
    FilledLit(LocationEnd(), f, bindings);
    FilledLit(UrlsKey(), g, bindings);
    FilledOne(OPEN, bindings);
    LookupLit(bindings, "{\n");
    Seven(LocationKey(), "{\n", CityLine(), CountryLine(), LocationEnd(), UrlsKey(), "{\n");
  }

  lemma Sections(o: string, l: string, k: string, t: string, e: string, k': string, t': string, e': string, c: string)
    ensures o + l + k + (t + e) + k' + (t' + e') + c == o + l + (k + t) + e + (k' + t') + e' + c
  {
  }

  /** The template with the four values in it. */
  lemma TemplateFilled(opts: string, scheme: string, hostname: string, port: string)
    ensures Filled(StaticTemplate(), Bindings(opts, scheme, hostname, port))
      == ReplyText(opts, scheme, hostname, port)
  {
    var all := Bindings(opts, scheme, hostname, port);
    OpeningFilled(opts, scheme, hostname, port);
    LocationFilled(all);
    KeyFilled(opts, scheme, hostname, port, "download");
    UrlFilled(opts, scheme, hostname, port, "download", "\",\n");
    KeyFilled(opts, scheme, hostname, port, "upload");
    UrlFilled(opts, scheme, hostname, port, "upload", "\"\n");
    FilledOne(Lit(LocateReply.Closing()), all);
    LookupLit(all, LocateReply.Closing());
    hide Filled, Bindings, Lookup, Opening, Location, UrlKey, UrlValue, Head, Middle, TestUrl;
    var one := Opening() + Location();
    var two := one + UrlKey("download");
    var three := two + UrlValue("download", "\",\n");
    var four := three + UrlKey("upload");
    var five := four + UrlValue("upload", "\"\n");
    FilledJoined(Opening(), Location(), all);
    FilledJoined(one, UrlKey("download"), all);
    FilledJoined(two, UrlValue("download", "\",\n"), all);
    FilledJoined(three, UrlKey("upload"), all);
    FilledJoined(four, UrlValue("upload", "\"\n"), all);
    FilledJoined(five, [Lit(LocateReply.Closing())], all);
    Sections(Head(hostname), Middle(),
             Filled(UrlKey("download"), all), TestUrl(opts, scheme, hostname, port, "download"), "\",\n",
             Filled(UrlKey("upload"), all), TestUrl(opts, scheme, hostname, port, "upload"), "\"\n",
             LocateReply.Closing());
  }

  lemma NoPlaceholders(name: string, value: string)
    requires '{' !in value
    ensures !Occurs(Placeholder(name), value)
  {
    MissingLetter(Placeholder(name), value, 0);
  }

  /** What the client gets for such values. */
  lemma ReplyIs(opts: string, scheme: string, hostname: string, port: string)
    requires NoBraces(opts, scheme, hostname, port)
    ensures NoneRepeats(opts, scheme, hostname, port)
    ensures Flatten(Simultaneous(StaticTemplate(), Settled(Bindings(opts, scheme, hostname, port))))
      == ReplyText(opts, scheme, hostname, port)
  {
    var all := Bindings(opts, scheme, hostname, port);
    hide Occurs, Placeholder, Flatten, Simultaneous, StaticTemplate, ReplyText, Settled;
    forall i, j | 0 <= i < |all| && 0 <= j < |all|
      ensures !Occurs(Placeholder(all[j].name), all[i].value)
    {
      NoPlaceholders(all[j].name, all[i].value);
    }
    assert NoneRepeats(opts, scheme, hostname, port) by {
      assert all[0].name == "hostname" && all[1].name == "scheme" && all[2].name == "port" && all[3].name == "opts";
    }
    UndisturbedSettles(all);
    TemplateFilled(opts, scheme, hostname, port);
  }

  // ----- the URLs in it -----

  /** A scheme, host and port as they are written, and options on one line. */
  predicate Usual(opts: string, scheme: string, hostname: string, port: string) {
    && scheme != "" && ':' !in scheme && '/' !in scheme
    && ':' !in hostname && '/' !in hostname
    && port != "" && (forall i :: 0 <= i < |port| ==> '0' <= port[i] <= '9')
    && '\n' !in opts && '\r' !in opts
  }

  function TestPathOf(opts: string, test: string): string {
    "/ndt/v7/" + test + "?" + opts
  }

  lemma UsualParts(opts: string, scheme: string, hostname: string, port: string, test: string)
    requires Usual(opts, scheme, hostname, port) && '\n' !in test && '\r' !in test
    ensures var p := UrlParts(scheme, hostname, port, TestPathOf(opts, test));
      Valid(p) && Unambiguous(hostname) && Print(p) == TestUrl(opts, scheme, hostname, port, test)
  {
  }

  /** The client reads the URL of a test back as what it was made from. */
  lemma TestUrlRead(opts: string, scheme: string, hostname: string, port: string, test: string)
    requires Usual(opts, scheme, hostname, port) && '\n' !in test && '\r' !in test
    ensures ParseWsUrl(TestUrl(opts, scheme, hostname, port, test))
      == UrlParts(scheme, hostname, port, "/ndt/v7/" + test + "?" + opts)
  {
    UsualParts(opts, scheme, hostname, port, test);
    hide Valid, Unambiguous, ParseWsUrl, Print, TestUrl;
    PrintParseExact(UrlParts(scheme, hostname, port, TestPathOf(opts, test)));
  }

  /** The text stands in the reply. */
  lemma Stands(before: string, text: string, behind: string)
    ensures Occurs(text, before + text + behind)
  {
    assert At(before + text + behind, text, |before|);
  }

  /** A test's entry as a reader of the reply looks for it: the quoted key, which is
      a URL without an authority, and the quoted URL of the test. */
  function Quoted(opts: string, scheme: string, hostname: string, port: string, test: string): string {
    "\"" + scheme + ":///ndt/v7/" + test + "\": \"" + TestUrl(opts, scheme, hostname, port, test) + "\""
  }

  lemma Indented(a: string, q: string, s: string, c: string, t: string, k: string, u: string, e: string, x: string,
                 z: string)
    ensures x + (((a + q) + s + c + t + k) + u) + (q + e) + z == (x + a) + (q + s + c + t + k + u + q) + (e + z)
  {
  }

  lemma SlashesJoined(a: string, s: string)
    ensures a + s + "://" + "/ndt/v7/" == a + s + ":///ndt/v7/"
  {
  }

  lemma EntryStands(x: string, opts: string, scheme: string, hostname: string, port: string, test: string, e: string,
                    z: string)
    ensures Occurs(Quoted(opts, scheme, hostname, port, test),
                   x + Entry(opts, scheme, hostname, port, test) + ("\"" + e) + z)
  {
    hide TestUrl, Occurs;
    var url := TestUrl(opts, scheme, hostname, port, test);
    assert "        " + "\"" == "        \"";
    SlashesJoined("        \"", scheme);
    Indented("        ", "\"", scheme, ":///ndt/v7/", test, "\": \"", url, e, x, z);
    Stands(x + "        ", Quoted(opts, scheme, hostname, port, test), e + z);
  }

  /** The reply offers each test at a URL that the client reads back as scheme, host
      name, port, path and options. */
  lemma ReplyOffers(opts: string, scheme: string, hostname: string, port: string, test: string)
    requires NoBraces(opts, scheme, hostname, port) && Usual(opts, scheme, hostname, port)
    requires test == "download" || test == "upload"
    ensures Occurs(Quoted(opts, scheme, hostname, port, test), ReplyText(opts, scheme, hostname, port))
    ensures ParseWsUrl(TestUrl(opts, scheme, hostname, port, test))
      == UrlParts(scheme, hostname, port, "/ndt/v7/" + test + "?" + opts)
  {
    hide Occurs, Quoted, Entry, Head, Middle, ParseWsUrl, TestUrl;
    TestUrlRead(opts, scheme, hostname, port, test);
    var front := Head(hostname) + Middle();
    var d, u := Entry(opts, scheme, hostname, port, "download"), Entry(opts, scheme, hostname, port, "upload");
    var end := "      }\n    }\n  ]\n}";
    assert "\"" + ",\n" == "\",\n" && "\"" + "\n" == "\"\n";
    if test == "download" {
      EntryStands(front, opts, scheme, hostname, port, test, ",\n", u + "\"\n" + end);
      Tail(front + d + "\",\n", u, "\"\n", end);
    } else {
      EntryStands(front + d + "\",\n", opts, scheme, hostname, port, test, "\n", end);
    }
  }

  lemma Tail(a: string, u: string, e: string, end: string)
    ensures a + (u + e + end) == a + u + e + end
  {
  }

  lemma StandsStill(text: string, s: string, more: string)
    requires Occurs(text, s)
    ensures Occurs(text, s + more)
  {
    var i: nat :| At(s, text, i);
    assert At(s + more, text, i);
  }

  lemma HeadNames(hostname: string)
    ensures Occurs("\"machine\": \"" + hostname + "\"", Head(hostname))
  {
    var a := "{\n" + "  \"results\": [\n    " + "{\n";
    assert "      " + "\"machine\": \"" == "      \"machine\": \"" && "\"" + ",\n" == "\",\n";
    HeadRegrouped(a, "      ", "\"machine\": \"", hostname, "\"", ",\n");
    hide Occurs;
    Stands(a + "      ", "\"machine\": \"" + hostname + "\"", ",\n");
  }

  lemma HeadRegrouped(a: string, i: string, m: string, h: string, q: string, c: string)
    ensures a + (i + m) + h + (q + c) == (a + i) + (m + h + q) + c
  {
  }

  /** And it names the machine. */
  lemma ReplyNames(opts: string, scheme: string, hostname: string, port: string)
    ensures Occurs("\"machine\": \"" + hostname + "\"", ReplyText(opts, scheme, hostname, port))
  {
    hide Occurs, Entry, Middle, Head;
    var text := "\"machine\": \"" + hostname + "\"";
    var d, u := Entry(opts, scheme, hostname, port, "download"), Entry(opts, scheme, hostname, port, "upload");
    var one := Head(hostname) + Middle();
    var two := one + d + "\",\n";
    HeadNames(hostname);
    StandsStill(text, Head(hostname), Middle());
    StandsStill(text, one, d);
    StandsStill(text, one + d, "\",\n");
    StandsStill(text, two, u);
    StandsStill(text, two + u, "\"\n");
    StandsStill(text, two + u + "\"\n", "      }\n    }\n  ]\n}");
  }
}

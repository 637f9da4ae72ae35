/** The static reply that stands in for the Locate API. */
module LocateReply {
  import opened Replacement
  import opened Substitution
  import opened Templates
  import opened PassOrder
  import opened Piecewise
  import opened BraceCount

  /** The end of a line that opens an object. */
  const OPEN: Part := Lit("{\n")

  function ResultsLine(): (s: string)
    ensures '{' !in s
  {
    "  \"results\": [\n    "
  }

  function MachineKey(): (s: string)
    ensures '{' !in s
  {
    "      \"machine\": \""
  }

  function LocationKey(): (s: string)
    ensures '{' !in s
  {
    "      \"location\": "
  }

  function CityLine(): (s: string)
    ensures '{' !in s
  {
    "        \"city\": \"Your City\",\n"
  }

  function CountryLine(): (s: string)
    ensures '{' !in s
  {
    "        \"country\": \"US\"\n"
  }

  function LocationEnd(): (s: string)
    ensures '{' !in s
  {
    "      },\n"
  }

  function UrlsKey(): (s: string)
    ensures '{' !in s
  {
    "      \"urls\": "
  }

  function KeyStart(): (s: string)
    ensures '{' !in s
  {
    "        \""
  }

  function TestPath(): (s: string)
    ensures '{' !in s
  {
    "/ndt/v7/"
  }

  function Closing(): (s: string)
    ensures '{' !in s
  {
    "      }\n    }\n  ]\n}"
  }

  function Opening(): seq<Part> {
    [OPEN, Lit(ResultsLine()), OPEN, Lit(MachineKey()), Var("hostname"), Lit("\",\n")]
  }

  function Location(): seq<Part> {
    [Lit(LocationKey()), OPEN, Lit(CityLine()), Lit(CountryLine()), Lit(LocationEnd()), Lit(UrlsKey()), OPEN]
  }

  function UrlKey(test: string): seq<Part> {
    [Lit(KeyStart()), Var("scheme"), Lit("://"), Lit(TestPath()), Lit(test), Lit("\": \"")]
  }

  function UrlAuthority(): seq<Part> {
    [Var("scheme"), Lit("://"), Var("hostname"), Lit(":"), Var("port")]
  }

  function UrlValue(test: string, end: string): seq<Part> {
    UrlAuthority() + [Lit(TestPath()), Lit(test), Lit("?"), Var("opts"), Lit(end)]
  }

  /** The template, cut at its placeholders and at its opening braces. */
  function StaticTemplate(): seq<Part> {
    Opening() + Location() + UrlKey("download") + UrlValue("download", "\",\n")
      + UrlKey("upload") + UrlValue("upload", "\"\n") + [Lit(Closing())]
  }

  // ----- it is a template -----

  /** A name, an opening brace at the end of a line, or text without one. */
  predicate Simple(p: Part) {
    p == OPEN || match p { case Lit(text) => '{' !in text case Var(name) => IsName(name) }
  }

  predicate AllSimple(parts: seq<Part>) {
    forall p :: p in parts ==> Simple(p)
  }

  lemma SimpleTemplate(parts: seq<Part>)
    requires AllSimple(parts)
    ensures Template(parts)
  {
  }

  lemma OpeningSimple()
    ensures AllSimple(Opening())
  {
  }

  lemma LocationSimple()
    ensures AllSimple(Location())
  {
  }

  lemma UrlKeySimple(test: string)
    requires '{' !in test
    ensures AllSimple(UrlKey(test))
  {
  }

  lemma UrlAuthoritySimple()
    ensures AllSimple(UrlAuthority())
  {
    assert Simple(Var("scheme")) && Simple(Lit("://")) && Simple(Var("hostname"));
    assert Simple(Lit(":")) && Simple(Var("port"));
    hide Simple;
  }

  lemma UrlValueSimple(test: string, end: string)
    requires '{' !in test && '{' !in end
    ensures AllSimple(UrlValue(test, end))
  {
    UrlAuthoritySimple();
    hide UrlAuthority, TestPath;
  }

  lemma StaticTemplateTidy()
    ensures Template(StaticTemplate())
  {
    OpeningSimple();
    LocationSimple();
    UrlKeySimple("download");
    UrlValueSimple("download", "\",\n");
    UrlKeySimple("upload");
    UrlValueSimple("upload", "\"\n");
    hide Closing;
    assert Simple(Lit(Closing()));
    hide Simple, Opening, Location, UrlKey, UrlValue;
    SimpleTemplate(StaticTemplate());
  }

  // ----- the reply -----

  function Bindings(opts: string, scheme: string, hostname: string, port: string): seq<Binding> {
    [Binding("hostname", hostname), Binding("scheme", scheme), Binding("port", port), Binding("opts", opts)]
  }

  lemma BindingNames(opts: string, scheme: string, hostname: string, port: string)
    ensures NamesOnly(Bindings(opts, scheme, hostname, port))
  {
    assert IsName("hostname");
    assert IsName("scheme");
    assert IsName("port");
    assert IsName("opts");
    hide IsName;
  }

  lemma NextPass(text: string, all: seq<Binding>)
    requires all != [] && PassesEnd(text, all)
    ensures !Occurs(Placeholder(all[0].name), text) || !Occurs(Placeholder(all[0].name), all[0].value)
    ensures var next := Replaced(text, Placeholder(all[0].name), all[0].value);
      PassesEnd(next, all[1..]) && Passes(text, all) == Passes(next, all[1..])
  {
  }

  lemma NoPass(text: string)
    ensures PassesEnd(text, []) && Passes(text, []) == text
  {
  }

  // ----- it uses every name, and its placeholders are kept apart -----

  /** The character cannot go on with any of the four placeholders. */
  predicate Separates(c: char) {
    c == '"' || c == ':' || c == '/'
  }

  /** Text without an opening brace that begins with such a character. */
  predicate Separator(p: Part) {
    p.Lit? && p.text != "" && Separates(p.text[0]) && '{' !in p.text
  }

  /** Every placeholder is followed by such text. */
  predicate Parted(parts: seq<Part>) {
    && (parts != [] ==> parts[|parts| - 1].Lit?)
    && forall i :: 0 <= i < |parts| - 1 && parts[i].Var? ==> Separator(parts[i + 1])
  }

  lemma PartedJoined(parts: seq<Part>, more: seq<Part>)
    requires Parted(parts) && Parted(more)
    ensures Parted(parts + more)
  {
  }

  lemma StaticTemplateParted()
    ensures Parted(StaticTemplate())
  {
    assert Parted(Opening()) && Parted(Location());
    UrlParted("download", "\",\n");
    UrlParted("upload", "\"\n");
    hide Parted, Opening, Location, UrlKey, UrlValue;
    var one := Opening() + Location();
    var two := one + UrlKey("download");
    var three := two + UrlValue("download", "\",\n");
    var four := three + UrlKey("upload");
    PartedJoined(Opening(), Location());
    PartedJoined(one, UrlKey("download"));
    PartedJoined(two, UrlValue("download", "\",\n"));
    PartedJoined(three, UrlKey("upload"));
    PartedJoined(four, UrlValue("upload", "\"\n"));
    LastPiece();
    PartedJoined(four + UrlValue("upload", "\"\n"), [Lit(Closing())]);
  }

  lemma LastPiece()
    ensures Parted([Lit(Closing())])
  {
  }

  lemma UrlParted(test: string, end: string)
    requires Separator(Lit(end))
    ensures Parted(UrlKey(test)) && Parted(UrlValue(test, end))
  {
  }

  lemma SeparatorsFence(opts: string, scheme: string, hostname: string, port: string, p: Part)
    requires Separator(p)
    ensures Fence(p, Bindings(opts, scheme, hostname, port))
  {
    var all := Bindings(opts, scheme, hostname, port);
    forall b | b in all
      ensures Inert(Placeholder(b.name), p.text) && p.text[0] !in Placeholder(b.name)
    {
      CalmIsInert(b.name, p.text);
    }
  }

  lemma StaticTemplateSpaced(opts: string, scheme: string, hostname: string, port: string)
    ensures Spaced(StaticTemplate(), Bindings(opts, scheme, hostname, port))
  {
    StaticTemplateParted();
    hide Separator, StaticTemplate, Bindings;
    var parts := StaticTemplate();
    forall i | 0 <= i < |parts| - 1 && parts[i].Var?
      ensures Fence(parts[i + 1], Bindings(opts, scheme, hostname, port))
    {
      SeparatorsFence(opts, scheme, hostname, port, parts[i + 1]);
    }
    SeparatorsAreText();
  }

  lemma SeparatorsAreText()
    ensures forall p :: Separator(p) ==> p.Lit?
  {
  }

  lemma UrlNames(test: string, end: string)
    ensures Var("scheme") in UrlValue(test, end) && Var("port") in UrlValue(test, end)
    ensures Var("opts") in UrlValue(test, end)
  {
  }

  lemma BindingsDistinct(opts: string, scheme: string, hostname: string, port: string)
    ensures Distinct(Bindings(opts, scheme, hostname, port))
  {
  }

  lemma StaticTemplateNames(opts: string, scheme: string, hostname: string, port: string)
    ensures forall b :: b in Bindings(opts, scheme, hostname, port) ==> Var(b.name) in StaticTemplate()
    ensures Distinct(Bindings(opts, scheme, hostname, port))
  {
    BindingsDistinct(opts, scheme, hostname, port);
    assert Opening()[4] == Var("hostname");
    UrlNames("upload", "\"\n");
    hide Distinct, Opening, Location, UrlKey, UrlValue;
  }

  // ----- when the reply comes, and what it is -----

  /** No value contains its own placeholder. */
  ghost predicate NoneRepeats(opts: string, scheme: string, hostname: string, port: string)
    ensures NoneRepeats(opts, scheme, hostname, port) <==> NoneOfItself(Bindings(opts, scheme, hostname, port))
  {
    assert Bindings(opts, scheme, hostname, port)[0] in Bindings(opts, scheme, hostname, port);
    assert Bindings(opts, scheme, hostname, port)[1] in Bindings(opts, scheme, hostname, port);
    assert Bindings(opts, scheme, hostname, port)[2] in Bindings(opts, scheme, hostname, port);
    assert Bindings(opts, scheme, hostname, port)[3] in Bindings(opts, scheme, hostname, port);
    && !Occurs(Placeholder("hostname"), hostname)
    && !Occurs(Placeholder("scheme"), scheme)
    && !Occurs(Placeholder("port"), port)
    && !Occurs(Placeholder("opts"), opts)
  }

  /** Exactly when the four loops end. */
  lemma ReplyEndsExactly(opts: string, scheme: string, hostname: string, port: string)
    ensures PassesEnd(Flatten(StaticTemplate()), Bindings(opts, scheme, hostname, port))
      <==> NoneRepeats(opts, scheme, hostname, port)
  {
    hide PassesEnd, Flatten, StaticTemplate, NamesOnly, Distinct, Occurs;
    BindingNames(opts, scheme, hostname, port);
    StaticTemplateNames(opts, scheme, hostname, port);
    hide Bindings;
    TemplateEndsExactly(StaticTemplate(), Bindings(opts, scheme, hostname, port));
  }

  /** The input that shows that they need not: with this host name the first loop
      never ends, whatever the other values are. */
  lemma ReplyHangs(opts: string, scheme: string, port: string)
    ensures !PassesEnd(Flatten(StaticTemplate()), Bindings(opts, scheme, "{{hostname}}", port))
    ensures !Terminates(State(Flatten(StaticTemplate()), 0), "{{hostname}}", "{{hostname}}")
  {
    var name := "{{hostname}}";
    assert Placeholder("hostname") == name;
    assert name[..|name|] == name;
    AtStart(name, |name|);
    hide PassesEnd, Terminates, Flatten;
    ReplyEndsExactly(opts, scheme, name, port);
    StaticTemplateNames(opts, scheme, name, port);
    assert Bindings(opts, scheme, name, port)[0] == Binding("hostname", name);
    var i :| 0 <= i < |StaticTemplate()| && StaticTemplate()[i] == Var("hostname");
    hide StaticTemplate;
    VarOccurs(StaticTemplate(), i);
    TerminatesExactly(Flatten(StaticTemplate()), name, name);
  }

  /** What the reply is, for all values for which there is one: each placeholder
      is replaced by its value run through the later passes, and by nothing else;
      and by its value itself if no value contains a later placeholder. */
  lemma ReplySettles(opts: string, scheme: string, hostname: string, port: string)
    requires NoneRepeats(opts, scheme, hostname, port)
    ensures var all := Bindings(opts, scheme, hostname, port);
      && PassesEnd(Flatten(StaticTemplate()), all)
      && Passes(Flatten(StaticTemplate()), all) == Flatten(Simultaneous(StaticTemplate(), Settled(all)))
      && (Undisturbed(all) ==> Settled(all) == all)
  {
    hide StaticTemplate, Flatten, PassesEnd, Passes, Occurs, Placeholder, Simultaneous, Template, NamesOnly, Spaced,
      Settled, Undisturbed;
    StaticTemplateTidy();
    BindingNames(opts, scheme, hostname, port);
    StaticTemplateSpaced(opts, scheme, hostname, port);
    var all := Bindings(opts, scheme, hostname, port);
    PassesSettle(StaticTemplate(), all);
    if Undisturbed(all) {
      UndisturbedSettles(all);
    }
  }

  /** The four passes, asked for exactly where they end. */
  method GetStaticLocateResult(opts: string, scheme: string, hostname: string, port: string)
    returns (result: string)
    requires NoneRepeats(opts, scheme, hostname, port)
    ensures result == Flatten(Simultaneous(StaticTemplate(), Settled(Bindings(opts, scheme, hostname, port))))
    ensures Undisturbed(Bindings(opts, scheme, hostname, port)) ==>
      result == Flatten(Simultaneous(StaticTemplate(), Bindings(opts, scheme, hostname, port)))
  {
    var templ := Flatten(StaticTemplate());
    ghost var all := Bindings(opts, scheme, hostname, port);
    hide StaticTemplate, Flatten, PassesEnd, Passes, Occurs, Replaced, Placeholder, Simultaneous, Settled, Undisturbed,
      NoneRepeats, NoneOfItself;
    ReplySettles(opts, scheme, hostname, port);
    ghost var later, last := all[1..], all[2..];
    assert later[1..] == last;
    NextPass(templ, all);
    result := ReplaceAllWith(templ, Placeholder("hostname"), hostname);
    NextPass(result, later);
    result := ReplaceAllWith(result, Placeholder("scheme"), scheme);
    NextPass(result, last);
    result := ReplaceAllWith(result, Placeholder("port"), port);
    NextPass(result, last[1..]);
    result := ReplaceAllWith(result, Placeholder("opts"), opts);
    assert last[1..][1..] == [];
    NoPass(result);
  }

  // ----- when it is what it should be -----

  /** For a scheme, a port and options with at most one opening brace each: the
      reply is the template with all placeholders filled in exactly if the host
      name contains none of the three later placeholders. */
  lemma ReplyExactly(opts: string, scheme: string, hostname: string, port: string)
    requires NoneRepeats(opts, scheme, hostname, port)
    requires Opens(scheme) < 2 && Opens(port) < 2 && Opens(opts) < 2
    ensures Agree(StaticTemplate(), Bindings(opts, scheme, hostname, port)) <==>
      && !Occurs(Placeholder("scheme"), hostname)
      && !Occurs(Placeholder("port"), hostname)
      && !Occurs(Placeholder("opts"), hostname)
  {
    hide StaticTemplate, Occurs, Placeholder, Template, NamesOnly, Spaced, Agree, Opens;
    StaticTemplateTidy();
    BindingNames(opts, scheme, hostname, port);
    StaticTemplateNames(opts, scheme, hostname, port);
    StaticTemplateSpaced(opts, scheme, hostname, port);
    var all := Bindings(opts, scheme, hostname, port);
    assert all[0] in all;
    var later := all[1..];
    assert later == [Binding("scheme", scheme), Binding("port", port), Binding("opts", opts)];
    SimultaneousExactly(StaticTemplate(), all);
    assert later[0] in later && later[1] in later && later[2] in later;
  }
}

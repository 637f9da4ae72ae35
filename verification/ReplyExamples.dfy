/**
  Static replies that are not what they should be, and one that is although its
  passes disturb each other.
 */
module ReplyExamples {
  import opened Replacement
  import opened Substitution
  import opened Templates
  import opened PassOrder
  import opened Piecewise
  import opened BraceCount
  import opened LocateReply

  /** With the host name `{{port}}` it is not: the port comes out as the host name. */
  lemma PortAsHost(opts: string, scheme: string, port: string)
    requires Opens(scheme) < 2 && Opens(port) < 2 && Opens(opts) < 2
    ensures NoneRepeats(opts, scheme, "{{port}}", port)
    ensures var parts, all := StaticTemplate(), Bindings(opts, scheme, "{{port}}", port);
      && !Agree(parts, all)
      && PassesEnd(Flatten(parts), all)
      && Passes(Flatten(parts), all) == Flatten(Simultaneous(parts, Bindings(opts, scheme, port, port)))
  {
    hide StaticTemplate, Agree, Passes, PassesEnd, Flatten, Simultaneous, NoneRepeats, Placeholder, Occurs, Opens;
    PortSettles(opts, scheme, port);
    PortSpelled();
    ReplyExactly(opts, scheme, "{{port}}", port);
    ReplySettles(opts, scheme, "{{port}}", port);
  }

  lemma PortSettles(opts: string, scheme: string, port: string)
    requires Opens(scheme) < 2 && Opens(port) < 2 && Opens(opts) < 2
    ensures NoneRepeats(opts, scheme, "{{port}}", port)
    ensures Settled(Bindings(opts, scheme, "{{port}}", port)) == Bindings(opts, scheme, port, port)
  {
    hide Passes, PassesEnd, Placeholder, Occurs, Opens, NamesOnly, IsName, Settled, NoneOfItself;
    PortSpelled();
    FewBraces("scheme", scheme);
    FewBraces("port", port);
    FewBraces("opts", opts);
    var all := Bindings(opts, scheme, "{{port}}", port);
    var later := all[1..];
    assert later == [Binding("scheme", scheme), Binding("port", port), Binding("opts", opts)];
    LaterSettle(opts, scheme, port, later);
    SettledFirst(all);
  }

  lemma SettledFirst(bindings: seq<Binding>)
    requires bindings != [] && NoneOfItself(bindings)
    ensures NoneOfItself(bindings[1..]) && PassesEnd(bindings[0].value, bindings[1..])
    ensures Settled(bindings)
      == [bindings[0].(value := Passes(bindings[0].value, bindings[1..]))] + Settled(bindings[1..])
  {
    AlwaysEnds(bindings[0].value, bindings[1..]);
  }

  lemma LaterSettle(opts: string, scheme: string, port: string, later: seq<Binding>)
    requires later == [Binding("scheme", scheme), Binding("port", port), Binding("opts", opts)]
    requires Opens(scheme) < 2 && Opens(port) < 2 && Opens(opts) < 2
    ensures NoneOfItself(later) && Settled(later) == later
    ensures PassesEnd("{{port}}", later) && Passes("{{port}}", later) == port
  {
    hide Passes, PassesEnd, Placeholder, Occurs, IsName, Settled, Opens;
    PortSpelled();
    BindingNames(opts, scheme, "", port);
    assert forall b :: b in later ==> b in Bindings(opts, scheme, "", port);
    assert later[1..][0] == Binding("port", port);
    assert Lookup(later, Var("port")) == Lit(port);
    FewSettle(later);
    AlwaysEnds("{{port}}", later);
    PassedVar("port", later);
  }

  lemma PortSpelled()
    ensures IsName("port") && Placeholder("port") == "{{port}}"
    ensures Occurs(Placeholder("port"), "{{port}}") && !Occurs(Placeholder("hostname"), "{{port}}")
  {
    var p := Placeholder("port");
    assert p == "{{port}}";
    AtStart(p, |p|);
    assert p[..|p|] == p;
    assert IsName("hostname") && IsName("port");
    hide Inert, Placeholder;
    OtherIsInert("port", "hostname");
    InertMeans(Placeholder("hostname"), p);
  }

  /** The input that shows it. */
  lemma NotSimultaneous()
    ensures var parts, all := StaticTemplate(), Bindings("", "ws", "{{port}}", "80");
      && !Agree(parts, all)
      && PassesEnd(Flatten(parts), all)
      && Passes(Flatten(parts), all) == Flatten(Simultaneous(parts, Bindings("", "ws", "80", "80")))
  {
    hide StaticTemplate, Agree, Passes, PassesEnd, Flatten, Simultaneous;
    PortAsHost("", "ws", "80");
  }

  // ----- a reply that comes right by itself -----

  /** A placeholder within the braces of another. */
  const NESTED: string := "{{{{scheme}}}}"

  lemma SpellNested()
    ensures NESTED == "{{" + Placeholder("scheme") + "}}"
    ensures NESTED[0] == '{' && NESTED[1] == '{' && NESTED[2] == '{' && NESTED[3] == '{'
    ensures 'p' !in NESTED && 'o' !in NESTED
  {
  }

  lemma NestedFound()
    ensures Find(NESTED, Placeholder("scheme"), 0) == Found(2) && Occurs(Placeholder("scheme"), NESTED)
  {
    var p := Placeholder("scheme");
    SpellNested();
    assert p[2] == 's';
    AtAfter("{{", p + "}}", p, 0);
    AtStart(p + "}}", |p|);
    assert (p + "}}")[..|p|] == p;
    assert "{{" + p + "}}" == "{{" + (p + "}}");
    forall j | 0 <= j < 2
      ensures !At(NESTED, p, j)
    {
      assert NESTED[j + 2] == '{';
      if At(NESTED, p, j) {
        Letters(NESTED, p, j);
      }
    }
    FindIs(NESTED, p, 0, 2);
  }

  lemma NestedTurn()
    ensures Turn(State(NESTED, 0), Placeholder("scheme"), "port") == Step(State(Placeholder("port"), 2))
  {
    var p := Placeholder("scheme");
    SpellNested();
    NestedFound();
    assert "{{" + "port" + "}}" == Placeholder("port");
    hide Placeholder, Find, Turn, Occurs;
    TurnAt(State(NESTED, 0), p, "port", 2);
    assert NESTED[..2] == "{{" && NESTED[2 + |p|..] == "}}";
  }

  lemma NothingForScheme()
    ensures !Occurs(Placeholder("scheme"), "port") && !Occurs(Placeholder("scheme"), Placeholder("port"))
  {
  }

  /** The second pass makes another placeholder of it. */
  lemma NestedBecomesPort()
    ensures !Occurs(Placeholder("scheme"), "port")
    ensures Replaced(NESTED, Placeholder("scheme"), "port") == Placeholder("port")
  {
    hide Find, At, Occurs, Outcome, Placeholder, Turn;
    NothingForScheme();
    NestedTurn();
    var p, s' := Placeholder("scheme"), State(Placeholder("port"), 2);
    OutcomeStep(State(NESTED, 0), p, "port", true);
    NoneFound(s'.text, p, 2);
    NoTurn(s', p, "port");
    OutcomeStep(s', p, "port", false);
  }

  lemma NoneFound(s: string, pattern: string, pos: nat)
    requires !Occurs(pattern, s)
    ensures Find(s, pattern, pos) == NotFound
  {
  }

  const RECOVERING: seq<Binding> := Bindings("", "port", NESTED, NESTED)

  lemma Absent()
    ensures !Occurs(Placeholder("hostname"), NESTED)
    ensures !Occurs(Placeholder("port"), NESTED) && !Occurs(Placeholder("opts"), NESTED)
    ensures !Occurs(Placeholder("scheme"), "port")
    ensures !Occurs(Placeholder("port"), "port") && !Occurs(Placeholder("opts"), "port")
    ensures !Occurs(Placeholder("opts"), "")
  {
    SpellNested();
    assert Placeholder("hostname")[3] == 'o' && Placeholder("port")[2] == 'p' && Placeholder("opts")[2] == 'o';
    hide Placeholder, Occurs;
    MissingLetter(Placeholder("hostname"), NESTED, 3);
    MissingLetter(Placeholder("port"), NESTED, 2);
    MissingLetter(Placeholder("opts"), NESTED, 2);
    assert '{' !in "port";
    MissingLetter(Placeholder("scheme"), "port", 0);
    MissingLetter(Placeholder("port"), "port", 0);
    MissingLetter(Placeholder("opts"), "port", 0);
    MissingLetter(Placeholder("opts"), "", 0);
  }

  lemma NoneInside()
    ensures NoneOfItself(RECOVERING)
  {
    Absent();
    hide Occurs, Placeholder;
    assert NoneRepeats("", "port", NESTED, NESTED);
  }

  lemma BindingsBehind(all: seq<Binding>)
    requires all == RECOVERING
    ensures |all| == 4 && all[0] == Binding("hostname", NESTED)
    ensures all[1..] == [Binding("scheme", "port"), Binding("port", NESTED), Binding("opts", "")]
    ensures all[1..][1..] == [Binding("port", NESTED), Binding("opts", "")]
    ensures all[1..][1..][1..] == [Binding("opts", "")] && all[1..][1..][1..][1..] == []
  {
  }

  /** And the third puts it back. */
  lemma NestedReturns(later: seq<Binding>)
    requires later == [Binding("scheme", "port"), Binding("port", NESTED), Binding("opts", "")]
    ensures PassesEnd(NESTED, later) && Passes(NESTED, later) == NESTED
  {
    Absent();
    NestedBecomesPort();
    hide Occurs, Placeholder, Replaced, Passes, PassesEnd;
    assert later[1..] == [Binding("port", NESTED), Binding("opts", "")];
    assert later[1..][1..] == [Binding("opts", "")] && later[1..][1..][1..] == [];
    ReplacedSelf("port", NESTED);
    ReplacedNone(NESTED, Placeholder("opts"), "");
    AlwaysEnds(NESTED, later);
    NextPass(NESTED, later);
    NextPass(Placeholder("port"), later[1..]);
    NextPass(NESTED, later[1..][1..]);
    NoPass(NESTED);
  }

  lemma AllSettled()
    ensures NoneOfItself(RECOVERING) && Settled(RECOVERING) == RECOVERING
  {
    NoneInside();
    Absent();
    hide Occurs, Placeholder, Replaced, Passes, PassesEnd, Bindings, NoneOfItself, Settled;
    var all := RECOVERING;
    BindingsBehind(all);
    var two, three, four := all[1..], all[1..][1..], all[1..][1..][1..];
    SettledFirst(all);
    SettledFirst(two);
    SettledFirst(three);
    SettledFirst(four);
    NestedReturns(two);
    PassedLit("port", three);
    PassedLit(NESTED, four);
    NoPass("");
    NothingToSettle();
    assert all == [all[0]] + two && two == [two[0]] + three && three == [three[0]] + four;
  }

  lemma NothingToSettle()
    ensures NoneOfItself([]) && Settled([]) == []
  {
  }

  /** A host name with the placeholder of a later pass in it, and still the reply
      is as it should be: if the port has two opening braces or more, its pass can
      put back what that of the scheme has changed. */
  lemma ReplyRecovers()
    ensures NoneRepeats("", "port", NESTED, NESTED) && Occurs(Placeholder("scheme"), NESTED)
    ensures Agree(StaticTemplate(), Bindings("", "port", NESTED, NESTED))
  {
    NestedFound();
    hide StaticTemplate, Occurs, Placeholder, Replaced, Passes, PassesEnd, Bindings, NoneRepeats, Settled, Flatten,
      Simultaneous, Find;
    AllSettled();
    ReplySettles("", "port", NESTED, NESTED);
  }
}

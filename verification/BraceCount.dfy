/**
  Passes whose values have at most one opening brace use braces up, so that
  whatever such a pass has changed stays changed.
 */
module BraceCount {
  import opened Replacement
  import opened Substitution
  import opened Templates
  import opened PassOrder
  import opened Piecewise

  /** How many opening braces there are. */
  function Opens(s: string): nat {
    if s == "" then 0 else (if s[0] == '{' then 1 else 0) + Opens(s[1..])
  }

  lemma {:induction false} OpensJoined(a: string, b: string)
    ensures Opens(a + b) == Opens(a) + Opens(b)
  {
    if a == "" {
      assert a + b == b;
    } else {
      OpensJoined(a[1..], b);
      assert (a + b)[1..] == a[1..] + b;
    }
  }

  lemma OpensOfPlaceholder(name: string)
    ensures Opens(Placeholder(name)) >= 2
  {
  }

  /** A placeholder has two of them. */
  lemma NeedsBraces(name: string, s: string, i: nat)
    requires At(s, Placeholder(name), i)
    ensures s == s[..i] + Placeholder(name) + s[i + |Placeholder(name)|..]
    ensures Opens(s) == Opens(s[..i]) + Opens(Placeholder(name)) + Opens(s[i + |Placeholder(name)|..])
    ensures Opens(s) >= 2
  {
    var p := Placeholder(name);
    OpensOfPlaceholder(name);
    OpensJoined(s[..i] + p, s[i + |p|..]);
    OpensJoined(s[..i], p);
  }

  lemma TurnOpens(s: State, name: string, value: string)
    requires Opens(value) < 2 && Turn(s, Placeholder(name), value).Step?
    ensures Opens(Turn(s, Placeholder(name), value).state.text) < Opens(s.text)
  {
    var p, i := Placeholder(name), Find(s.text, Placeholder(name), s.pos).i;
    OpensOfPlaceholder(name);
    NeedsBraces(name, s.text, i);
    hide Placeholder, Find, Opens;
    OpensJoined(s.text[..i] + value, s.text[i + |p|..]);
    OpensJoined(s.text[..i], value);
  }

  lemma {:induction false} OutcomeOpens(s: State, name: string, value: string, first: bool)
    requires Opens(value) < 2 && Ready(s, Placeholder(name), value, first)
    ensures var out := Outcome(s, Placeholder(name), value, first);
      out == s.text || Opens(out) < Opens(s.text)
    ensures Turn(s, Placeholder(name), value).Step? ==>
      Opens(Outcome(s, Placeholder(name), value, first)) < Opens(s.text)
    decreases first, Untouched(s, value)
  {
    hide Opens, Placeholder, Turn;
    if Turn(s, Placeholder(name), value).Step? {
      TurnOpens(s, name, value);
      TurnReady(s, Placeholder(name), value, first);
      OutcomeOpens(Turn(s, Placeholder(name), value).state, name, value, false);
    }
  }

  /** A value with fewer than two braces contains no placeholder. */
  lemma FewBraces(name: string, value: string)
    requires Opens(value) < 2
    ensures !Occurs(Placeholder(name), value)
  {
    forall i: nat
      ensures !At(value, Placeholder(name), i)
    {
      if At(value, Placeholder(name), i) {
        NeedsBraces(name, value, i);
      }
    }
  }

  ghost predicate FewBracesOnly(bindings: seq<Binding>) {
    forall b :: b in bindings ==> Opens(b.value) < 2
  }

  lemma FewOfItself(bindings: seq<Binding>)
    requires FewBracesOnly(bindings)
    ensures NoneOfItself(bindings)
  {
    hide Opens, Occurs;
    forall b | b in bindings
      ensures !Occurs(Placeholder(b.name), b.value)
    {
      FewBraces(b.name, b.value);
    }
  }

  /** Such passes leave a text as it is exactly if it has none of their
      placeholders, and otherwise with fewer braces. */
  lemma {:induction false} PassesOpens(text: string, bindings: seq<Binding>)
    requires FewBracesOnly(bindings)
    ensures PassesEnd(text, bindings)
    ensures if NothingFor(text, bindings) then Passes(text, bindings) == text
            else Opens(Passes(text, bindings)) < Opens(text)
    decreases |bindings|
  {
    FewOfItself(bindings);
    AlwaysEnds(text, bindings);
    if bindings == [] {
    } else {
      hide Opens, Occurs, Outcome, Turn;
      var b, later := bindings[0], bindings[1..];
      var p := Placeholder(b.name);
      assert b in bindings && forall c :: c in bindings <==> c == b || c in later;
      OutcomeOpens(State(text, 0), b.name, b.value, true);
      PassesOpens(Replaced(text, p, b.value), later);
      if Occurs(p, text) {
        FirstTurn(text, p, b.value);
      } else {
        ReplacedNone(text, p, b.value);
      }
    }
  }

  // ----- counting over pieces -----

  lemma {:induction false} OpensOfPieces(parts: seq<Part>, others: seq<Part>)
    requires |parts| == |others|
    requires forall i :: 0 <= i < |parts| ==> Opens(Text(parts[i])) <= Opens(Text(others[i]))
    ensures Opens(Flatten(parts)) <= Opens(Flatten(others))
    ensures (exists i :: 0 <= i < |parts| && Opens(Text(parts[i])) < Opens(Text(others[i]))) ==>
      Opens(Flatten(parts)) < Opens(Flatten(others))
    decreases |parts|
  {
    hide Text, Opens;
    if parts == [] {
    } else {
      OpensOfPieces(parts[1..], others[1..]);
      OpensJoined(Text(parts[0]), Flatten(parts[1..]));
      OpensJoined(Text(others[0]), Flatten(others[1..]));
      if i :| 0 <= i < |parts| && Opens(Text(parts[i])) < Opens(Text(others[i])) {
        assert i > 0 ==> parts[1..][i - 1] == parts[i] && others[1..][i - 1] == others[i];
      }
    }
  }

  // ----- exactly when the passes are a simultaneous substitution -----

  /** Values with few braces settle at once. */
  lemma {:induction false} FewSettle(bindings: seq<Binding>)
    requires FewBracesOnly(bindings)
    ensures NoneOfItself(bindings)
    ensures Settled(bindings) == bindings
    decreases |bindings|
  {
    FewOfItself(bindings);
    if bindings == [] {
    } else {
      hide Occurs, Passes, PassesEnd, NoneOfItself, Opens;
      var b, later := bindings[0], bindings[1..];
      assert b in bindings && forall c :: c in later ==> c in bindings;
      FewSettle(later);
      PassesOpens(b.value, later);
      forall c | c in later
        ensures !Occurs(Placeholder(c.name), b.value)
      {
        FewBraces(c.name, b.value);
      }
      assert bindings == [b] + later;
      FewOfItself(bindings);
    }
  }

  /** The first value is the only one that may change. */
  lemma FirstSettles(bindings: seq<Binding>)
    requires bindings != [] && FewBracesOnly(bindings[1..]) && NoneOfItself(bindings)
    ensures var b, later, settled := bindings[0], bindings[1..], Settled(bindings);
      && settled[1..] == later && settled[0].name == b.name
      && (if NothingFor(b.value, later) then settled[0] == b else Opens(settled[0].value) < Opens(b.value))
  {
    hide Occurs, Passes, PassesEnd, Opens;
    PassesOpens(bindings[0].value, bindings[1..]);
    FewSettle(bindings[1..]);
  }

  /** If the passes after the first bring in at most one brace each, then, on
      every template that uses the first name, the passes are one simultaneous
      substitution exactly if the first value has none of their placeholders. */
  lemma SimultaneousExactly(parts: seq<Part>, bindings: seq<Binding>)
    requires Template(parts) && NamesOnly(bindings) && Spaced(parts, bindings) && NoneOfItself(bindings)
    requires bindings != [] && Var(bindings[0].name) in parts && FewBracesOnly(bindings[1..])
    ensures Agree(parts, bindings) <==> NothingFor(bindings[0].value, bindings[1..])
  {
    hide Occurs, Passes, PassesEnd, Opens, Spaced, NoneOfItself, FewBracesOnly, NothingFor, Tidy, IsName, Flatten,
      Settled;
    var b, settled := bindings[0], Settled(bindings);
    PassesSettle(parts, bindings);
    FirstSettles(bindings);
    if NothingFor(b.value, bindings[1..]) {
      assert settled == [b] + settled[1..] == bindings;
    } else {
      var now, wanted := Simultaneous(parts, settled), Simultaneous(parts, bindings);
      forall i | 0 <= i < |parts|
        ensures parts[i] == Var(b.name) ==> now[i] == Lit(settled[0].value) && wanted[i] == Lit(b.value)
        ensures parts[i] != Var(b.name) ==> now[i] == wanted[i]
      {
      }
      var i :| 0 <= i < |parts| && parts[i] == Var(b.name);
      assert Opens(Text(now[i])) < Opens(Text(wanted[i]));
      OpensOfPieces(now, wanted);
    }
  }
}

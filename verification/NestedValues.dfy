/**
  Replacement passes whose values are templates themselves: text with
  placeholders in it. For these the condition is exact.
 */
module NestedValues {
  import opened Replacement
  import opened Substitution
  import opened Templates
  import opened PassOrder

  /** A name and the template that it stands for. */
  datatype Macro = Macro(name: string, body: seq<Part>)

  predicate GoodMacros(ms: seq<Macro>) {
    forall m :: m in ms ==> IsName(m.name) && Template(m.body)
  }

  function Values(ms: seq<Macro>): seq<Binding> {
    seq(|ms|, i requires 0 <= i < |ms| => Binding(ms[i].name, Flatten(ms[i].body)))
  }

  /** No body has the placeholder of its own pass or of a later one. */
  predicate Layered(ms: seq<Macro>) {
    forall i, j :: 0 <= i <= j < |ms| ==> Var(ms[j].name) !in ms[i].body
  }

  // ----- a template as a text -----

  lemma JoinTexts(a: string, b: string, c: string)
    ensures (a + b) + c == a + (b + c)
  {
  }

  lemma {:induction false} FlattenJoined(a: seq<Part>, b: seq<Part>)
    ensures Flatten(a + b) == Flatten(a) + Flatten(b)
  {
    hide Text;
    if a == [] {
      assert a + b == b;
    } else {
      FlattenJoined(a[1..], b);
      assert (a + b)[0] == a[0] && (a + b)[1..] == a[1..] + b;
      JoinTexts(Text(a[0]), Flatten(a[1..]), Flatten(b));
    }
  }

  /** A placeholder begins in the text of a template exactly if it is one of its pieces. */
  lemma TemplateInert(parts: seq<Part>, name: string)
    requires Template(parts) && IsName(name)
    ensures Inert(Placeholder(name), Flatten(parts)) <==> Var(name) !in parts
    ensures Occurs(Placeholder(name), Flatten(parts)) <==> Var(name) in parts
  {
    if Var(name) in parts {
      var i :| 0 <= i < |parts| && parts[i] == Var(name);
      var front, behind := Flatten(parts[..i]), Flatten(parts[i + 1..]);
      assert parts == parts[..i] + parts[i..] && parts[i..][1..] == parts[i + 1..];
      FlattenJoined(parts[..i], parts[i..]);
      var p := Placeholder(name);
      assert (p + behind)[..|p|] == p;
      AtStart(p + behind, |p|);
      AtAfter(front, p + behind, p, 0);
    } else {
      WithoutPlaceholder(parts, name);
    }
  }

  lemma {:induction false} WithoutPlaceholder(parts: seq<Part>, name: string)
    requires Template(parts) && IsName(name) && Var(name) !in parts
    ensures Inert(Placeholder(name), Flatten(parts))
  {
    if parts == [] {
      CalmIsInert(name, "");
    } else {
      assert Tidy(parts[0]);
      TidyAwaits(parts[0], name);
      hide Inert, Tidy, Placeholder, Text;
      WithoutPlaceholder(parts[1..], name);
      InertJoined(Placeholder(name), Text(parts[0]), Flatten(parts[1..]));
    }
  }

  /** So the condition on texts is one on pieces. */
  lemma LayeredValues(ms: seq<Macro>)
    requires GoodMacros(ms)
    ensures SelfContained(Values(ms)) <==> Layered(ms)
    ensures NamesOnly(Values(ms))
  {
    hide Inert, Template, Occurs, Flatten, Placeholder;
    forall i, j | 0 <= i <= j < |ms|
      ensures Inert(Placeholder(Values(ms)[j].name), Values(ms)[i].value) <==> Var(ms[j].name) !in ms[i].body
    {
      assert ms[i] in ms && ms[j] in ms;
      TemplateInert(ms[i].body, ms[j].name);
    }
  }

  // ----- passes on pieces -----

  /** A pass: the placeholder's pieces give way to the pieces of its body. */
  function Expand(parts: seq<Part>, m: Macro): seq<Part> {
    if parts == [] then []
    else (if parts[0] == Var(m.name) then m.body else [parts[0]]) + Expand(parts[1..], m)
  }

  function ExpandAll(parts: seq<Part>, ms: seq<Macro>): seq<Part>
    decreases |ms|
  {
    if ms == [] then parts else ExpandAll(Expand(parts, ms[0]), ms[1..])
  }

  lemma {:induction false} ExpandText(parts: seq<Part>, m: Macro)
    ensures Flatten(Expand(parts, m)) == Flatten(FillAll(parts, m.name, Flatten(m.body)))
  {
    if parts == [] {
    } else {
      var filled := FillAll(parts, m.name, Flatten(m.body));
      ExpandText(parts[1..], m);
      assert filled[1..] == FillAll(parts[1..], m.name, Flatten(m.body));
      var front := if parts[0] == Var(m.name) then m.body else [parts[0]];
      assert Flatten([parts[0]]) == Text(parts[0]) + Flatten([]);
      FlattenJoined(front, Expand(parts[1..], m));
    }
  }

  /** Which pieces a pass leaves. */
  lemma {:induction false} ExpandPieces(parts: seq<Part>, m: Macro, p: Part)
    ensures p in Expand(parts, m) <==> (p in parts && p != Var(m.name)) || (p in m.body && Var(m.name) in parts)
  {
    if parts == [] {
    } else {
      ExpandPieces(parts[1..], m, p);
      assert parts == [parts[0]] + parts[1..];
    }
  }

  lemma ExpandTemplate(parts: seq<Part>, m: Macro)
    requires Template(parts) && Template(m.body)
    ensures Template(Expand(parts, m))
  {
  }

  lemma ExpandPass(parts: seq<Part>, m: Macro)
    requires Template(parts) && Template(m.body) && IsName(m.name) && Var(m.name) !in m.body
    ensures !Occurs(Placeholder(m.name), Flatten(m.body))
    ensures Replaced(Flatten(parts), Placeholder(m.name), Flatten(m.body)) == Flatten(Expand(parts, m))
  {
    TemplateInert(m.body, m.name);
    hide Inert, Occurs, Awaits, Tidy, Flatten, Placeholder;
    forall p | p in parts
      ensures Awaits(p, m.name)
    {
      TidyAwaits(p, m.name);
    }
    PassFills(parts, m.name, Flatten(m.body));
    ExpandText(parts, m);
  }

  /** The passes on the text are the passes on the pieces. */
  lemma {:induction false} ExpandPasses(parts: seq<Part>, ms: seq<Macro>)
    requires Template(parts) && GoodMacros(ms) && forall m :: m in ms ==> Var(m.name) !in m.body
    ensures PassesEnd(Flatten(parts), Values(ms))
    ensures Passes(Flatten(parts), Values(ms)) == Flatten(ExpandAll(parts, ms))
    ensures Template(ExpandAll(parts, ms))
    decreases |ms|
  {
    hide Occurs, Template, Flatten, Replaced, Placeholder;
    if ms == [] {
    } else {
      var m := ms[0];
      assert m in ms;
      ExpandPass(parts, m);
      ExpandTemplate(parts, m);
      ExpandPasses(Expand(parts, m), ms[1..]);
      assert Values(ms)[1..] == Values(ms[1..]);
    }
  }

  predicate Avoids(parts: seq<Part>, ms: seq<Macro>) {
    forall m :: m in ms ==> Var(m.name) !in parts
  }

  lemma ExpandAvoids(parts: seq<Part>, m: Macro, ms: seq<Macro>)
    requires Avoids(parts, ms) && Avoids(m.body, ms)
    ensures Avoids(Expand(parts, m), ms)
  {
  }

  /** Once the placeholders of all passes from number `k` on are gone, they stay away. */
  lemma {:induction false} StaysAway(parts: seq<Part>, ms: seq<Macro>, k: nat)
    requires k < |ms| && Layered(ms) && Avoids(parts, ms[k + 1..])
    ensures Avoids(ExpandAll(parts, ms), ms[k..])
    decreases |ms|
  {
    var m, rest := ms[0], ms[1..];
    var next := Expand(parts, m);
    assert forall j :: 0 <= j < |rest| ==> rest[j] == ms[j + 1];
    BodyAvoids(ms);
    assert Avoids(m.body, ms[k + 1..]) by {
      assert forall c :: c in ms[k + 1..] ==> c in ms;
    }
    ExpandAvoids(parts, m, ms[k + 1..]);
    ExpandPieces(parts, m, Var(m.name));
    if k > 0 {
      assert rest[k..] == ms[k + 1..] && rest[k - 1..] == ms[k..];
      StaysAway(next, rest, k - 1);
    } else {
      assert ms[1..] == rest && ms[0..] == [m] + rest;
      NothingLeft(next, rest);
    }
  }

  lemma BodyAvoids(ms: seq<Macro>)
    requires ms != [] && Layered(ms)
    ensures Avoids(ms[0].body, ms)
  {
  }

  lemma {:induction false} NothingLeft(parts: seq<Part>, ms: seq<Macro>)
    requires Avoids(parts, ms)
    ensures ExpandAll(parts, ms) == parts
    decreases |ms|
  {
    if ms == [] {
    } else {
      assert ms[0] in ms;
      ExpandNothing(parts, ms[0]);
      NothingLeft(parts, ms[1..]);
    }
  }

  lemma {:induction false} ExpandNothing(parts: seq<Part>, m: Macro)
    requires Var(m.name) !in parts
    ensures Expand(parts, m) == parts
  {
    if parts == [] {
    } else {
      ExpandNothing(parts[1..], m);
    }
  }

  // ----- the condition is exact -----

  /** What the passes make of a single placeholder. */
  lemma SinglePlaceholder(ms: seq<Macro>, i: nat)
    requires GoodMacros(ms) && Distinct(Values(ms)) && i < |ms|
    requires Var(ms[i].name) !in ms[i].body && Layered(ms[i + 1..])
    ensures var parts := [Var(ms[i].name), Lit("")];
      && Template(parts) && Template(ExpandAll(ms[i].body, ms[i + 1..]))
      && Flatten(Simultaneous(parts, Values(ms))) == Flatten(ms[i].body)
      && PassesEnd(Flatten(parts), Values(ms))
      && Passes(Flatten(parts), Values(ms)) == Flatten(ExpandAll(ms[i].body, ms[i + 1..]))
  {
    hide Inert, Occurs, Flatten, Template, Placeholder, Replaced, Distinct;
    var all, m, later := Values(ms), ms[i], ms[i + 1..];
    assert m in ms && Calm("");
    hide Calm;
    LayeredValues(ms);
    UpToValue(all, i, "");
    TemplateInert(m.body, m.name);
    OwnPass(all[i], "");
    assert all[i].value + "" == Flatten(m.body);
    assert all[i..][0] == all[i] && all[i..][1..] == Values(later);
    assert forall c :: c in later ==> c in ms;
    BodiesOwn(later);
    ExpandPasses(m.body, later);
  }

  lemma GoneForGood(ms: seq<Macro>, i: nat, j: nat)
    requires i < j < |ms| && Layered(ms[i + 1..]) && Avoids(ms[i].body, ms[j + 1..])
    ensures Var(ms[j].name) !in ExpandAll(ms[i].body, ms[i + 1..])
  {
    var later := ms[i + 1..];
    assert later[j - i..] == ms[j + 1..] && later[j - i - 1] == ms[j] && ms[j] in later[j - i - 1..];
    hide Layered, ExpandAll;
    StaysAway(ms[i].body, later, j - i - 1);
  }

  /** The last pair of passes that disturb each other: the value of pass `i` has
      the placeholder of pass `j`, and nothing puts it back once it is gone. */
  lemma LastPairDisturbs(ms: seq<Macro>, i: nat, j: nat)
    requires GoodMacros(ms) && Distinct(Values(ms)) && i < j < |ms|
    requires Var(ms[i].name) !in ms[i].body && Var(ms[j].name) in ms[i].body
    requires Layered(ms[i + 1..]) && Avoids(ms[i].body, ms[j + 1..])
    ensures !AlwaysAgree(Values(ms))
  {
    hide Inert, Occurs, Flatten, Template, Placeholder, Replaced, Distinct, Layered, Avoids, ExpandAll, Values,
      Passes, PassesEnd, Simultaneous;
    SinglePlaceholder(ms, i);
    GoneForGood(ms, i, j);
    assert ms[i] in ms && ms[j] in ms;
    TemplateInert(ExpandAll(ms[i].body, ms[i + 1..]), ms[j].name);
    TemplateInert(ms[i].body, ms[j].name);
    assert !Agree([Var(ms[i].name), Lit("")], Values(ms));
  }

  lemma BodiesOwn(ms: seq<Macro>)
    requires Layered(ms)
    ensures forall m :: m in ms ==> Var(m.name) !in m.body
  {
  }

  lemma OwnPlaceholder(ms: seq<Macro>, i: nat)
    requires GoodMacros(ms) && Distinct(Values(ms)) && i < |ms|
    requires Var(ms[i].name) in ms[i].body
    ensures !AlwaysAgree(Values(ms))
  {
    hide Inert, Occurs, Flatten, Template, Placeholder, Replaced, Distinct;
    var all, m := Values(ms), ms[i];
    assert m in ms && Calm("");
    LayeredValues(ms);
    UpToValue(all, i, "");
    TemplateInert(m.body, m.name);
    assert !PassesEnd(Flatten([Var(m.name), Lit("")]), all[i..]);
    assert !Agree([Var(m.name), Lit("")], all);
  }

  /** The last value that disturbs a pass from its own on, and the last pass that it disturbs. */
  lemma {:induction false} LastPair(ms: seq<Macro>) returns (i: nat, j: nat)
    requires !Layered(ms)
    ensures i <= j < |ms| && Var(ms[j].name) in ms[i].body
    ensures Layered(ms[i + 1..]) && Avoids(ms[i].body, ms[j + 1..])
    decreases |ms|
  {
    var rest := ms[1..];
    assert forall k :: 0 <= k < |rest| ==> rest[k] == ms[k + 1];
    if !Layered(rest) {
      i, j := LastPair(rest);
      assert ms[i + 1 + 1..] == rest[i + 1..] && ms[j + 1 + 1..] == rest[j + 1..];
      i, j := i + 1, j + 1;
    } else {
      i := 0;
      j :| 0 <= j < |ms| && Var(ms[j].name) in ms[0].body;
      while exists k :: j < k < |ms| && Var(ms[k].name) in ms[0].body
        invariant j < |ms| && Var(ms[j].name) in ms[0].body
        decreases |ms| - j
      {
        var k :| j < k < |ms| && Var(ms[k].name) in ms[0].body;
        j := k;
      }
    }
  }

  /** For values that are templates the passes agree with the simultaneous
      substitution on all templates exactly if no value has the placeholder of
      its own pass or of a later one. */
  lemma NestedExactly(ms: seq<Macro>)
    requires GoodMacros(ms) && Distinct(Values(ms))
    ensures AlwaysAgree(Values(ms)) <==> SelfContained(Values(ms))
    ensures AlwaysAgree(Values(ms)) <==> Layered(ms)
  {
    hide Agree, Template, SelfContained;
    LayeredValues(ms);
    if Layered(ms) {
      forall parts | Template(parts)
        ensures Agree(parts, Values(ms))
      {
        AgreeOnTemplate(parts, Values(ms));
      }
    } else {
      var i, j := LastPair(ms);
      if Var(ms[i].name) in ms[i].body {
        OwnPlaceholder(ms, i);
      } else {
        LastPairDisturbs(ms, i, j);
      }
    }
  }
}

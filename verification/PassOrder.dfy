/**
  How far the condition under which replacement passes in a row are one
  simultaneous substitution is also necessary, over all templates.
 */
module PassOrder {
  import opened Replacement
  import opened Substitution
  import opened Templates

  predicate Distinct(bindings: seq<Binding>) {
    forall i, j :: 0 <= i < j < |bindings| ==> bindings[i].name != bindings[j].name
  }

  /** The passes end on the template, and come to the simultaneous substitution. */
  ghost predicate Agree(parts: seq<Part>, bindings: seq<Binding>) {
    && PassesEnd(Flatten(parts), bindings)
    && Passes(Flatten(parts), bindings) == Flatten(Simultaneous(parts, bindings))
  }

  ghost predicate AlwaysAgree(bindings: seq<Binding>) {
    forall parts :: Template(parts) ==> Agree(parts, bindings)
  }

  // ----- passes that find nothing -----

  ghost predicate NothingFor(text: string, bindings: seq<Binding>) {
    forall b :: b in bindings ==> !Occurs(Placeholder(b.name), text)
  }

  /** Passes that find nothing in the text can be left out. */
  lemma {:induction false} PassesSkip(text: string, first: seq<Binding>, rest: seq<Binding>)
    requires NothingFor(text, first)
    ensures PassesEnd(text, first + rest) <==> PassesEnd(text, rest)
    ensures PassesEnd(text, rest) ==> Passes(text, first + rest) == Passes(text, rest)
    decreases |first|
  {
    hide Occurs, Replaced;
    if first == [] {
      assert first + rest == rest;
    } else {
      assert first[0] in first;
      ReplacedNone(text, Placeholder(first[0].name), first[0].value);
      assert (first + rest)[0] == first[0] && (first + rest)[1..] == first[1..] + rest;
      PassesSkip(text, first[1..], rest);
    }
  }

  lemma {:induction false} LookupAt(bindings: seq<Binding>, i: nat)
    requires i < |bindings| && Distinct(bindings)
    ensures Lookup(bindings, Var(bindings[i].name)) == Lit(bindings[i].value)
  {
    if i == 0 {
    } else {
      LookupAt(bindings[1..], i - 1);
    }
  }

  lemma FilledTemplate(bindings: seq<Binding>, i: nat, tail: string)
    requires i < |bindings| && Distinct(bindings) && NamesOnly(bindings) && Calm(tail)
    ensures var parts, b := [Var(bindings[i].name), Lit(tail)], bindings[i];
      && Template(parts)
      && Flatten(parts) == Placeholder(b.name) + tail
      && Flatten(Simultaneous(parts, bindings)) == b.value + tail
  {
    hide Calm, Placeholder, Flatten, Distinct, Lookup;
    var b := bindings[i];
    assert b in bindings;
    FlattenTwo(Var(b.name), Lit(tail));
    FlattenTwo(Lit(b.value), Lit(tail));
    LookupAt(bindings, i);
    LookupLit(bindings, tail);
    assert Simultaneous([Var(b.name), Lit(tail)], bindings) == [Lit(b.value), Lit(tail)];
  }

  lemma OthersFindNothing(b: Binding, tail: string, others: seq<Binding>)
    requires Calm(tail) && IsName(b.name)
    requires forall c :: c in others ==> IsName(c.name) && c.name != b.name
    ensures NothingFor(Placeholder(b.name) + tail, others)
  {
    hide Occurs, Calm, Placeholder, Inert, IsName;
    forall c | c in others
      ensures !Occurs(Placeholder(c.name), Placeholder(b.name) + tail)
    {
      OtherIsInert(b.name, c.name);
      CalmIsInert(c.name, tail);
      InertJoined(Placeholder(c.name), Placeholder(b.name), tail);
      InertMeans(Placeholder(c.name), Placeholder(b.name) + tail);
    }
  }

  /** A placeholder followed by calm text: the passes up to that of the
      placeholder come to its value followed by that text. */
  lemma {:induction false} UpToValue(bindings: seq<Binding>, i: nat, tail: string)
    requires i < |bindings| && Distinct(bindings) && NamesOnly(bindings) && Calm(tail)
    ensures var parts, b := [Var(bindings[i].name), Lit(tail)], bindings[i];
      && Template(parts)
      && Flatten(Simultaneous(parts, bindings)) == b.value + tail
      && (PassesEnd(Flatten(parts), bindings) <==> PassesEnd(Flatten(parts), bindings[i..]))
      && (PassesEnd(Flatten(parts), bindings) ==>
            Passes(Flatten(parts), bindings) == Passes(Flatten(parts), bindings[i..]))
      && Occurs(Placeholder(b.name), Flatten(parts))
  {
    hide Occurs, PassesEnd, Passes, Calm, Lookup, Flatten, Placeholder, Inert, IsName, Template, Simultaneous;
    var b, first := bindings[i], bindings[..i];
    FilledTemplate(bindings, i, tail);
    PlaceholderOccurs(b.name, tail);
    OthersInFront(bindings, i);
    OthersFindNothing(b, tail, first);
    PassesSkip(Placeholder(b.name) + tail, first, bindings[i..]);
    assert first + bindings[i..] == bindings;
  }

  lemma PlaceholderOccurs(name: string, tail: string)
    ensures Occurs(Placeholder(name), Placeholder(name) + tail)
  {
    var p := Placeholder(name);
    AtStart(p + tail, |p|);
    assert (p + tail)[..|p|] == p;
  }

  lemma OthersInFront(bindings: seq<Binding>, i: nat)
    requires i < |bindings| && Distinct(bindings) && NamesOnly(bindings)
    ensures IsName(bindings[i].name)
    ensures forall c :: c in bindings[..i] ==> IsName(c.name) && c.name != bindings[i].name
  {
  }

  lemma InertMeans(pattern: string, text: string)
    requires Inert(pattern, text)
    ensures !Occurs(pattern, text) && !Straddles(pattern, text)
  {
  }

  lemma FlattenTwo(p: Part, q: Part)
    ensures Flatten([p, q]) == Text(p) + Text(q)
  {
    assert [p, q][1..] == [q];
    assert Flatten([q]) == Text(q) + Flatten([]);
  }

  // ----- values that are arbitrary texts -----

  lemma EndIsCalm(name: string, k: nat)
    requires IsName(name) && 0 < k <= |Placeholder(name)|
    ensures Calm(Placeholder(name)[k..])
  {
  }

  /** A text in which a placeholder begins, made to contain all of it. */
  lemma Completed(name: string, value: string) returns (tail: string)
    requires IsName(name) && !Inert(Placeholder(name), value)
    ensures Calm(tail) && Occurs(Placeholder(name), value + tail)
  {
    var p := Placeholder(name);
    if Occurs(p, value) {
      tail := "";
      assert value + tail == value;
    } else {
      var k :| 0 < k <= |value| && k < |p| && EndsWithStart(p, value, k);
      tail := p[k..];
      EndIsCalm(name, k);
      StraddleShape(p, value, k);
      AtAfter(value[..|value| - k], p, p, 0);
      AtStart(p, |p|);
      assert p[..|p|] == p;
    }
  }

  /** A placeholder's own pass. */
  lemma OwnPass(b: Binding, tail: string)
    requires IsName(b.name) && Calm(tail) && Inert(Placeholder(b.name), b.value)
    ensures !Occurs(Placeholder(b.name), b.value)
    ensures Replaced(Flatten([Var(b.name), Lit(tail)]), Placeholder(b.name), b.value) == b.value + tail
  {
    var parts := [Var(b.name), Lit(tail)];
    TidyAwaits(Var(b.name), b.name);
    TidyAwaits(Lit(tail), b.name);
    hide Inert, Occurs, Calm, Flatten, Awaits, Placeholder;
    PassFills(parts, b.name, b.value);
    assert FillAll(parts, b.name, b.value) == [Lit(b.value), Lit(tail)];
    FlattenTwo(Lit(b.value), Lit(tail));
  }

  lemma MiddleFindsNothing(value: string, tail: string, middle: seq<Binding>)
    requires Calm(tail) && forall c :: c in middle ==> Inert(Placeholder(c.name), value)
    ensures NothingFor(value + tail, middle)
  {
    hide Inert, Occurs, Calm, Placeholder;
    forall c | c in middle
      ensures !Occurs(Placeholder(c.name), value + tail)
    {
      CalmIsInert(c.name, tail);
      InertJoined(Placeholder(c.name), value, tail);
      InertMeans(Placeholder(c.name), value + tail);
    }
  }

  /** What self-containment says of a pass and those after it. */
  lemma LaterInert(bindings: seq<Binding>, i: nat)
    requires i < |bindings| && SelfContained(bindings)
    ensures forall c :: c in bindings[i..] ==> Inert(Placeholder(c.name), bindings[i].value)
  {
  }

  /** If only the last pass can disturb a value then the passes before it leave
      the value as it is. */
  lemma {:induction false} UpToLast(bindings: seq<Binding>, i: nat, tail: string)
    requires Distinct(bindings) && NamesOnly(bindings) && Calm(tail)
    requires i < |bindings| - 1 && SelfContained(bindings[..|bindings| - 1])
    ensures var parts, last := [Var(bindings[i].name), Lit(tail)], bindings[|bindings| - 1..];
      var text := bindings[i].value + tail;
      && (PassesEnd(Flatten(parts), bindings) <==> PassesEnd(text, last))
      && (PassesEnd(text, last) ==> Passes(Flatten(parts), bindings) == Passes(text, last))
  {
    hide Inert, Occurs, Calm, Flatten, Placeholder, SelfContained, Replaced, Distinct;
    var n, b := |bindings| - 1, bindings[i];
    var first, middle, last := bindings[..n], bindings[i + 1..n], bindings[n..];
    UpToValue(bindings, i, tail);
    LaterInert(first, i);
    assert b in bindings && first[i] == b == first[i..][0] && first[i..][1..] == middle;
    OwnPass(b, tail);
    MiddleFindsNothing(b.value, tail, middle);
    PassesSkip(b.value + tail, middle, last);
    assert bindings[i..][0] == b && bindings[i..][1..] == middle + last;
  }

  /** A value in which the placeholder of the last pass begins. */
  lemma LastDisturbs(bindings: seq<Binding>, i: nat)
    requires Distinct(bindings) && NamesOnly(bindings) && i < |bindings|
    requires SelfContained(bindings[..|bindings| - 1])
    requires var last := bindings[|bindings| - 1];
      && !Inert(Placeholder(last.name), bindings[i].value)
      && (Inert(Placeholder(last.name), last.value) || i == |bindings| - 1)
    ensures !AlwaysAgree(bindings)
  {
    var n := |bindings| - 1;
    var last := bindings[n];
    var p := Placeholder(last.name);
    assert last in bindings && bindings[n..] == [last] && [last][1..] == [];
    var tail := "";
    if i < n {
      tail := Completed(last.name, bindings[i].value);
      UpToLast(bindings, i, tail);
      InertMeans(p, last.value);
      ReplacedDiffers(bindings[i].value + tail, p, last.value);
    } else if !Occurs(p, last.value) {
      var k := StraddleDiffers(p, last.value);
      tail := p[k..];
      EndIsCalm(last.name, k);
      FlattenTwo(Var(last.name), Lit(tail));
    }
    UpToValue(bindings, i, tail);
    assert !Agree([Var(bindings[i].name), Lit(tail)], bindings);
  }

  /** If no value disturbs the passes before the last, then the condition for the
      last is exact, for values that are any texts at all. With a single pass
      there is nothing to assume. */
  lemma LastPassExactly(bindings: seq<Binding>)
    requires bindings != [] && Distinct(bindings) && NamesOnly(bindings)
    requires SelfContained(bindings[..|bindings| - 1])
    ensures AlwaysAgree(bindings) <==> SelfContained(bindings)
  {
    hide Inert, Agree;
    var n := |bindings| - 1;
    var p := Placeholder(bindings[n].name);
    if SelfContained(bindings) {
      forall parts | Template(parts)
        ensures Agree(parts, bindings)
      {
        AgreeOnTemplate(parts, bindings);
      }
    } else if !Inert(p, bindings[n].value) {
      LastDisturbs(bindings, n);
    } else {
      var i := DisturbedByLast(bindings);
      LastDisturbs(bindings, i);
    }
  }

  lemma DisturbedByLast(bindings: seq<Binding>) returns (i: nat)
    requires bindings != [] && !SelfContained(bindings) && SelfContained(bindings[..|bindings| - 1])
    ensures i < |bindings| && !Inert(Placeholder(bindings[|bindings| - 1].name), bindings[i].value)
  {
    hide Inert;
    var n := |bindings| - 1;
    assert forall i :: 0 <= i < n ==> bindings[..n][i] == bindings[i];
    i :| 0 <= i < |bindings| && !Inert(Placeholder(bindings[n].name), bindings[i].value);
  }

  lemma AgreeOnTemplate(parts: seq<Part>, bindings: seq<Binding>)
    requires Template(parts) && NamesOnly(bindings) && SelfContained(bindings)
    ensures Agree(parts, bindings)
  {
    TemplatePasses(parts, bindings);
  }
}

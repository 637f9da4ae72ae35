/** An example: passes that are a simultaneous substitution although they disturb each other. */
module PassExamples {
  import opened Replacement
  import opened Substitution
  import opened Templates
  import opened PassOrder

  /** A placeholder within the braces of another. */
  const NESTED: string := "{{{{b}}}}"

  /** A pass that puts back what an earlier one has taken away. */
  const REPAIRING: seq<Binding> := [Binding("a", NESTED), Binding("b", "c"), Binding("c", NESTED)]

  lemma SpellNested()
    ensures |NESTED| == 9
    ensures forall i :: 0 <= i < 4 ==> NESTED[i] == '{'
    ensures NESTED[4] == 'b' && forall i :: 5 <= i < 9 ==> NESTED[i] == '}'
  {
  }

  lemma NestedStaysPut(name: string)
    requires |name| == 1
    ensures !Straddles(Placeholder(name), NESTED)
  {
    SpellNested();
    forall k | 0 < k <= |NESTED| && k < |Placeholder(name)|
      ensures !EndsWithStart(Placeholder(name), NESTED, k)
    {
      if EndsWithStart(Placeholder(name), NESTED, k) {
        BracesAtEnd(name, NESTED, k);
      }
    }
  }

  /** Only one placeholder begins in the nested text. */
  lemma NestedHas(c: char, j: nat)
    requires At(NESTED, Placeholder([c]), j)
    ensures c == 'b' && j == 2
  {
    SpellNested();
    var p := Placeholder([c]);
    assert p[2] == c && p[3] == '}';
    assert NESTED[j..j + 5][2] == NESTED[j + 2] && NESTED[j..j + 5][3] == NESTED[j + 3];
    assert NESTED[j..j + 5][0] == NESTED[j] && p[0] == '{';
  }

  lemma NestedInert(c: char)
    requires c != 'b'
    ensures Inert(Placeholder([c]), NESTED)
  {
    NestedStaysPut([c]);
    forall j: nat
      ensures !At(NESTED, Placeholder([c]), j)
    {
      if At(NESTED, Placeholder([c]), j) {
        NestedHas(c, j);
      }
    }
  }

  /** The pass for `b` makes another placeholder of it. */
  lemma NestedBecomes()
    ensures At(NESTED, Placeholder("b"), 2)
    ensures Substitute(NESTED, Placeholder("b"), "c") == Placeholder("c")
  {
    SpellNested();
    var p := Placeholder("b");
    assert NESTED[2..7] == p;
    forall j | 0 <= j < 2
      ensures !At(NESTED, p, j)
    {
      if At(NESTED, p, j) {
        NestedHas('b', j);
      }
    }
    FindIs(NESTED, p, 0, 2);
    SubstituteAt(NESTED, p, "c", 2);
    assert NESTED[2 + 5..] == "}}" && NESTED[..2] == "{{";
    TwoOnly(p);
    SubstituteNone("}}", p, "c");
  }

  lemma TwoOnly(p: string)
    requires |p| > 2
    ensures !Occurs(p, "}}")
  {
  }

  // ----- the three passes on a template, piece by piece -----

  function AfterB(p: Part): Part {
    if p == Var("a") then Lit(Placeholder("c")) else if p == Var("b") then Lit("c") else p
  }

  function Finally(p: Part): Part {
    if p == Var("a") || p == Var("c") then Lit(NESTED) else if p == Var("b") then Lit("c") else p
  }

  function Pieces(parts: seq<Part>, f: Part -> Part): (r: seq<Part>)
    ensures |r| == |parts|
  {
    seq(|parts|, i requires 0 <= i < |parts| => f(parts[i]))
  }

  lemma PieceB(p: Part)
    requires Tidy(p)
    ensures !Straddles(Placeholder("b"), Text(Fill(p, "a", NESTED)))
    ensures Text(AfterB(p)) == Substitute(Text(Fill(p, "a", NESTED)), Placeholder("b"), "c")
  {
    NestedStaysPut("b");
    NestedBecomes();
    hide Straddles, Substitute, Tidy, Inert, Occurs, Placeholder, At, Awaits;
    if p != Var("a") {
      TidyAwaits(p, "b");
      PieceFills(p, "b", "c");
    }
  }

  lemma PieceC(p: Part)
    requires Tidy(p)
    ensures !Straddles(Placeholder("c"), Text(AfterB(p)))
    ensures Text(Finally(p)) == Substitute(Text(AfterB(p)), Placeholder("c"), NESTED)
  {
    NameStaysPut("c");
    SubstituteSelf(Placeholder("c"), NESTED);
    CalmIsInert("c", "c");
    SubstituteNone("c", Placeholder("c"), NESTED);
    InertMeans(Placeholder("c"), "c");
    hide Straddles, Substitute, Tidy, Inert, Occurs, Placeholder, Awaits;
    if p != Var("a") && p != Var("b") {
      TidyAwaits(p, "c");
      PieceFills(p, "c", NESTED);
    }
  }

  lemma PassB(parts: seq<Part>)
    requires Template(parts)
    ensures !Occurs(Placeholder("b"), "c")
    ensures Replaced(Flatten(FillAll(parts, "a", NESTED)), Placeholder("b"), "c") == Flatten(Pieces(parts, AfterB))
  {
    CalmIsInert("b", "c");
    InertMeans(Placeholder("b"), "c");
    hide Straddles, Substitute, Replaced, Flatten, Tidy, Inert, Occurs, Placeholder, AfterB, Fill, Text;
    IsSubstitution(Flatten(FillAll(parts, "a", NESTED)), Placeholder("b"), "c");
    forall i | 0 <= i < |parts|
      ensures !Straddles(Placeholder("b"), Text(FillAll(parts, "a", NESTED)[i]))
      ensures Text(Pieces(parts, AfterB)[i]) == Substitute(Text(FillAll(parts, "a", NESTED)[i]), Placeholder("b"), "c")
    {
      PieceB(parts[i]);
    }
    SubstitutePieces(FillAll(parts, "a", NESTED), Pieces(parts, AfterB), Placeholder("b"), "c");
  }

  lemma PassC(parts: seq<Part>)
    requires Template(parts)
    ensures !Occurs(Placeholder("c"), NESTED)
    ensures Replaced(Flatten(Pieces(parts, AfterB)), Placeholder("c"), NESTED) == Flatten(Pieces(parts, Finally))
  {
    NestedInert('c');
    InertMeans(Placeholder("c"), NESTED);
    hide Straddles, Substitute, Replaced, Flatten, Tidy, Inert, Occurs, Placeholder, AfterB, Finally, Text;
    IsSubstitution(Flatten(Pieces(parts, AfterB)), Placeholder("c"), NESTED);
    forall i | 0 <= i < |parts|
      ensures !Straddles(Placeholder("c"), Text(Pieces(parts, AfterB)[i]))
      ensures Text(Pieces(parts, Finally)[i]) == Substitute(Text(Pieces(parts, AfterB)[i]), Placeholder("c"), NESTED)
    {
      PieceC(parts[i]);
    }
    SubstitutePieces(Pieces(parts, AfterB), Pieces(parts, Finally), Placeholder("c"), NESTED);
  }

  lemma LookupRepairing(p: Part)
    ensures Lookup(REPAIRING, p) == Finally(p)
  {
    var two := REPAIRING[1..];
    assert two == [REPAIRING[1], REPAIRING[2]] && two[1..] == [REPAIRING[2]] && two[1..][1..] == [];
    assert Lookup(two[1..], p) == if p == Var("c") then Lit(NESTED) else p;
    assert Lookup(two, p) == if p == Var("b") then Lit("c") else Lookup(two[1..], p);
  }

  /** The condition is not necessary for values that are any texts at all: here
      the value of `a` contains the placeholder of `b`, and still the passes agree
      with the simultaneous substitution on every template, because the last pass
      puts back what the second has taken away. */
  lemma {:induction false} NotNecessary()
    ensures Distinct(REPAIRING) && NamesOnly(REPAIRING)
    ensures !SelfContained(REPAIRING)
    ensures AlwaysAgree(REPAIRING)
  {
    hide Agree, Template, Placeholder;
    NestedBecomes();
    assert !Inert(Placeholder(REPAIRING[1].name), REPAIRING[0].value);
    forall parts | Template(parts)
      ensures Agree(parts, REPAIRING)
    {
      RepairingAgrees(parts);
    }
  }

  lemma RepairingAgrees(parts: seq<Part>)
    requires Template(parts)
    ensures Agree(parts, REPAIRING)
  {
    NestedInert('a');
    InertMeans(Placeholder("a"), NESTED);
    hide Straddles, Substitute, Replaced, Flatten, Calm, Tidy, Inert, Occurs, Placeholder, Lookup, Finally, Awaits,
      Passes, PassesEnd;
    forall p | p in parts
      ensures Awaits(p, "a")
    {
      TidyAwaits(p, "a");
    }
    PassFills(parts, "a", NESTED);
    PassB(parts);
    PassC(parts);
    forall i | 0 <= i < |parts|
      ensures Simultaneous(parts, REPAIRING)[i] == Pieces(parts, Finally)[i]
    {
      LookupRepairing(parts[i]);
    }
    assert Simultaneous(parts, REPAIRING) == Pieces(parts, Finally);
    ThreePasses(Flatten(parts), REPAIRING);
  }

  lemma OnePass(text: string, bindings: seq<Binding>)
    requires bindings != [] && !Occurs(Placeholder(bindings[0].name), bindings[0].value)
    ensures var next := Replaced(text, Placeholder(bindings[0].name), bindings[0].value);
      && (PassesEnd(text, bindings) <==> PassesEnd(next, bindings[1..]))
      && (PassesEnd(text, bindings) ==> Passes(text, bindings) == Passes(next, bindings[1..]))
  {
  }

  lemma ThreePasses(text: string, bs: seq<Binding>)
    requires |bs| == 3 && !Occurs(Placeholder(bs[0].name), bs[0].value)
    requires !Occurs(Placeholder(bs[1].name), bs[1].value) && !Occurs(Placeholder(bs[2].name), bs[2].value)
    ensures PassesEnd(text, bs)
    ensures var one := Replaced(text, Placeholder(bs[0].name), bs[0].value);
      var two := Replaced(one, Placeholder(bs[1].name), bs[1].value);
      Passes(text, bs) == Replaced(two, Placeholder(bs[2].name), bs[2].value)
  {
    hide Occurs, Replaced, Placeholder;
    var one := Replaced(text, Placeholder(bs[0].name), bs[0].value);
    var two := Replaced(one, Placeholder(bs[1].name), bs[1].value);
    var last := bs[1..][1..];
    assert bs[1..][0] == bs[1] && last[0] == bs[2] && last[1..] == [];
    OnePass(two, last);
    OnePass(one, bs[1..]);
    OnePass(text, bs);
  }
}

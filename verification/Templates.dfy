/**
  Templates with placeholders, filled in by one replacement pass per value: when
  the passes one after another are a single simultaneous substitution.
 */
module Templates {
  import opened Replacement
  import opened Substitution

  /** A piece of a template: text that stays, or a `{{name}}` to be filled in. */
  datatype Part = Lit(text: string) | Var(name: string)

  function Placeholder(name: string): string {
    "{{" + name + "}}"
  }

  function Text(p: Part): string {
    match p
    case Lit(text) => text
    case Var(name) => Placeholder(name)
  }

  function Flatten(parts: seq<Part>): string {
    if parts == [] then "" else Text(parts[0]) + Flatten(parts[1..])
  }

  /** Every opening brace is followed by another character that is not one. */
  predicate Calm(text: string) {
    forall i :: 0 <= i < |text| && text[i] == '{' ==> i + 1 < |text| && text[i + 1] != '{'
  }

  predicate IsName(name: string) {
    '{' !in name && '}' !in name
  }

  predicate Tidy(p: Part) {
    match p
    case Lit(text) => Calm(text)
    case Var(name) => IsName(name)
  }

  predicate Template(parts: seq<Part>) {
    forall p :: p in parts ==> Tidy(p)
  }

  // ----- what filling in means -----

  function Fill(p: Part, name: string, value: string): Part {
    if p == Var(name) then Lit(value) else p
  }

  function FillAll(parts: seq<Part>, name: string, value: string): (r: seq<Part>)
    ensures |r| == |parts|
  {
    seq(|parts|, i requires 0 <= i < |parts| => Fill(parts[i], name, value))
  }

  datatype Binding = Binding(name: string, value: string)

  /** The first binding of the name counts. */
  function Lookup(bindings: seq<Binding>, p: Part): Part {
    if bindings == [] then p
    else if p == Var(bindings[0].name) then Lit(bindings[0].value)
    else Lookup(bindings[1..], p)
  }

  /** All placeholders at once. */
  function Simultaneous(parts: seq<Part>, bindings: seq<Binding>): seq<Part> {
    seq(|parts|, i requires 0 <= i < |parts| => Lookup(bindings, parts[i]))
  }

  // ----- pieces in which no placeholder begins -----

  /** A placeholder's match begins with two braces. */
  lemma TwoBraces(s: string, name: string, j: nat)
    requires At(s, Placeholder(name), j)
    ensures s[j] == '{' && s[j + 1] == '{'
  {
  }

  /** Where a text ends with the start of a placeholder there is one brace at its
      end, or there are two braces in a row. */
  lemma BracesAtEnd(name: string, t: string, k: nat)
    requires 0 < k <= |t| && k < |Placeholder(name)| && EndsWithStart(Placeholder(name), t, k)
    ensures t[|t| - k] == '{' && (k > 1 ==> t[|t| - k + 1] == '{')
  {
  }

  lemma CalmIsInert(name: string, t: string)
    requires Calm(t)
    ensures Inert(Placeholder(name), t)
  {
    forall j: nat
      ensures !At(t, Placeholder(name), j)
    {
      if At(t, Placeholder(name), j) {
        TwoBraces(t, name, j);
      }
    }
    forall k | 0 < k <= |t| && k < |Placeholder(name)|
      ensures !EndsWithStart(Placeholder(name), t, k)
    {
      if EndsWithStart(Placeholder(name), t, k) {
        BracesAtEnd(name, t, k);
      }
    }
  }

  /** Only the first index of a placeholder begins two braces, and it does not end with one. */
  lemma BracesOfName(name: string)
    requires IsName(name)
    ensures var p := Placeholder(name);
      forall j :: 0 < j < |p| && p[j] == '{' ==> j + 1 < |p| && p[j + 1] != '{'
  {
  }

  /** Where a brace-free name is followed by closing braces, no other is a prefix. */
  lemma SameName(a: string, b: string)
    requires '}' !in a && '}' !in b
    ensures a + "}}" <= b + "}}" ==> a == b
  {
    var l := b + "}}";
    assert (a + "}}")[|a|] == '}' && l[|b|] == '}';
    assert a + "}}" <= l ==> a == l[..|a|];
    assert |a| <= |b| ==> l[..|a|] == b[..|a|];
  }

  lemma SamePlaceholder(a: string, b: string)
    requires IsName(a) && IsName(b)
    ensures Placeholder(a) <= Placeholder(b) ==> a == b
  {
    SameName(a, b);
    assert Placeholder(a)[2..] == a + "}}" && Placeholder(b)[2..] == b + "}}";
    assert Placeholder(a) <= Placeholder(b) ==> Placeholder(b)[..|Placeholder(a)|][2..] == Placeholder(a)[2..];
  }

  /** A placeholder does not reach into the next piece. */
  lemma NameStaysPut(name: string)
    requires IsName(name)
    ensures !Straddles(Placeholder(name), Placeholder(name))
  {
    BracesOfName(name);
    var p := Placeholder(name);
    forall k | 0 < k < |p|
      ensures !EndsWithStart(p, p, k)
    {
      if EndsWithStart(p, p, k) {
        BracesAtEnd(name, p, k);
      }
    }
  }

  lemma OtherIsInert(other: string, name: string)
    requires IsName(other) && IsName(name) && other != name
    ensures Inert(Placeholder(name), Placeholder(other))
  {
    var p, q := Placeholder(name), Placeholder(other);
    BracesOfName(other);
    SamePlaceholder(other, name);
    SamePlaceholder(name, other);
    forall j: nat
      ensures !At(q, p, j)
    {
      if At(q, p, j) {
        TwoBraces(q, name, j);
      }
    }
    forall k | 0 < k <= |q| && k < |p|
      ensures !EndsWithStart(p, q, k)
    {
      assert q[0..] == q;
      if EndsWithStart(p, q, k) {
        BracesAtEnd(name, q, k);
      }
    }
  }

  // ----- one pass -----

  /** Where no placeholder reaches from one piece into the next, the pieces are
      substituted one by one. */
  lemma {:induction false} SubstitutePieces(parts: seq<Part>, after: seq<Part>, pattern: string, replace: string)
    requires pattern != "" && |after| == |parts|
    requires forall i :: 0 <= i < |parts| ==> !Straddles(pattern, Text(parts[i]))
    requires forall i :: 0 <= i < |parts| ==> Text(after[i]) == Substitute(Text(parts[i]), pattern, replace)
    ensures Substitute(Flatten(parts), pattern, replace) == Flatten(after)
    decreases |parts|
  {
    hide Substitute, Straddles, Text;
    if parts == [] {
      assert !Occurs(pattern, "");
      SubstituteNone("", pattern, replace);
    } else {
      assert !Straddles(pattern, Text(parts[0]));
      SubstituteJoined(Text(parts[0]), Flatten(parts[1..]), pattern, replace);
      SubstitutePieces(parts[1..], after[1..], pattern, replace);
    }
  }

  /** The piece is the placeholder itself, or none begins in it. */
  ghost predicate Awaits(p: Part, name: string) {
    p == Var(name) || Inert(Placeholder(name), Text(p))
  }

  lemma PieceFills(p: Part, name: string, value: string)
    requires IsName(name) && Awaits(p, name)
    ensures !Straddles(Placeholder(name), Text(p))
    ensures Text(Fill(p, name, value)) == Substitute(Text(p), Placeholder(name), value)
  {
    if p == Var(name) {
      NameStaysPut(name);
      SubstituteSelf(Placeholder(name), value);
    } else {
      SubstituteNone(Text(p), Placeholder(name), value);
    }
  }

  lemma SubstituteFills(parts: seq<Part>, name: string, value: string)
    requires IsName(name) && forall p :: p in parts ==> Awaits(p, name)
    ensures Substitute(Flatten(parts), Placeholder(name), value) == Flatten(FillAll(parts, name, value))
  {
    hide Substitute, Straddles, Awaits, Text, Fill;
    forall i | 0 <= i < |parts|
      ensures !Straddles(Placeholder(name), Text(parts[i]))
      ensures Text(FillAll(parts, name, value)[i]) == Substitute(Text(parts[i]), Placeholder(name), value)
    {
      PieceFills(parts[i], name, value);
    }
    SubstitutePieces(parts, FillAll(parts, name, value), Placeholder(name), value);
  }

  /** One pass of the replacement loop fills in one placeholder everywhere and
      changes nothing else, if that placeholder does not begin in its own value. */
  lemma PassFills(parts: seq<Part>, name: string, value: string)
    requires IsName(name) && (forall p :: p in parts ==> Awaits(p, name)) && Inert(Placeholder(name), value)
    ensures !Occurs(Placeholder(name), value)
    ensures Replaced(Flatten(parts), Placeholder(name), value) == Flatten(FillAll(parts, name, value))
  {
    hide Substitute, Straddles, Awaits, Text, Replaced, Occurs;
    IsSubstitution(Flatten(parts), Placeholder(name), value);
    SubstituteFills(parts, name, value);
  }

  lemma TidyAwaits(p: Part, name: string)
    requires Tidy(p) && IsName(name)
    ensures Awaits(p, name)
  {
    match p
    case Lit(text) => CalmIsInert(name, text);
    case Var(other) =>
      if other != name {
        OtherIsInert(other, name);
      }
  }

  // ----- the passes in a row -----

  /** The loop of every pass ends: its placeholder is missing from the text by
      then, or from the value. */
  ghost predicate PassesEnd(text: string, bindings: seq<Binding>)
    decreases |bindings|
  {
    bindings == [] ||
    var b := bindings[0];
    && (!Occurs(Placeholder(b.name), text) || !Occurs(Placeholder(b.name), b.value))
    && PassesEnd(Replaced(text, Placeholder(b.name), b.value), bindings[1..])
  }

  /** A pass per binding, in order. */
  ghost function Passes(text: string, bindings: seq<Binding>): string
    requires PassesEnd(text, bindings)
    decreases |bindings|
  {
    if bindings == [] then text
    else Passes(Replaced(text, Placeholder(bindings[0].name), bindings[0].value), bindings[1..])
  }

  /** No value contains, or ends with a start of, the placeholder of its own pass
      or of a later one. */
  ghost predicate SelfContained(bindings: seq<Binding>) {
    forall i, j :: 0 <= i <= j < |bindings| ==> Inert(Placeholder(bindings[j].name), bindings[i].value)
  }

  predicate NamesOnly(bindings: seq<Binding>) {
    forall b :: b in bindings ==> IsName(b.name)
  }

  /** Every piece is a placeholder, or none of the placeholders begins in it. */
  ghost predicate AwaitsAll(parts: seq<Part>, bindings: seq<Binding>) {
    forall p, b :: p in parts && b in bindings ==> Awaits(p, b.name)
  }

  lemma SimultaneousStep(parts: seq<Part>, bindings: seq<Binding>)
    requires bindings != []
    ensures Simultaneous(FillAll(parts, bindings[0].name, bindings[0].value), bindings[1..])
      == Simultaneous(parts, bindings)
  {
    var b := bindings[0];
    var filled := FillAll(parts, b.name, b.value);
    forall i | 0 <= i < |parts|
      ensures Lookup(bindings[1..], filled[i]) == Lookup(bindings, parts[i])
    {
      LookupLit(bindings[1..], b.value);
    }
  }

  lemma {:induction false} LookupLit(bindings: seq<Binding>, text: string)
    ensures Lookup(bindings, Lit(text)) == Lit(text)
  {
    if bindings == [] {
    } else {
      LookupLit(bindings[1..], text);
    }
  }

  lemma FilledAwaits(parts: seq<Part>, bindings: seq<Binding>)
    requires bindings != [] && AwaitsAll(parts, bindings) && SelfContained(bindings)
    ensures AwaitsAll(FillAll(parts, bindings[0].name, bindings[0].value), bindings[1..])
    ensures SelfContained(bindings[1..])
  {
    hide Inert;
    var b, rest := bindings[0], bindings[1..];
    assert forall j :: 0 <= j < |rest| ==> rest[j] == bindings[j + 1];
    forall p, c | p in FillAll(parts, b.name, b.value) && c in rest
      ensures Awaits(p, c.name)
    {
      var i :| 0 <= i < |parts| && p == Fill(parts[i], b.name, b.value);
      var j :| 0 <= j < |rest| && rest[j] == c;
      assert parts[i] in parts && c == bindings[j + 1] && c in bindings;
    }
  }

  /** The passes one after another are one simultaneous substitution, on every
      text put together from placeholders and pieces in which none begins. */
  lemma {:induction false} PassesAreSimultaneous(parts: seq<Part>, bindings: seq<Binding>)
    requires NamesOnly(bindings) && AwaitsAll(parts, bindings) && SelfContained(bindings)
    ensures PassesEnd(Flatten(parts), bindings)
    ensures Passes(Flatten(parts), bindings) == Flatten(Simultaneous(parts, bindings))
    decreases |bindings|
  {
    hide Awaits, Inert, Occurs, Replaced;
    if bindings == [] {
      assert Simultaneous(parts, []) == parts;
    } else {
      var b := bindings[0];
      assert b in bindings && b == bindings[0];
      PassFills(parts, b.name, b.value);
      FilledAwaits(parts, bindings);
      PassesAreSimultaneous(FillAll(parts, b.name, b.value), bindings[1..]);
      SimultaneousStep(parts, bindings);
    }
  }

  /** In particular on every template. */
  lemma TemplatePasses(parts: seq<Part>, bindings: seq<Binding>)
    requires Template(parts) && NamesOnly(bindings) && SelfContained(bindings)
    ensures PassesEnd(Flatten(parts), bindings)
    ensures Passes(Flatten(parts), bindings) == Flatten(Simultaneous(parts, bindings))
  {
    hide Awaits, Tidy;
    forall p, b | p in parts && b in bindings
      ensures Awaits(p, b.name)
    {
      TidyAwaits(p, b.name);
    }
    PassesAreSimultaneous(parts, bindings);
  }

  /** Values in which every opening brace is followed by something else are self-contained. */
  lemma CalmValues(bindings: seq<Binding>)
    requires forall b :: b in bindings ==> Calm(b.value)
    ensures SelfContained(bindings)
  {
    hide Inert, Calm;
    forall i, j | 0 <= i <= j < |bindings|
      ensures Inert(Placeholder(bindings[j].name), bindings[i].value)
    {
      assert bindings[i] in bindings;
      CalmIsInert(bindings[j].name, bindings[i].value);
    }
  }
}

/**
  Replacement passes over a text in pieces: exactly when the passes end, and
  what they come to when no placeholder can be completed across two pieces.
 */
module Piecewise {
  import opened Replacement
  import opened Substitution
  import opened Templates
  import opened PassOrder

  // ----- when the passes end -----

  /** Different placeholders do not overlap. */
  lemma PlaceholdersApart(s: string, a: string, b: string, i: nat, j: nat)
    requires IsName(a) && IsName(b) && a != b && i <= j
    requires At(s, Placeholder(a), i) && At(s, Placeholder(b), j)
    ensures i + |Placeholder(a)| <= j
  {
    var p, q := Placeholder(a), Placeholder(b);
    BracesOfName(a);
    SamePlaceholder(a, b);
    SamePlaceholder(b, a);
    TwoBraces(s, b, j);
    Letters(s, p, i);
    if |p| <= |q| {
      SliceOfSlice(s, j, j + |q|, 0, |p|);
    } else {
      SliceOfSlice(s, i, i + |p|, 0, |q|);
    }
  }

  lemma Letters(s: string, pattern: string, i: nat)
    requires At(s, pattern, i)
    ensures forall k :: i <= k < i + |pattern| ==> s[k] == pattern[k - i]
  {
  }

  /** A text without one of its letters does not contain a pattern. */
  lemma MissingLetter(pattern: string, s: string, k: nat)
    requires k < |pattern| && pattern[k] !in s
    ensures !Occurs(pattern, s)
  {
  }

  lemma AtKept(s: string, i: nat, replace: string, back: string, other: string, j: nat)
    requires i <= |s| && At(s, other, j) && j + |other| <= i
    ensures At(s[..i] + replace + back, other, j)
  {
  }

  lemma AtMoved(s: string, i: nat, front: string, other: string, j: nat)
    requires i <= j && At(s, other, j)
    ensures At(front + s[i..], other, |front| + (j - i))
  {
  }

  /** A turn leaves what it does not overlap. */
  lemma {:induction false} TurnKeeps(s: State, pattern: string, replace: string, other: string, j: nat)
    requires Turn(s, pattern, replace).Step? && At(s.text, other, j)
    requires var i := Find(s.text, pattern, s.pos).i; j + |other| <= i || i + |pattern| <= j
    ensures Occurs(other, Turn(s, pattern, replace).state.text)
  {
    var i := Find(s.text, pattern, s.pos).i;
    AtFits(s.text, pattern, i);
    hide Find;
    if j + |other| <= i {
      AtKept(s.text, i, replace, s.text[i + |pattern|..], other, j);
    } else {
      AtMoved(s.text, i + |pattern|, s.text[..i] + replace, other, j);
    }
  }

  /** No pass takes another placeholder away. */
  lemma {:induction false} OutcomeKeeps(s: State, name: string, value: string, first: bool, other: string)
    requires IsName(name) && IsName(other) && name != other
    requires Ready(s, Placeholder(name), value, first) && Occurs(Placeholder(other), s.text)
    ensures Occurs(Placeholder(other), Outcome(s, Placeholder(name), value, first))
    decreases first, Untouched(s, value)
  {
    var p, q := Placeholder(name), Placeholder(other);
    if Turn(s, p, value).Step? {
      var j: nat :| At(s.text, q, j);
      var i := Find(s.text, p, s.pos).i;
      assert At(s.text, p, i);
      hide Find, At, Occurs, Placeholder, IsName;
      if i <= j {
        PlaceholdersApart(s.text, name, other, i, j);
      } else {
        PlaceholdersApart(s.text, other, name, j, i);
      }
      TurnKeeps(s, p, value, q, j);
      TurnReady(s, p, value, first);
      OutcomeKeeps(Turn(s, p, value).state, name, value, false, other);
    }
  }

  ghost predicate AllOccur(text: string, bindings: seq<Binding>) {
    forall b :: b in bindings ==> Occurs(Placeholder(b.name), text)
  }

  /** No value contains its own placeholder. */
  ghost predicate NoneOfItself(bindings: seq<Binding>) {
    forall b :: b in bindings ==> !Occurs(Placeholder(b.name), b.value)
  }

  /** Exactly when the passes over a text with all the placeholders end. */
  lemma {:induction false} PassesEndExactly(text: string, bindings: seq<Binding>)
    requires NamesOnly(bindings) && Distinct(bindings) && AllOccur(text, bindings)
    ensures PassesEnd(text, bindings) <==> NoneOfItself(bindings)
    decreases |bindings|
  {
    if bindings == [] {
    } else {
      var b, later := bindings[0], bindings[1..];
      assert b in bindings;
      assert forall c :: c in bindings <==> c == b || c in later;
      hide Occurs, Placeholder, IsName, Outcome;
      if !Occurs(Placeholder(b.name), b.value) {
        forall c | c in later
          ensures Occurs(Placeholder(c.name), Replaced(text, Placeholder(b.name), b.value))
        {
          OutcomeKeeps(State(text, 0), b.name, b.value, true, c.name);
        }
        PassesEndExactly(Replaced(text, Placeholder(b.name), b.value), later);
      }
    }
  }

  lemma {:induction false} VarOccurs(parts: seq<Part>, i: nat)
    requires i < |parts|
    ensures Occurs(Text(parts[i]), Flatten(parts))
    decreases i
  {
    var front, tail := Text(parts[0]), Flatten(parts[1..]);
    if i == 0 {
      AtStart(front + tail, |front|);
      assert (front + tail)[..|front|] == front;
    } else {
      VarOccurs(parts[1..], i - 1);
      var j: nat :| At(tail, Text(parts[i]), j);
      AtAfter(front, tail, Text(parts[i]), j);
    }
  }

  /** In particular over a template that uses all the names. */
  lemma TemplateEndsExactly(parts: seq<Part>, bindings: seq<Binding>)
    requires NamesOnly(bindings) && Distinct(bindings)
    requires forall b :: b in bindings ==> Var(b.name) in parts
    ensures PassesEnd(Flatten(parts), bindings) <==> NoneOfItself(bindings)
  {
    hide Occurs, PassesEnd, NoneOfItself, Distinct;
    forall b | b in bindings
      ensures Occurs(Placeholder(b.name), Flatten(parts))
    {
      var i :| 0 <= i < |parts| && parts[i] == Var(b.name);
      VarOccurs(parts, i);
    }
    PassesEndExactly(Flatten(parts), bindings);
  }

  // ----- one pass over two pieces -----

  lemma FindWithin(a: string, t: string, pattern: string, j: nat)
    ensures Find(a + t, pattern, |a| + j) ==
      match Find(t, pattern, j) { case NotFound => NotFound case Found(i) => Found(|a| + i) }
  {
    hide Find, At;
    forall k: nat | |a| <= k
      ensures At(a + t, pattern, k) <==> At(t, pattern, k - |a|)
    {
      AtAfter(a, t, pattern, k - |a|);
    }
    match Find(t, pattern, j)
    case NotFound => FindNone(a + t, pattern, |a| + j);
    case Found(i) => FindIs(a + t, pattern, |a| + j, |a| + i);
  }

  /** What a turn has to do with the outcome. */
  lemma OutcomeStep(s: State, pattern: string, replace: string, first: bool)
    requires Ready(s, pattern, replace, first) && !Occurs(pattern, replace)
    ensures match Turn(s, pattern, replace)
      case Stop => Outcome(s, pattern, replace, first) == s.text
      case Step(s') =>
        && At(s'.text, replace, s'.pos)
        && (first || Untouched(s', replace) < Untouched(s, replace))
        && Ready(s', pattern, replace, false)
        && Outcome(s, pattern, replace, first) == Outcome(s', pattern, replace, false)
  {
    if Turn(s, pattern, replace).Step? {
      TurnReady(s, pattern, replace, first);
    }
  }

  /** The same turn, behind a text that has been passed. */
  lemma TurnBehind(a: string, t: string, j: nat, pattern: string, replace: string)
    ensures Turn(State(a + t, |a| + j), pattern, replace) ==
      match Turn(State(t, j), pattern, replace) {
        case Stop => Stop
        case Step(s) => Step(State(a + s.text, |a| + s.pos)) }
  {
    hide At, Find, Turn;
    FindWithin(a, t, pattern, j);
    match Find(t, pattern, j)
    case NotFound =>
      NoTurn(State(t, j), pattern, replace);
      NoTurn(State(a + t, |a| + j), pattern, replace);
    case Found(i) =>
      TurnAt(State(t, j), pattern, replace, i);
      TurnAt(State(a + t, |a| + j), pattern, replace, |a| + i);
      CutWithin(a, t, |pattern|, i, replace);
  }

  /** The loop does not look back at what it has passed. */
  lemma {:induction false} OutcomeBehind(a: string, t: string, j: nat, pattern: string, replace: string)
    requires At(t, replace, j) && !Occurs(pattern, replace)
    ensures Ready(State(a + t, |a| + j), pattern, replace, false)
    ensures Outcome(State(a + t, |a| + j), pattern, replace, false)
      == a + Outcome(State(t, j), pattern, replace, false)
    decreases Untouched(State(t, j), replace)
  {
    AtAfter(a, t, replace, j);
    hide Find, At, Occurs, Turn, Outcome, Untouched;
    TurnBehind(a, t, j, pattern, replace);
    OutcomeStep(State(t, j), pattern, replace, false);
    OutcomeStep(State(a + t, |a| + j), pattern, replace, false);
    match Turn(State(t, j), pattern, replace)
    case Stop =>
    case Step(s) => OutcomeBehind(a, s.text, s.pos, pattern, replace);
  }

  lemma CutWithin(a: string, t: string, n: nat, i: nat, replace: string)
    requires i + n <= |t|
    ensures (a + t)[..|a| + i] + replace + (a + t)[|a| + i + n..] == a + (t[..i] + replace + t[i + n..])
  {
  }

  /** What follows cannot go on with a match of the pattern. */
  predicate Fenced(pattern: string, rest: string) {
    rest == "" || rest[0] !in pattern
  }

  lemma NoMatchAcross(a: string, rest: string, pattern: string, j: nat)
    requires Fenced(pattern, rest) && j < |a|
    ensures At(a + rest, pattern, j) <==> At(a, pattern, j)
  {
    assert rest != "" ==> (a + rest)[|a|] == rest[0];
    if j + |pattern| <= |a| {
      SliceOfSlice(a + rest, 0, |a|, j, j + |pattern|);
    } else if At(a + rest, pattern, j) {
      Letters(a + rest, pattern, j);
    }
  }

  /** A turn behind the last match in the first piece is one in the second. */
  lemma TurnThrough(a: string, pos: nat, rest: string, pattern: string, replace: string)
    requires pos <= |a| && forall j :: pos <= j < |a| ==> !At(a + rest, pattern, j)
    ensures Turn(State(a + rest, pos), pattern, replace) ==
      match Turn(State(rest, 0), pattern, replace) {
        case Stop => Stop
        case Step(s) => Step(State(a + s.text, |a| + s.pos)) }
  {
    hide At, Find, Turn;
    FindShift(a, rest, pattern, pos);
    match Find(rest, pattern, 0)
    case NotFound =>
      NoTurn(State(rest, 0), pattern, replace);
      NoTurn(State(a + rest, pos), pattern, replace);
    case Found(i) =>
      TurnAt(State(rest, 0), pattern, replace, i);
      TurnAt(State(a + rest, pos), pattern, replace, |a| + i);
      CutWithin(a, rest, |pattern|, i, replace);
  }

  /** A turn in the first piece leaves the second, and where there is none no
      match begins in the first. */
  lemma TurnBefore(a: string, pos: nat, rest: string, pattern: string, replace: string)
    requires pos <= |a| && Fenced(pattern, rest)
    ensures match Turn(State(a, pos), pattern, replace)
      case Stop => forall j :: pos <= j < |a| ==> !At(a + rest, pattern, j)
      case Step(s) =>
        pattern != "" ==> Turn(State(a + rest, pos), pattern, replace) == Step(State(s.text + rest, s.pos))
  {
    hide At, Find, Turn, Fenced;
    forall j: nat | j < |a|
      ensures At(a + rest, pattern, j) <==> At(a, pattern, j)
    {
      NoMatchAcross(a, rest, pattern, j);
    }
    match Find(a, pattern, pos)
    case NotFound => NoTurn(State(a, pos), pattern, replace);
    case Found(i) =>
      TurnAt(State(a, pos), pattern, replace, i);
      if pattern != "" {
        MatchInside(a, rest, pattern, pos, i);
        TurnAt(State(a + rest, pos), pattern, replace, i);
        CutBefore(a, rest, i, |pattern|, replace);
      }
  }

  lemma MatchInside(a: string, rest: string, pattern: string, pos: nat, i: nat)
    requires pos <= |a| && Fenced(pattern, rest) && pattern != "" && Find(a, pattern, pos) == Found(i)
    ensures i < |a| && Find(a + rest, pattern, pos) == Found(i)
  {
    hide Find, Fenced;
    forall j: nat | j < |a|
      ensures At(a + rest, pattern, j) <==> At(a, pattern, j)
    {
      NoMatchAcross(a, rest, pattern, j);
    }
    assert i < |a|;
    FindIs(a + rest, pattern, pos, i);
  }

  lemma CutBefore(a: string, rest: string, i: nat, n: nat, replace: string)
    requires i + n <= |a|
    ensures (a + rest)[..i] + replace + (a + rest)[i + n..] == (a[..i] + replace + a[i + n..]) + rest
  {
  }

  lemma StillReady(a: string, pos: nat, rest: string, pattern: string, replace: string, first: bool)
    requires !Occurs(pattern, replace) && Ready(State(a, pos), pattern, replace, first)
    ensures pos <= |a| && Ready(State(a + rest, pos), pattern, replace, first)
  {
  }

  lemma NotEmpty(pattern: string, replace: string)
    requires !Occurs(pattern, replace)
    ensures pattern != ""
  {
    assert At(replace, "", 0);
  }

  /** The loop goes through the first piece and then through the second. */
  lemma {:induction false} OutcomeJoined(a: string, pos: nat, rest: string, pattern: string, replace: string,
                                         first: bool)
    requires !Occurs(pattern, replace) && Fenced(pattern, rest)
    requires Ready(State(a, pos), pattern, replace, first)
    ensures Ready(State(a + rest, pos), pattern, replace, first)
    ensures Outcome(State(a + rest, pos), pattern, replace, first)
      == Outcome(State(a, pos), pattern, replace, first) + Replaced(rest, pattern, replace)
    decreases first, Untouched(State(a, pos), replace)
  {
    hide At, Occurs, Turn, Find, Fenced, Outcome, Ready, Untouched, Replaced;
    StillReady(a, pos, rest, pattern, replace, first);
    NotEmpty(pattern, replace);
    TurnBefore(a, pos, rest, pattern, replace);
    OutcomeStep(State(a, pos), pattern, replace, first);
    OutcomeStep(State(a + rest, pos), pattern, replace, first);
    match Turn(State(a, pos), pattern, replace)
    case Stop =>
      TurnThrough(a, pos, rest, pattern, replace);
      ReplacedBehind(a, rest, pattern, replace);
    case Step(s) => OutcomeJoined(s.text, s.pos, rest, pattern, replace, false);
  }

  /** What becomes of a text does not depend on what has been passed before it. */
  lemma ReplacedBehind(a: string, rest: string, pattern: string, replace: string)
    requires !Occurs(pattern, replace)
    ensures match Turn(State(rest, 0), pattern, replace)
      case Stop => Replaced(rest, pattern, replace) == rest
      case Step(s) =>
        && Ready(State(a + s.text, |a| + s.pos), pattern, replace, false)
        && Outcome(State(a + s.text, |a| + s.pos), pattern, replace, false) == a + Replaced(rest, pattern, replace)
  {
    hide At, Occurs, Turn, Find, Outcome, Untouched;
    OutcomeStep(State(rest, 0), pattern, replace, true);
    match Turn(State(rest, 0), pattern, replace)
    case Stop =>
    case Step(s) => OutcomeBehind(a, s.text, s.pos, pattern, replace);
  }

  /** Where a match cannot go on into the second piece, each piece is replaced by itself. */
  lemma ReplacedJoined(a: string, rest: string, pattern: string, replace: string)
    requires !Occurs(pattern, replace) && Fenced(pattern, rest)
    ensures Replaced(a + rest, pattern, replace)
      == Replaced(a, pattern, replace) + Replaced(rest, pattern, replace)
  {
    hide Occurs, Fenced, Outcome;
    OutcomeJoined(a, 0, rest, pattern, replace, true);
  }

  /** And so it is where none can begin in the first. */
  lemma ReplacedSkips(a: string, rest: string, pattern: string, replace: string)
    requires !Occurs(pattern, replace) && Inert(pattern, a)
    ensures Replaced(a + rest, pattern, replace)
      == Replaced(a, pattern, replace) + Replaced(rest, pattern, replace)
  {
    NoneWithin("", a, rest, pattern);
    assert "" + a + rest == a + rest;
    hide At, Occurs, Straddles, Turn, Find, Outcome, Untouched;
    ReplacedNone(a, pattern, replace);
    TurnThrough(a, 0, rest, pattern, replace);
    ReplacedBehind(a, rest, pattern, replace);
    OutcomeStep(State(a + rest, 0), pattern, replace, true);
  }

  // ----- one pass over many pieces -----

  /** Every piece is one in which no match begins, or the last one, or the next
      piece cannot go on with a match. */
  ghost predicate ApartFor(pattern: string, parts: seq<Part>) {
    forall i :: 0 <= i < |parts| ==>
      Inert(pattern, Text(parts[i])) || i + 1 == |parts|
      || (Text(parts[i + 1]) != "" && Fenced(pattern, Text(parts[i + 1])))
  }

  ghost function ReplacedPart(p: Part, pattern: string, replace: string): Part
    requires !Occurs(pattern, replace)
  {
    Lit(Replaced(Text(p), pattern, replace))
  }

  ghost function ReplacedParts(parts: seq<Part>, pattern: string, replace: string): (r: seq<Part>)
    requires !Occurs(pattern, replace)
    ensures |r| == |parts|
  {
    seq(|parts|, i requires 0 <= i < |parts| => ReplacedPart(parts[i], pattern, replace))
  }

  lemma ApartLater(pattern: string, parts: seq<Part>)
    requires parts != [] && ApartFor(pattern, parts)
    ensures ApartFor(pattern, parts[1..])
    ensures Inert(pattern, Text(parts[0])) || Fenced(pattern, Flatten(parts[1..]))
  {
  }

  /** A pass works on each piece by itself. */
  lemma {:induction false} PassByPieces(parts: seq<Part>, pattern: string, replace: string)
    requires !Occurs(pattern, replace) && ApartFor(pattern, parts)
    ensures Replaced(Flatten(parts), pattern, replace) == Flatten(ReplacedParts(parts, pattern, replace))
    decreases |parts|
  {
    hide Inert, Fenced, Occurs, Replaced, ApartFor;
    if parts == [] {
      NothingIn(pattern, replace);
    } else {
      var p, tail := parts[0], parts[1..];
      ApartLater(pattern, parts);
      if Inert(pattern, Text(p)) {
        ReplacedSkips(Text(p), Flatten(tail), pattern, replace);
      } else {
        ReplacedJoined(Text(p), Flatten(tail), pattern, replace);
      }
      PassByPieces(tail, pattern, replace);
      assert ReplacedParts(parts, pattern, replace)
          == [ReplacedPart(p, pattern, replace)] + ReplacedParts(tail, pattern, replace);
    }
  }

  lemma NothingIn(pattern: string, replace: string)
    requires !Occurs(pattern, replace)
    ensures Replaced("", pattern, replace) == ""
  {
    NotEmpty(pattern, replace);
    ReplacedNone("", pattern, replace);
  }

  // ----- all passes over many pieces -----

  /** The pieces are apart for the placeholders of all passes: each is one in
      which none of them begins, or the last one, or followed by such a piece
      with a first character that is in none of them. */
  ghost predicate Apart(parts: seq<Part>, bindings: seq<Binding>) {
    forall i :: 0 <= i < |parts| ==>
      InertForAll(Text(parts[i]), bindings) || i + 1 == |parts| || Fence(parts[i + 1], bindings)
  }

  ghost predicate InertForAll(text: string, bindings: seq<Binding>) {
    forall b :: b in bindings ==> Inert(Placeholder(b.name), text)
  }

  ghost predicate Fence(p: Part, bindings: seq<Binding>) {
    && Text(p) != "" && InertForAll(Text(p), bindings)
    && forall b :: b in bindings ==> Fenced(Placeholder(b.name), Text(p))
  }

  /** What a text comes to, if the passes end. */
  ghost function PassedPart(p: Part, bindings: seq<Binding>): Part
    requires NoneOfItself(bindings)
  {
    AlwaysEnds(Text(p), bindings);
    Lit(Passes(Text(p), bindings))
  }

  lemma {:induction false} AlwaysEnds(text: string, bindings: seq<Binding>)
    requires NoneOfItself(bindings)
    ensures PassesEnd(text, bindings)
    decreases |bindings|
  {
    if bindings == [] {
    } else {
      hide Occurs, Replaced;
      assert bindings[0] in bindings;
      AlwaysEnds(Replaced(text, Placeholder(bindings[0].name), bindings[0].value), bindings[1..]);
    }
  }

  ghost function PassedParts(parts: seq<Part>, bindings: seq<Binding>): (r: seq<Part>)
    requires NoneOfItself(bindings)
    ensures |r| == |parts|
  {
    seq(|parts|, i requires 0 <= i < |parts| => PassedPart(parts[i], bindings))
  }

  lemma ApartAfter(parts: seq<Part>, bindings: seq<Binding>)
    requires bindings != [] && NoneOfItself(bindings) && Apart(parts, bindings)
    ensures var b := bindings[0];
      && !Occurs(Placeholder(b.name), b.value)
      && ApartFor(Placeholder(b.name), parts)
      && Apart(ReplacedParts(parts, Placeholder(b.name), b.value), bindings[1..])
  {
  }

  /** The passes work on each piece by itself. */
  lemma {:induction false} PassesByPieces(parts: seq<Part>, bindings: seq<Binding>)
    requires NoneOfItself(bindings) && Apart(parts, bindings)
    ensures PassesEnd(Flatten(parts), bindings)
    ensures Passes(Flatten(parts), bindings) == Flatten(PassedParts(parts, bindings))
    decreases |bindings|
  {
    AlwaysEnds(Flatten(parts), bindings);
    if bindings == [] {
      SameTexts(parts, PassedParts(parts, bindings));
    } else {
      hide Inert, Occurs, Replaced, Fenced, Apart, ApartFor;
      var b, later := bindings[0], bindings[1..];
      ApartAfter(parts, bindings);
      PassByPieces(parts, Placeholder(b.name), b.value);
      var after := ReplacedParts(parts, Placeholder(b.name), b.value);
      PassesByPieces(after, later);
      forall i | 0 <= i < |parts|
        ensures PassedParts(after, later)[i] == PassedParts(parts, bindings)[i]
      {
      }
      assert PassedParts(after, later) == PassedParts(parts, bindings);
    }
  }

  lemma {:induction false} SameTexts(parts: seq<Part>, others: seq<Part>)
    requires |parts| == |others| && forall i :: 0 <= i < |parts| ==> Text(parts[i]) == Text(others[i])
    ensures Flatten(parts) == Flatten(others)
    decreases |parts|
  {
    if parts == [] {
    } else {
      SameTexts(parts[1..], others[1..]);
    }
  }

  // ----- what becomes of each placeholder -----

  /** Each value, run through the passes behind its own. */
  ghost function Settled(bindings: seq<Binding>): (r: seq<Binding>)
    requires NoneOfItself(bindings)
    ensures |r| == |bindings|
  {
    if bindings == [] then []
    else
      AlwaysEnds(bindings[0].value, bindings[1..]);
      [bindings[0].(value := Passes(bindings[0].value, bindings[1..]))] + Settled(bindings[1..])
  }

  lemma {:induction false} PassedVar(name: string, bindings: seq<Binding>)
    requires IsName(name) && NamesOnly(bindings) && NoneOfItself(bindings)
    ensures Text(PassedPart(Var(name), bindings)) == Text(Lookup(Settled(bindings), Var(name)))
    decreases |bindings|
  {
    hide Inert, Occurs, Replaced, IsName, Placeholder;
    AlwaysEnds(Text(Var(name)), bindings);
    if bindings == [] {
    } else {
      var b, later := bindings[0], bindings[1..];
      assert b in bindings && Settled(bindings)[1..] == Settled(later);
      if b.name == name {
        ReplacedSelf(name, b.value);
      } else {
        OtherIsInert(name, b.name);
        InertMeans(Placeholder(b.name), Placeholder(name));
        ReplacedNone(Placeholder(name), Placeholder(b.name), b.value);
        PassedVar(name, later);
      }
    }
  }

  lemma ReplacedSelf(name: string, value: string)
    requires !Occurs(Placeholder(name), value)
    ensures Replaced(Placeholder(name), Placeholder(name), value) == value
  {
    var p, s := Placeholder(name), State(Placeholder(name), 0);
    assert p[..0] + value + p[|p|..] == value;
    FindIs(p, p, 0, 0);
    hide Find;
    assert Turn(s, p, value) == Step(State(value, 0));
    FindNone(value, p, 0);
    TurnReady(s, p, value, true);
    assert Outcome(State(value, 0), p, value, false) == value;
  }

  lemma PassedLit(text: string, bindings: seq<Binding>)
    requires NoneOfItself(bindings) && forall b :: b in bindings ==> !Occurs(Placeholder(b.name), text)
    ensures PassedPart(Lit(text), bindings) == Lit(text)
  {
    hide Occurs, Replaced;
    AlwaysEnds(text, bindings);
    PassesSkip(text, bindings, []);
    assert bindings + [] == bindings;
  }

  /** Behind every placeholder there is a piece of text that begins with a
      character of no placeholder, unless it is the end. */
  ghost predicate Spaced(parts: seq<Part>, bindings: seq<Binding>) {
    forall i :: 0 <= i < |parts| - 1 && parts[i].Var? ==> parts[i + 1].Lit? && Fence(parts[i + 1], bindings)
  }

  lemma SpacedIsApart(parts: seq<Part>, bindings: seq<Binding>)
    requires Template(parts) && Spaced(parts, bindings)
    ensures Apart(parts, bindings)
  {
    hide Inert, Calm, Fence, IsName;
    forall i | 0 <= i < |parts| && parts[i].Lit?
      ensures InertForAll(Text(parts[i]), bindings)
    {
      assert parts[i] in parts;
      forall b | b in bindings
        ensures Inert(Placeholder(b.name), Text(parts[i]))
      {
        CalmIsInert(b.name, parts[i].text);
      }
    }
  }

  /** What the passes come to on every such template and for all values for which
      they end: every placeholder is replaced by its value run through the later
      passes, by itself. */
  lemma PassesSettle(parts: seq<Part>, bindings: seq<Binding>)
    requires Template(parts) && NamesOnly(bindings) && NoneOfItself(bindings) && Spaced(parts, bindings)
    ensures PassesEnd(Flatten(parts), bindings)
    ensures Passes(Flatten(parts), bindings) == Flatten(Simultaneous(parts, Settled(bindings)))
  {
    hide Inert, Occurs, Replaced, Calm, Fenced, Spaced, Apart, IsName, Passes, PassesEnd, NoneOfItself;
    SpacedIsApart(parts, bindings);
    PassesByPieces(parts, bindings);
    forall i | 0 <= i < |parts|
      ensures Text(PassedParts(parts, bindings)[i]) == Text(Simultaneous(parts, Settled(bindings))[i])
    {
      PartSettles(parts[i], parts, bindings);
    }
    SameTexts(PassedParts(parts, bindings), Simultaneous(parts, Settled(bindings)));
  }

  lemma PartSettles(p: Part, parts: seq<Part>, bindings: seq<Binding>)
    requires Template(parts) && NamesOnly(bindings) && NoneOfItself(bindings) && p in parts
    ensures Text(PassedPart(p, bindings)) == Text(Lookup(Settled(bindings), p))
  {
    assert Tidy(p);
    hide Inert, Calm, IsName;
    match p
    case Var(name) => PassedVar(name, bindings);
    case Lit(text) =>
      LookupLit(Settled(bindings), text);
      forall b | b in bindings
        ensures !Occurs(Placeholder(b.name), text)
      {
        CalmIsInert(b.name, text);
        InertMeans(Placeholder(b.name), text);
      }
      PassedLit(text, bindings);
  }

  /** No value contains the placeholder of a later pass. */
  ghost predicate Undisturbed(bindings: seq<Binding>) {
    forall i, j :: 0 <= i < j < |bindings| ==> !Occurs(Placeholder(bindings[j].name), bindings[i].value)
  }

  /** Values that no later pass finds anything in settle at once. */
  lemma {:induction false} UndisturbedSettles(bindings: seq<Binding>)
    requires NoneOfItself(bindings) && Undisturbed(bindings)
    ensures Settled(bindings) == bindings
    decreases |bindings|
  {
    hide Occurs, Passes, PassesEnd;
    if bindings == [] {
    } else {
      var b, later := bindings[0], bindings[1..];
      assert forall j :: 0 <= j < |later| ==> later[j] == bindings[j + 1];
      UndisturbedSettles(later);
      AlwaysEnds(b.value, later);
      PassedLit(b.value, later);
      assert bindings == [b] + later;
    }
  }
}

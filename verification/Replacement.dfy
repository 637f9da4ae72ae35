/**
  Replacing a pattern everywhere in a text: when the loop ends, and when its
  result is the leftmost non-overlapping substitution.
 */
module Replacement {

  /** `pattern` stands in `s` at index `i`. */
  predicate At(s: string, pattern: string, i: nat) {
    i + |pattern| <= |s| && s[i..i + |pattern|] == pattern
  }

  datatype Index = Found(i: nat) | NotFound

  /** The first index from `pos` on at which the pattern stands. */
  function Find(s: string, pattern: string, pos: nat): (r: Index)
    ensures r.Found? ==> pos <= r.i && At(s, pattern, r.i) && forall j :: pos <= j < r.i ==> !At(s, pattern, j)
    ensures r.NotFound? ==> forall j :: pos <= j ==> !At(s, pattern, j)
    decreases |s| - pos
  {
    if pos > |s| then NotFound
    else if At(s, pattern, pos) then Found(pos)
    else Find(s, pattern, pos + 1)
  }

  ghost predicate Occurs(pattern: string, s: string) {
    exists i :: At(s, pattern, i)
  }

  lemma AtFits(s: string, pattern: string, i: nat)
    requires At(s, pattern, i)
    ensures i + |pattern| <= |s|
  {
  }

  lemma SliceOfSlice(s: string, i: nat, j: nat, k: nat, l: nat)
    requires i <= j <= |s| && k <= l <= j - i
    ensures s[i..j][k..l] == s[i + k..i + l]
  {
    forall m | 0 <= m < l - k
      ensures s[i..j][k..l][m] == s[i + k..i + l][m]
    {
      assert s[i..j][k..l][m] == s[i..j][k + m];
    }
  }

  /** Within an occurrence of `outer`, `inner` stands in the text where it stands in `outer`. */
  lemma AtWithin(s: string, outer: string, inner: string, pos: nat, k: nat)
    requires At(s, outer, pos) && k + |inner| <= |outer|
    ensures At(s, inner, pos + k) <==> At(outer, inner, k)
  {
    SliceOfSlice(s, pos, pos + |outer|, k, k + |inner|);
  }

  lemma AtAfter(a: string, b: string, pattern: string, i: nat)
    ensures At(a + b, pattern, |a| + i) <==> At(b, pattern, i)
  {
  }

  // ----- the loop -----

  /** The text so far and where to look next. */
  datatype State = State(text: string, pos: nat)

  datatype Next = Step(state: State) | Stop

  /** One turn: the position stays on the replacement. */
  function Turn(s: State, pattern: string, replace: string): Next {
    match Find(s.text, pattern, s.pos)
    case NotFound => Stop
    case Found(i) => Step(State(s.text[..i] + replace + s.text[i + |pattern|..], i))
  }

  /** The state after `n` turns, if the loop gets that far. */
  function Turns(s: State, pattern: string, replace: string, n: nat): Next
    decreases n
  {
    if n == 0 then Step(s)
    else match Turn(s, pattern, replace)
      case Stop => Stop
      case Step(s') => Turns(s', pattern, replace, n - 1)
  }

  ghost predicate Terminates(s: State, pattern: string, replace: string) {
    exists n: nat :: Turns(s, pattern, replace, n).Stop?
  }

  lemma TurnAt(s: State, pattern: string, replace: string, i: nat)
    requires Find(s.text, pattern, s.pos) == Found(i)
    ensures i + |pattern| <= |s.text|
    ensures Turn(s, pattern, replace) == Step(State(s.text[..i] + replace + s.text[i + |pattern|..], i))
  {
  }

  lemma NoTurn(s: State, pattern: string, replace: string)
    requires Find(s.text, pattern, s.pos) == NotFound
    ensures Turn(s, pattern, replace) == Stop
  {
  }

  /** How much of the text lies behind the replacement just made. */
  function Untouched(s: State, replace: string): nat {
    if s.pos + |replace| <= |s.text| then |s.text| - s.pos - |replace| else 0
  }

  lemma TurnLands(s: State, pattern: string, replace: string)
    requires Turn(s, pattern, replace).Step?
    ensures var s' := Turn(s, pattern, replace).state; s.pos <= s'.pos && At(s'.text, replace, s'.pos)
  {
  }

  /** The next match cannot lie within the replacement, so it uses up some of the
      text behind it. */
  lemma TurnProgress(s: State, pattern: string, replace: string)
    requires At(s.text, replace, s.pos) && !Occurs(pattern, replace)
    requires Turn(s, pattern, replace).Step?
    ensures var s' := Turn(s, pattern, replace).state;
      At(s'.text, replace, s'.pos) && Untouched(s', replace) < Untouched(s, replace)
  {
    TurnLands(s, pattern, replace);
    var i := Find(s.text, pattern, s.pos).i;
    if i + |pattern| <= s.pos + |replace| {
      AtWithin(s.text, replace, pattern, s.pos, i - s.pos);
      assert false;
    }
  }

  lemma {:induction false} SettlesDown(s: State, pattern: string, replace: string) returns (n: nat)
    requires At(s.text, replace, s.pos) && !Occurs(pattern, replace)
    ensures Turns(s, pattern, replace, n).Stop?
    decreases Untouched(s, replace)
  {
    hide At, Find, Turn, Turns, Occurs, Untouched;
    StopsAt(s, pattern, replace);
    if Turn(s, pattern, replace).Stop? {
      return 1;
    }
    TurnProgress(s, pattern, replace);
    var m := SettlesDown(Turn(s, pattern, replace).state, pattern, replace);
    TurnsNext(s, pattern, replace, m + 1);
    n := m + 1;
  }

  lemma FirstTurn(text: string, pattern: string, replace: string)
    ensures Turn(State(text, 0), pattern, replace).Step? <==> Occurs(pattern, text)
  {
  }

  lemma StopsAt(s: State, pattern: string, replace: string)
    ensures Turns(s, pattern, replace, 0) == Step(s)
    ensures Turn(s, pattern, replace).Stop? ==> Turns(s, pattern, replace, 1).Stop?
  {
  }

  lemma TurnsNext(s: State, pattern: string, replace: string, n: nat)
    requires n > 0 && Turn(s, pattern, replace).Step?
    ensures Turns(s, pattern, replace, n) == Turns(Turn(s, pattern, replace).state, pattern, replace, n - 1)
  {
  }

  lemma AlwaysATurn(s: State, pattern: string, replace: string)
    requires At(s.text, replace, s.pos) && Occurs(pattern, replace)
    ensures Turn(s, pattern, replace).Step?
  {
    hide At;
    var k: nat :| At(replace, pattern, k);
    InPlace(s.text, replace, pattern, s.pos, k);
  }

  lemma InPlace(s: string, outer: string, inner: string, pos: nat, k: nat)
    requires At(s, outer, pos) && At(outer, inner, k)
    ensures At(s, inner, pos + k)
  {
    AtWithin(s, outer, inner, pos, k);
  }

  /** A replacement that contains the pattern keeps the loop busy. */
  lemma {:induction false} KeepsGoing(s: State, pattern: string, replace: string, n: nat)
    requires At(s.text, replace, s.pos) && Occurs(pattern, replace)
    ensures Turns(s, pattern, replace, n).Step?
    decreases n
  {
    hide At, Find, Turn, Occurs;
    if n > 0 {
      AlwaysATurn(s, pattern, replace);
      TurnLands(s, pattern, replace);
      KeepsGoing(Turn(s, pattern, replace).state, pattern, replace, n - 1);
    }
  }

  /** Exactly when the loop comes to an end: the pattern is not in the text at
      all, or it is not in the replacement. (The empty pattern is in every text.) */
  lemma TerminatesExactly(text: string, pattern: string, replace: string)
    ensures Terminates(State(text, 0), pattern, replace) <==> !Occurs(pattern, text) || !Occurs(pattern, replace)
  {
    hide At, Find, Turn, Turns, Occurs;
    var s := State(text, 0);
    var t := Turn(s, pattern, replace);
    FirstTurn(text, pattern, replace);
    if t.Stop? {
      StopsAt(s, pattern, replace);
      assert Turns(s, pattern, replace, 1).Stop?;
    } else {
      TurnLands(s, pattern, replace);
      if Occurs(pattern, replace) {
        forall n: nat
          ensures Turns(s, pattern, replace, n).Step?
        {
          if n > 0 {
            TurnsNext(s, pattern, replace, n);
            KeepsGoing(t.state, pattern, replace, n - 1);
          } else {
            StopsAt(s, pattern, replace);
          }
        }
      } else {
        var m := SettlesDown(t.state, pattern, replace);
        TurnsNext(s, pattern, replace, m + 1);
        assert Turns(s, pattern, replace, m + 1).Stop?;
      }
    }
  }

  /** The loop can go on from here and will end. Before the first replacement
      the pattern must be missing from the text or from the replacement. */
  ghost predicate Ready(s: State, pattern: string, replace: string, first: bool) {
    if first then s.pos == 0 && (!Occurs(pattern, s.text) || !Occurs(pattern, replace))
    else At(s.text, replace, s.pos) && !Occurs(pattern, replace)
  }

  lemma TurnReady(s: State, pattern: string, replace: string, first: bool)
    requires Ready(s, pattern, replace, first) && Turn(s, pattern, replace).Step?
    ensures var s' := Turn(s, pattern, replace).state;
      Ready(s', pattern, replace, false) && (first || Untouched(s', replace) < Untouched(s, replace))
  {
    TurnLands(s, pattern, replace);
    if !first {
      TurnProgress(s, pattern, replace);
    }
  }

  /** What the loop leaves when it ends. */
  ghost function Outcome(s: State, pattern: string, replace: string, first: bool): string
    requires Ready(s, pattern, replace, first)
    decreases first, Untouched(s, replace)
  {
    if Turn(s, pattern, replace).Stop? then s.text
    else
      TurnReady(s, pattern, replace, first);
      Outcome(Turn(s, pattern, replace).state, pattern, replace, false)
  }

  ghost function Replaced(text: string, pattern: string, replace: string): string
    requires !Occurs(pattern, text) || !Occurs(pattern, replace)
  {
    Outcome(State(text, 0), pattern, replace, true)
  }

  method ReplaceAllWith(templ: string, pattern: string, replace: string) returns (result: string)
    requires !Occurs(pattern, templ) || !Occurs(pattern, replace)
    ensures result == Replaced(templ, pattern, replace)
  {
    hide At, Find, Untouched, Occurs;
    var pos := 0;
    result := templ;
    var next := Find(result, pattern, pos);
    ghost var first := true;
    while next.Found?
      invariant next == Find(result, pattern, pos)
      invariant Ready(State(result, pos), pattern, replace, first)
      invariant Outcome(State(result, pos), pattern, replace, first) == Replaced(templ, pattern, replace)
      decreases first, Untouched(State(result, pos), replace)
    {
      AtFits(result, pattern, next.i);
      TurnReady(State(result, pos), pattern, replace, first);
      pos := next.i;
      result := result[..pos] + replace + result[pos + |pattern|..];
      first := false;
      next := Find(result, pattern, pos);
    }
  }

  // ----- the substitution it should be -----

  /** Leftmost, non-overlapping, all occurrences. */
  function Substitute(s: string, pattern: string, replace: string): string
    requires pattern != ""
    decreases |s|
  {
    match Find(s, pattern, 0)
    case NotFound => s
    case Found(i) => s[..i] + replace + Substitute(s[i + |pattern|..], pattern, replace)
  }

  /** A match can begin within the replacement and end behind it. */
  ghost predicate Straddles(pattern: string, replace: string) {
    exists k :: 0 < k <= |replace| && k < |pattern| && EndsWithStart(pattern, replace, k)
  }

  /** The last `k` characters of the replacement are the pattern's first. */
  predicate EndsWithStart(pattern: string, replace: string, k: nat)
    requires k <= |replace|
  {
    k <= |pattern| && replace[|replace| - k..] == pattern[..k]
  }

  lemma FindIs(s: string, pattern: string, pos: nat, i: nat)
    requires pos <= i && At(s, pattern, i) && forall j :: pos <= j < i ==> !At(s, pattern, j)
    ensures Find(s, pattern, pos) == Found(i)
  {
  }

  lemma FindNone(s: string, pattern: string, pos: nat)
    requires forall j: nat :: pos <= j ==> !At(s, pattern, j)
    ensures Find(s, pattern, pos) == NotFound
  {
  }

  lemma AtBehind(a: string, b: string, pattern: string, pos: nat)
    requires pos <= |a| && forall j :: pos <= j < |a| ==> !At(a + b, pattern, j)
    ensures forall j: nat :: pos <= j ==> (At(a + b, pattern, j) <==> j >= |a| && At(b, pattern, j - |a|))
  {
  }

  /** Where no match begins in `a`, the search goes on in `b`. */
  lemma FindShift(a: string, b: string, pattern: string, pos: nat)
    requires pos <= |a| && forall j :: pos <= j < |a| ==> !At(a + b, pattern, j)
    ensures Find(a + b, pattern, pos) ==
      match Find(b, pattern, 0) { case NotFound => NotFound case Found(i) => Found(|a| + i) }
  {
    hide At, Find;
    AtBehind(a, b, pattern, pos);
    match Find(b, pattern, 0)
    case NotFound => FindNone(a + b, pattern, pos);
    case Found(i) =>
      assert At(a + b, pattern, |a| + i);
      FindIs(a + b, pattern, pos, |a| + i);
  }

  /** A match that begins within the replacement lies within it or straddles its end. */
  lemma MatchWithin(a: string, replace: string, b: string, pattern: string, j: nat)
    requires |a| <= j < |a| + |replace| && At(a + replace + b, pattern, j)
    ensures At(replace, pattern, j - |a|)
      || (|a| + |replace| - j < |pattern| && EndsWithStart(pattern, replace, |a| + |replace| - j))
  {
  }

  lemma NoneWithin(a: string, replace: string, b: string, pattern: string)
    requires !Occurs(pattern, replace) && !Straddles(pattern, replace)
    ensures forall j :: |a| <= j < |a| + |replace| ==> !At(a + replace + b, pattern, j)
  {
    forall j | |a| <= j < |a| + |replace|
      ensures !At(a + replace + b, pattern, j)
    {
      if At(a + replace + b, pattern, j) {
        MatchWithin(a, replace, b, pattern, j);
      }
    }
  }

  /** The text after a turn that finds the pattern in `b`. */
  lemma Cut(a: string, b: string, n: nat, i: nat, replace: string)
    requires i + n <= |b|
    ensures (a + b)[..|a| + i] + replace + (a + b)[|a| + i + n..] == (a + b[..i]) + replace + b[i + n..]
  {
  }

  /** After a replacement the search goes on behind it. */
  lemma FindBehind(a: string, b: string, pattern: string, replace: string)
    requires !Occurs(pattern, replace) && !Straddles(pattern, replace)
    ensures Find(a + replace + b, pattern, |a|) ==
      match Find(b, pattern, 0) { case NotFound => NotFound case Found(i) => Found(|a + replace| + i) }
  {
    NoneWithin(a, replace, b, pattern);
    hide At, Find, Straddles, Occurs;
    FindShift(a + replace, b, pattern, |a|);
  }

  lemma TurnTo(a: string, b: string, pattern: string, replace: string)
    requires !Occurs(pattern, replace) && !Straddles(pattern, replace)
    ensures Turn(State(a + replace + b, |a|), pattern, replace) ==
      match Find(b, pattern, 0) {
        case NotFound => Stop
        case Found(i) =>
          Step(State((a + replace + b[..i]) + replace + b[i + |pattern|..], |a + replace + b[..i]|)) }
  {
    hide Find, Straddles, Occurs, Turn, At;
    FindBehind(a, b, pattern, replace);
    var s := State(a + replace + b, |a|);
    match Find(b, pattern, 0)
    case NotFound => NoTurn(s, pattern, replace);
    case Found(i) =>
      AtFits(b, pattern, i);
      TurnAt(s, pattern, replace, |a + replace| + i);
      Cut(a + replace, b, |pattern|, i, replace);
  }

  lemma ReadyAfter(a: string, b: string, pattern: string, replace: string)
    requires !Occurs(pattern, replace)
    ensures Ready(State(a + replace + b, |a|), pattern, replace, false)
  {
  }

  lemma JoinSettled(a: string, h: string, replace: string, more: string)
    ensures a + replace + (h + replace + more) == (a + replace + h) + replace + more
  {
  }

  lemma {:induction false} SettlesTo(a: string, b: string, pattern: string, replace: string)
    requires pattern != "" && !Occurs(pattern, replace) && !Straddles(pattern, replace)
    ensures Ready(State(a + replace + b, |a|), pattern, replace, false)
    ensures Outcome(State(a + replace + b, |a|), pattern, replace, false)
      == a + replace + Substitute(b, pattern, replace)
    decreases |b|
  {
    hide At, Find, Ready, Turn, Straddles, Occurs;
    ReadyAfter(a, b, pattern, replace);
    TurnTo(a, b, pattern, replace);
    match Find(b, pattern, 0)
    case NotFound =>
    case Found(i) =>
      assert At(b, pattern, i);
      AtFits(b, pattern, i);
      var c := b[i + |pattern|..];
      SettlesTo(a + replace + b[..i], c, pattern, replace);
      JoinSettled(a, b[..i], replace, Substitute(c, pattern, replace));
  }

  lemma IsSubstitution(text: string, pattern: string, replace: string)
    requires pattern != "" && !Occurs(pattern, replace) && !Straddles(pattern, replace)
    ensures Replaced(text, pattern, replace) == Substitute(text, pattern, replace)
  {
    hide At, Find, Straddles, Occurs;
    match Find(text, pattern, 0)
    case NotFound =>
    case Found(i) =>
      assert At(text, pattern, i);
      AtFits(text, pattern, i);
      hide Ready;
      SettlesTo(text[..i], text[i + |pattern|..], pattern, replace);
  }

  /** The longest end of the replacement that begins the pattern. */
  lemma LongestStraddle(pattern: string, replace: string) returns (k: nat)
    requires Straddles(pattern, replace)
    ensures 0 < k <= |replace| && EndsWithStart(pattern, replace, k)
    ensures forall m :: k < m <= |replace| ==> !EndsWithStart(pattern, replace, m)
  {
    k := |replace|;
    while k > 0 && !EndsWithStart(pattern, replace, k)
      invariant k <= |replace| && forall m :: k < m <= |replace| ==> !EndsWithStart(pattern, replace, m)
    {
      k := k - 1;
    }
  }

  lemma AtEnd(s: string, i: nat)
    requires i <= |s|
    ensures At(s, s[i..], i)
  {
  }

  lemma StraddleShape(pattern: string, replace: string, k: nat)
    requires 0 < k <= |replace| && EndsWithStart(pattern, replace, k) && !Occurs(pattern, replace)
    ensures k < |pattern|
    ensures replace + pattern[k..] == replace[..|replace| - k] + pattern
  {
    var w := replace[..|replace| - k];
    assert replace == w + replace[|w|..];
    AtEnd(replace, |w|);
    assert pattern[..|pattern|] == pattern;
    var v := pattern[k..];
    assert pattern == pattern[..k] + v;
    assert (w + pattern[..k]) + v == w + (pattern[..k] + v);
  }

  lemma StraddleFound(pattern: string, replace: string, k: nat)
    requires 0 < k <= |replace| && EndsWithStart(pattern, replace, k) && !Occurs(pattern, replace)
    requires forall m :: k < m <= |replace| ==> !EndsWithStart(pattern, replace, m)
    ensures Find(replace + pattern[k..], pattern, 0) == Found(|replace| - k)
  {
    var w, v := replace[..|replace| - k], pattern[k..];
    StraddleShape(pattern, replace, k);
    assert "" + replace + v == replace + v;
    forall j | 0 <= j < |w|
      ensures !At(replace + v, pattern, j)
    {
      if At(replace + v, pattern, j) {
        MatchWithin("", replace, v, pattern, j);
      }
    }
    AtAfter(w, pattern, pattern, 0);
    FindIs(replace + v, pattern, 0, |w|);
  }

  lemma {:induction false} StraddleOutcome(pattern: string, replace: string, k: nat)
    requires 0 < k <= |replace| && EndsWithStart(pattern, replace, k) && !Occurs(pattern, replace)
    requires forall m :: k < m <= |replace| ==> !EndsWithStart(pattern, replace, m)
    ensures Ready(State(replace + pattern[k..], 0), pattern, replace, false)
    ensures Outcome(State(replace + pattern[k..], 0), pattern, replace, false)
      == replace[..|replace| - k] + replace
  {
    var w, s := replace[..|replace| - k], State(replace + pattern[k..], 0);
    assert At(s.text, replace, 0);
    StraddleFound(pattern, replace, k);
    StraddleShape(pattern, replace, k);
    assert Turn(s, pattern, replace) == Step(State(w + replace, |w|)) by {
      Cut(w, pattern, |pattern|, 0, replace);
      assert (w + pattern[..0]) + replace + pattern[|pattern|..] == w + replace;
    }
    FindShift(w, replace, pattern, |w|);
  }

  /** The pattern followed by its own end: the replacement and that end make up
      the pattern once more. */
  lemma StraddleDiffers(pattern: string, replace: string) returns (k: nat)
    requires !Occurs(pattern, replace) && Straddles(pattern, replace)
    ensures 0 < k < |pattern|
    ensures var text := pattern + pattern[k..];
      Substitute(text, pattern, replace) == replace + pattern[k..] != Replaced(text, pattern, replace)
  {
    k := LongestStraddle(pattern, replace);
    var w, v := replace[..|replace| - k], pattern[k..];
    StraddleShape(pattern, replace, k);
    var text := pattern + v;
    FindIs(text, pattern, 0, 0);
    assert text[|pattern|..] == v;
    assert text[..0] + replace + v == replace + v;
    StraddleOutcome(pattern, replace, k);
    AtEnd(replace, 0);
    hide At, Find, Ready, Turn, Straddles;
    assert Replaced(text, pattern, replace) == w + replace;
    assert Substitute(text, pattern, replace) == replace + v;
    assert (w + replace)[|w|..] == replace && (w + pattern)[|w|..] == pattern;
  }

  /** Exactly when the loop is leftmost, non-overlapping substitution on every
      text: no end of the replacement begins the pattern. */
  lemma SubstitutionExactly(pattern: string, replace: string)
    requires pattern != "" && !Occurs(pattern, replace)
    ensures (forall text :: Replaced(text, pattern, replace) == Substitute(text, pattern, replace))
      <==> !Straddles(pattern, replace)
  {
    if Straddles(pattern, replace) {
      var k := StraddleDiffers(pattern, replace);
      assert Replaced(pattern + pattern[k..], pattern, replace) != Substitute(pattern + pattern[k..], pattern, replace);
    } else {
      forall text
        ensures Replaced(text, pattern, replace) == Substitute(text, pattern, replace)
      {
        IsSubstitution(text, pattern, replace);
      }
    }
  }
}

/**
  Leftmost substitution piece by piece: how it works on a text put together
  from pieces, and that it is never without effect where it finds something.
 */
module Substitution {
  import opened Replacement

  /** No match begins in the text, whatever follows it. */
  ghost predicate Inert(pattern: string, text: string) {
    !Occurs(pattern, text) && !Straddles(pattern, text)
  }

  lemma SubstituteNotFound(s: string, pattern: string, replace: string)
    requires pattern != "" && Find(s, pattern, 0) == NotFound
    ensures Substitute(s, pattern, replace) == s
  {
  }

  lemma SubstituteNone(s: string, pattern: string, replace: string)
    requires pattern != "" && !Occurs(pattern, s)
    ensures Substitute(s, pattern, replace) == s
  {
  }

  lemma {:induction false} SubstituteAt(s: string, pattern: string, replace: string, i: nat)
    requires pattern != "" && Find(s, pattern, 0) == Found(i)
    ensures i + |pattern| <= |s|
    ensures Substitute(s, pattern, replace) == s[..i] + replace + Substitute(s[i + |pattern|..], pattern, replace)
  {
  }

  lemma SubstituteSelf(pattern: string, replace: string)
    requires pattern != ""
    ensures Substitute(pattern, pattern, replace) == replace
  {
  }

  // ----- matches in a text of two pieces -----

  lemma AtFront(t: string, rest: string, pattern: string, j: nat)
    requires j < |t| && !Straddles(pattern, t)
    ensures At(t + rest, pattern, j) <==> At(t, pattern, j)
  {
    assert "" + t + rest == t + rest;
    if At(t + rest, pattern, j) {
      MatchWithin("", t, rest, pattern, j);
    }
    assert At(t + rest, t, 0);
    if j + |pattern| <= |t| {
      AtWithin(t + rest, t, pattern, 0, j);
    }
  }

  lemma FindFront(t: string, rest: string, pattern: string)
    requires pattern != "" && !Straddles(pattern, t)
    ensures match Find(t, pattern, 0)
      case Found(i) => Find(t + rest, pattern, 0) == Found(i)
      case NotFound => forall j :: 0 <= j < |t| ==> !At(t + rest, pattern, j)
  {
    hide Straddles, Find;
    forall j: nat | j < |t|
      ensures At(t + rest, pattern, j) <==> At(t, pattern, j)
    {
      AtFront(t, rest, pattern, j);
    }
    match Find(t, pattern, 0)
    case NotFound =>
    case Found(i) => FindIs(t + rest, pattern, 0, i);
  }

  lemma StraddlesEnd(pattern: string, t: string, i: nat)
    requires i <= |t| && !Straddles(pattern, t)
    ensures !Straddles(pattern, t[i..])
  {
    var u := t[i..];
    forall k | 0 < k <= |u| && k < |pattern|
      ensures !EndsWithStart(pattern, u, k)
    {
      assert !EndsWithStart(pattern, t, k);
      assert u[|u| - k..] == t[|t| - k..];
    }
  }

  lemma CutBehind(t: string, rest: string, i: nat, n: nat, replace: string, more: string)
    requires i + n <= |rest|
    ensures (t + rest)[|t| + i + n..] == rest[i + n..]
    ensures (t + rest)[..|t| + i] + replace + more == t + (rest[..i] + replace + more)
  {
  }

  lemma CutFront(t: string, rest: string, i: nat, n: nat, replace: string, a: string, b: string)
    requires i + n <= |t|
    ensures (t + rest)[i + n..] == t[i + n..] + rest
    ensures (t + rest)[..i] + replace + (a + b) == (t[..i] + replace + a) + b
  {
  }

  /** Where no match begins in `t`, it stays. */
  lemma SubstituteSkips(t: string, rest: string, pattern: string, replace: string)
    requires pattern != "" && forall j :: 0 <= j < |t| ==> !At(t + rest, pattern, j)
    ensures Substitute(t + rest, pattern, replace) == t + Substitute(rest, pattern, replace)
  {
    hide At, Find, Substitute;
    FindShift(t, rest, pattern, 0);
    match Find(rest, pattern, 0)
    case NotFound =>
      SubstituteNotFound(rest, pattern, replace);
      SubstituteNotFound(t + rest, pattern, replace);
    case Found(i) =>
      SubstituteAt(rest, pattern, replace, i);
      SubstituteAt(t + rest, pattern, replace, |t| + i);
      CutBehind(t, rest, i, |pattern|, replace, Substitute(rest[i + |pattern|..], pattern, replace));
  }

  /** Where no match can reach from one piece into the next, the pieces are
      substituted one by one. */
  lemma {:induction false} SubstituteJoined(t: string, rest: string, pattern: string, replace: string)
    requires pattern != "" && !Straddles(pattern, t)
    ensures Substitute(t + rest, pattern, replace)
      == Substitute(t, pattern, replace) + Substitute(rest, pattern, replace)
    decreases |t|
  {
    FindFront(t, rest, pattern);
    match Find(t, pattern, 0)
    case NotFound =>
      hide Find, Substitute, Straddles;
      SubstituteSkips(t, rest, pattern, replace);
      SubstituteNone(t, pattern, replace);
    case Found(i) =>
      hide Find, Substitute, Straddles, At;
      SubstituteAt(t, pattern, replace, i);
      SubstituteAt(t + rest, pattern, replace, i);
      var u := t[i + |pattern|..];
      StraddlesEnd(pattern, t, i + |pattern|);
      SubstituteJoined(u, rest, pattern, replace);
      CutFront(t, rest, i, |pattern|, replace, Substitute(u, pattern, replace), Substitute(rest, pattern, replace));
  }

  /** Inert pieces make up an inert text. */
  lemma InertJoined(pattern: string, t: string, rest: string)
    requires Inert(pattern, t) && Inert(pattern, rest)
    ensures Inert(pattern, t + rest)
  {
    forall j: nat
      ensures !At(t + rest, pattern, j)
    {
      if j < |t| {
        AtFront(t, rest, pattern, j);
      } else {
        AtAfter(t, rest, pattern, j - |t|);
      }
    }
    forall k | 0 < k <= |t + rest| && k < |pattern|
      ensures !EndsWithStart(pattern, t + rest, k)
    {
      if EndsWithStart(pattern, t + rest, k) {
        StraddlesJoined(pattern, t, rest, k);
      }
    }
  }

  lemma StraddlesJoined(pattern: string, t: string, rest: string, k: nat)
    requires 0 < k <= |t + rest| && k < |pattern| && EndsWithStart(pattern, t + rest, k)
    ensures Straddles(pattern, rest) || Straddles(pattern, t)
  {
    var s := t + rest;
    if k <= |rest| {
      assert s[|s| - k..] == rest[|rest| - k..];
      assert EndsWithStart(pattern, rest, k);
    } else {
      var m := k - |rest|;
      assert s[|s| - k..][..m] == t[|t| - m..];
      assert pattern[..k][..m] == pattern[..m];
      assert EndsWithStart(pattern, t, m);
    }
  }

  // ----- when a pass has an effect -----

  /** Without a match the loop leaves the text alone. */
  lemma ReplacedNone(text: string, pattern: string, replace: string)
    requires !Occurs(pattern, text)
    ensures Replaced(text, pattern, replace) == text
  {
  }

  lemma {:induction false} SubstituteShrinks(s: string, pattern: string)
    requires pattern != ""
    ensures |Substitute(s, pattern, "")| <= |s|
    decreases |s|
  {
    match Find(s, pattern, 0)
    case NotFound =>
    case Found(i) => SubstituteShrinks(s[i + |pattern|..], pattern);
  }

  lemma MatchSplits(text: string, pattern: string, i: nat)
    requires Find(text, pattern, 0) == Found(i)
    ensures i + |pattern| <= |text| && text[i..] == pattern + text[i + |pattern|..]
  {
  }

  lemma BehindFront(front: string, replace: string, more: string)
    ensures (front + replace + more)[|front|..] == replace + more
  {
  }

  lemma {:induction false} SubstituteDiffers(text: string, pattern: string, replace: string, i: nat)
    requires pattern != "" && Inert(pattern, replace) && Find(text, pattern, 0) == Found(i)
    ensures Substitute(text, pattern, replace) != text
  {
    hide Find, Inert, Substitute, At;
    SubstituteAt(text, pattern, replace, i);
    var rest := text[i + |pattern|..];
    var more := Substitute(rest, pattern, replace);
    MatchSplits(text, pattern, i);
    BehindFront(text[..i], replace, more);
    StartsAlike(pattern, replace, rest, more);
    if replace == "" {
      SubstituteShrinks(rest, pattern);
    }
  }

  /** A match replaced by an inert text changes the whole: the replacement cannot
      begin with the pattern, nor be a start of it. */
  lemma ReplacedDiffers(text: string, pattern: string, replace: string)
    requires pattern != "" && Occurs(pattern, text) && Inert(pattern, replace)
    ensures Replaced(text, pattern, replace) != text
  {
    assert Find(text, pattern, 0).Found?;
    hide Find, Substitute, Replaced, At;
    IsSubstitution(text, pattern, replace);
    SubstituteDiffers(text, pattern, replace, Find(text, pattern, 0).i);
  }

  lemma AtStart(s: string, m: nat)
    requires m <= |s|
    ensures At(s, s[..m], 0)
  {
  }

  /** An inert text does not begin with the pattern, nor is it a start of it. */
  lemma StartsAlike(pattern: string, replace: string, rest: string, more: string)
    requires Inert(pattern, replace)
    ensures replace + more == pattern + rest ==> replace == "" && |more| == |pattern| + |rest|
  {
    var m := if |replace| < |pattern| then |replace| else |pattern|;
    assert (replace + more)[..m] == replace[..m];
    assert (pattern + rest)[..m] == pattern[..m];
    assert replace[0..] == replace;
    assert replace[..m] == pattern[..m] && m < |pattern| ==> EndsWithStart(pattern, replace, m);
    AtStart(replace, m);
    assert pattern[..|pattern|] == pattern;
  }
}

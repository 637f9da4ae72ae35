/** The `-locate-params` option: name=value pairs separated by commas. */
module LocateParams {
  import opened Bytes

  const COMMA: byte := 44
  const EQUALS: byte := 61

  predicate StandsAt(s: bytes, sep: bytes, i: nat) {
    i <= |s| && sep <= s[i..]
  }

  /** The index at which `sep` first stands, or the length if it never does. */
  function IndexOf(s: bytes, sep: bytes): (i: nat)
    ensures i <= |s| && (i < |s| ==> StandsAt(s, sep, i))
    ensures forall j :: 0 <= j < i ==> !StandsAt(s, sep, j)
  {
    if s == [] || sep <= s then 0
    else
      assert forall j: nat :: 0 < j <= |s| ==> (StandsAt(s, sep, j) <==> StandsAt(s[1..], sep, j - 1)) by {
        assert forall j: nat :: 0 < j <= |s| ==> s[1..][j - 1..] == s[j..];
      }
      1 + IndexOf(s[1..], sep)
  }

  function FirstToken(s: bytes, sep: bytes): bytes {
    s[..IndexOf(s, sep)]
  }

  /** What follows the first byte of the first separator. */
  function Rest(s: bytes, sep: bytes): (r: bytes)
    ensures s != [] ==> |r| < |s|
  {
    var i := IndexOf(s, sep);
    if i < |s| then s[i + 1..] else []
  }

  class KeyValueParserState {
    var first: bytes
    var rest: bytes

    constructor (first: bytes, rest: bytes)
      ensures this.first == first && this.rest == rest
    {
      this.first, this.rest := first, rest;
    }
  }

  method GetNextToken(s: bytes, sep: bytes, kv: KeyValueParserState) returns (more: bool)
    modifies kv
    ensures more <==> s != []
    ensures more ==> kv.first == FirstToken(s, sep) && kv.rest == Rest(s, sep)
    ensures !more ==> kv.first == old(kv.first) && kv.rest == old(kv.rest)
  {
    if s == [] {
      return false;
    }
    var p := IndexOf(s, sep);
    kv.first := s[..p];
    kv.rest := [];
    if p < |s| {
      kv.rest := s[p + 1..];
    }
    more := true;
  }

  type Metadata = map<bytes, bytes>

  /** One token's effect: nothing if it is empty. */
  function Apply(m: Metadata, token: bytes): Metadata {
    if token == [] then m else m[FirstToken(token, [EQUALS]) := Rest(token, [EQUALS])]
  }

  function Parse(m: Metadata, s: bytes): Metadata
    decreases |s|
  {
    if s == [] then m else Parse(Apply(m, FirstToken(s, [COMMA])), Rest(s, [COMMA]))
  }

  /** The loop over the pairs. */
  method ParseLocateParams(value: bytes, metadata: Metadata) returns (m: Metadata)
    ensures m == Parse(metadata, value)
  {
    m := metadata;
    var commas := new KeyValueParserState(value, []);
    var more := GetNextToken(commas.first, [COMMA], commas);
    ghost var left := value;
    while more
      invariant fresh(commas)
      invariant more <==> left != []
      invariant more ==> commas.first == FirstToken(left, [COMMA]) && commas.rest == Rest(left, [COMMA])
      invariant Parse(m, left) == Parse(metadata, value)
      decreases |left|
    {
      var param := new KeyValueParserState([], []);
      var isPair := GetNextToken(commas.first, [EQUALS], param);
      if isPair {
        m := m[param.first := param.rest];
      }
      commas.first := commas.rest;
      left := commas.first;
      more := GetNextToken(commas.first, [COMMA], commas);
    }
  }

  // ----- lists of pairs -----

  datatype Pair = Pair(key: bytes, value: bytes)

  predicate Plain(p: Pair) {
    COMMA !in p.key && EQUALS !in p.key && COMMA !in p.value
  }

  function Show(p: Pair): bytes {
    p.key + [EQUALS] + p.value
  }

  /** The pairs, separated by commas. */
  function Join(ps: seq<Pair>): bytes {
    if ps == [] then []
    else if |ps| == 1 then Show(ps[0])
    else Show(ps[0]) + [COMMA] + Join(ps[1..])
  }

  /** Assigning the values one after the other, so that the last one wins. */
  function Assign(m: Metadata, ps: seq<Pair>): Metadata
    decreases |ps|
  {
    if ps == [] then m else Assign(m[ps[0].key := ps[0].value], ps[1..])
  }

  lemma IndexStep(s: bytes, sep: byte)
    ensures IndexOf(s, [sep]) == if s == [] || s[0] == sep then 0 else 1 + IndexOf(s[1..], [sep])
  {
  }

  lemma {:induction false} IndexOfFirst(a: bytes, sep: byte, b: bytes)
    requires sep !in a
    ensures IndexOf(a + [sep] + b, [sep]) == |a| && IndexOf(a, [sep]) == |a|
  {
    hide IndexOf;
    var s := a + [sep] + b;
    IndexStep(a, sep);
    IndexStep(s, sep);
    if a == [] {
      assert s[0] == sep;
    } else {
      IndexOfFirst(a[1..], sep, b);
      assert s[0] == a[0] && s[1..] == a[1..] + [sep] + b;
    }
  }

  lemma TokenSplits(a: bytes, sep: byte, b: bytes)
    requires sep !in a
    ensures FirstToken(a + [sep] + b, [sep]) == a && Rest(a + [sep] + b, [sep]) == b
    ensures FirstToken(a, [sep]) == a && Rest(a, [sep]) == []
  {
    IndexOfFirst(a, sep, b);
    assert (a + [sep] + b)[..|a|] == a && (a + [sep] + b)[|a| + 1..] == b;
  }

  lemma ApplyShown(m: Metadata, p: Pair)
    requires Plain(p)
    ensures Apply(m, Show(p)) == m[p.key := p.value] && COMMA !in Show(p) && Show(p) != []
  {
    TokenSplits(p.key, EQUALS, p.value);
    assert COMMA != EQUALS;
  }

  /** Any list of pairs is read back as the assignments it stands for, on top of
      what was there before. */
  lemma {:induction false} JoinRoundTrip(m: Metadata, ps: seq<Pair>)
    requires forall i :: 0 <= i < |ps| ==> Plain(ps[i])
    ensures Parse(m, Join(ps)) == Assign(m, ps)
    decreases |ps|
  {
    if ps == [] {
    } else {
      var p, tail := ps[0], ps[1..];
      var m' := m[p.key := p.value];
      ApplyShown(m, p);
      TokenSplits(Show(p), COMMA, Join(tail));
      JoinRoundTrip(m', tail);
      if tail == [] {
        assert ps == [p];
        assert Parse(m, Show(p)) == Parse(m', []);
      } else {
        assert Join(ps) == Show(p) + [COMMA] + Join(tail);
      }
    }
  }

  /** What a list of assignments leaves behind for a key. */
  lemma {:induction false} LastWins(m: Metadata, ps: seq<Pair>, key: bytes)
    ensures key in Assign(m, ps) <==> key in m || exists i :: 0 <= i < |ps| && ps[i].key == key
    ensures forall i :: 0 <= i < |ps| && ps[i].key == key && (forall j :: i < j < |ps| ==> ps[j].key != key) ==>
      Assign(m, ps)[key] == ps[i].value
    ensures (forall i :: 0 <= i < |ps| ==> ps[i].key != key) && key in m ==> Assign(m, ps)[key] == m[key]
    decreases |ps|
  {
    if ps == [] {
    } else {
      var tail, m' := ps[1..], m[ps[0].key := ps[0].value];
      LastWins(m', tail, key);
      assert forall i :: 0 <= i < |tail| ==> tail[i] == ps[i + 1];
      assert forall i :: 0 < i < |ps| ==> ps[i] == tail[i - 1];
    }
  }

  // ----- any tokens at all -----

  /** What a token assigns: nothing if it is empty; with an equals sign, what is
      behind the first one to what is before it; without, the empty value to all of it. */
  ghost predicate Assigns(token: bytes, m: Metadata, m': Metadata) {
    if token == [] then m' == m
    else if 61 in token then
      exists key, value :: 61 !in key && token == key + [61] + value && m' == m[key := value]
    else m' == m[token := []]
  }

  lemma {:induction false} FirstOf(s: bytes, b: byte) returns (front: bytes, rest: bytes)
    requires b in s
    ensures b !in front && s == front + [b] + rest
  {
    if s[0] == b {
      front, rest := [], s[1..];
    } else {
      front, rest := FirstOf(s[1..], b);
      front := [s[0]] + front;
    }
  }

  lemma TokenAssigns(m: Metadata, token: bytes)
    ensures Assigns(token, m, Apply(m, token))
  {
    if 61 in token {
      var key, value := FirstOf(token, 61);
      TokenSplits(key, EQUALS, value);
    } else {
      TokenSplits(token, EQUALS, []);
    }
  }

  /** The tokens, separated by commas. */
  function Commas(tokens: seq<bytes>): bytes {
    if tokens == [] then [] else if |tokens| == 1 then tokens[0] else tokens[0] + [44] + Commas(tokens[1..])
  }

  /** The states between the assignments. */
  ghost predicate AssignsAll(tokens: seq<bytes>, ms: seq<Metadata>) {
    |ms| == |tokens| + 1 && forall i :: 0 <= i < |tokens| ==> Assigns(tokens[i], ms[i], ms[i + 1])
  }

  /** Any text is a list of tokens, empty ones included, and is read as their
      assignments, one after the other. */
  lemma {:induction false} AnyTokens(m: Metadata, tokens: seq<bytes>) returns (ms: seq<Metadata>)
    requires forall i :: 0 <= i < |tokens| ==> 44 !in tokens[i]
    ensures AssignsAll(tokens, ms) && ms[0] == m && Parse(m, Commas(tokens)) == ms[|tokens|]
    decreases |tokens|
  {
    if tokens == [] {
      ms := [m];
    } else {
      hide Assigns, Apply;
      var token, tail := tokens[0], tokens[1..];
      TokenAssigns(m, token);
      TokenSplits(token, COMMA, Commas(tail));
      var ns := AnyTokens(Apply(m, token), tail);
      ms := [m] + ns;
      NothingApplied(m);
      NextToken(m, tokens);
    }
  }

  lemma NothingApplied(m: Metadata)
    ensures Apply(m, []) == m && Parse(m, []) == m
  {
  }

  lemma NextToken(m: Metadata, tokens: seq<bytes>)
    requires tokens != [] && 44 !in tokens[0]
    ensures Parse(m, Commas(tokens)) == Parse(Apply(m, tokens[0]), Commas(tokens[1..]))
  {
    hide Apply;
    TokenSplits(tokens[0], COMMA, Commas(tokens[1..]));
    NothingApplied(m);
    if |tokens| == 1 {
      assert tokens[1..] == [];
    }
  }

  lemma {:induction false} SplitAtCommas(s: bytes) returns (tokens: seq<bytes>)
    ensures s == Commas(tokens) && forall i :: 0 <= i < |tokens| ==> 44 !in tokens[i]
    decreases |s|
  {
    if 44 in s {
      var front, rest := FirstOf(s, 44);
      var tail := SplitAtCommas(rest);
      if tail == [] {
        tail := [[]];
      }
      tokens := [front] + tail;
    } else {
      tokens := [s];
    }
  }
}

/** Reading and printing WebSocket URLs. */
module Urls {

  datatype UrlParts = UrlParts(scheme: string, host: string, port: string, path: string)

  const NO_PARTS := UrlParts("", "", "", "")

  predicate IsSeparator(c: char) {
    c == ':' || c == '/'
  }

  predicate IsDigit(c: char) {
    '0' <= c <= '9'
  }

  /** How many characters come before the first colon or slash. */
  function Run(s: string): (n: nat)
    ensures n <= |s|
    ensures forall i :: 0 <= i < n ==> !IsSeparator(s[i])
    ensures n < |s| ==> IsSeparator(s[n])
  {
    if s == "" || IsSeparator(s[0]) then 0 else 1 + Run(s[1..])
  }

  /** How many digits come first. */
  function Digits(s: string): (n: nat)
    ensures n <= |s|
    ensures forall i :: 0 <= i < n ==> IsDigit(s[i])
    ensures n < |s| ==> !IsDigit(s[n])
  {
    if s == "" || !IsDigit(s[0]) then 0 else 1 + Digits(s[1..])
  }

  /** The index of the first closing bracket. */
  function Closing(s: string): (n: nat)
    ensures n <= |s|
    ensures forall i :: 0 <= i < n ==> s[i] != ']'
    ensures n < |s| ==> s[n] == ']'
  {
    if s == "" || s[0] == ']' then 0 else 1 + Closing(s[1..])
  }

  // ----- the grammar -----

  predicate IsPort(port: string) {
    forall i :: 0 <= i < |port| ==> IsDigit(port[i])
  }

  /** Empty, or a slash and anything but line ends. */
  predicate IsPath(path: string) {
    path != "" ==> path[0] == '/' && '\n' !in path[1..] && '\r' !in path[1..]
  }

  predicate NoSeparator(s: string) {
    forall i :: 0 <= i < |s| ==> !IsSeparator(s[i])
  }

  /** Square brackets around one or more characters. */
  predicate IsBracketed(host: string) {
    |host| >= 3 && host[0] == '[' && host[|host| - 1] == ']' && forall i :: 0 <= i < |host| - 1 ==> host[i] != ']'
  }

  predicate IsHost(host: string) {
    NoSeparator(host) || IsBracketed(host)
  }

  predicate IsScheme(scheme: string) {
    scheme != "" && NoSeparator(scheme)
  }

  predicate Valid(p: UrlParts) {
    IsScheme(p.scheme) && IsHost(p.host) && IsPort(p.port) && IsPath(p.path)
  }

  function PrintTail(port: string, path: string): string {
    (if port == "" then "" else ":" + port) + path
  }

  function Print(p: UrlParts): string {
    p.scheme + "://" + p.host + PrintTail(p.port, p.path)
  }

  // ----- the parser -----

  datatype Tail = Tail(port: string, path: string) | NoTail

  function ParseTail(s: string): Tail {
    if s != "" && s[0] == ':' then
      var n := 1 + Digits(s[1..]);
      if n > 1 && IsPath(s[n..]) then Tail(s[1..n], s[n..]) else NoTail
    else if IsPath(s) then Tail("", s)
    else NoTail
  }

  datatype Authority = Authority(host: string, port: string, path: string) | NoAuthority

  function WithHost(host: string, tail: Tail): Authority {
    match tail
    case Tail(port, path) => Authority(host, port, path)
    case NoTail => NoAuthority
  }

  /** A host without separators is tried first, then one in brackets. */
  function ParseAuthority(s: string): Authority {
    var n := Run(s);
    var standard := WithHost(s[..n], ParseTail(s[n..]));
    var end := Closing(s);
    if standard.Authority? then standard
    else if s != "" && s[0] == '[' && 2 <= end < |s| then WithHost(s[..end + 1], ParseTail(s[end + 1..]))
    else NoAuthority
  }

  function DefaultPort(scheme: string, port: string): string {
    if port != "" then port
    else if scheme == "ws" || scheme == "http" then "80"
    else if scheme == "wss" || scheme == "https" then "443"
    else ""
  }

  function WithDefaultPort(p: UrlParts): UrlParts {
    p.(port := DefaultPort(p.scheme, p.port))
  }

  predicate HasScheme(url: string) {
    Run(url) > 0 && "://" <= url[Run(url)..]
  }

  function ParseWsUrl(url: string): UrlParts {
    if !HasScheme(url) then NO_PARTS
    else
      var n := Run(url);
      match ParseAuthority(url[n + 3..])
      case NoAuthority => NO_PARTS
      case Authority(host, port, path) => WithDefaultPort(UrlParts(url[..n], host, port, path))
  }

  // ----- the parser against the grammar -----

  lemma {:induction false} RunIs(s: string, n: nat)
    requires n <= |s| && NoSeparator(s[..n]) && (n < |s| ==> IsSeparator(s[n]))
    ensures Run(s) == n
  {
  }

  lemma DigitsIs(s: string, n: nat)
    requires n <= |s| && IsPort(s[..n]) && (n < |s| ==> !IsDigit(s[n]))
    ensures Digits(s) == n
  {
  }

  lemma TailComplete(port: string, path: string)
    requires IsPort(port) && IsPath(path)
    ensures ParseTail(PrintTail(port, path)) == Tail(port, path)
  {
    if port != "" {
      var s := PrintTail(port, path);
      assert s[1..] == port + path && s[1..][..|port|] == port;
      DigitsIs(s[1..], |port|);
      assert s[1 + |port|..] == path && s[1..1 + |port|] == port;
    }
  }

  lemma TailExact(s: string, port: string, path: string)
    ensures ParseTail(s) == Tail(port, path) <==> s == PrintTail(port, path) && IsPort(port) && IsPath(path)
  {
    if s == PrintTail(port, path) && IsPort(port) && IsPath(path) {
      TailComplete(port, path);
    }
    if s != "" && s[0] == ':' {
      var n := 1 + Digits(s[1..]);
      assert s == [s[0]] + s[1..n] + s[n..];
    }
  }

  /** The text of an authority, by either host form. */
  predicate IsAuthority(s: string, a: Authority) {
    a.Authority? && s == a.host + PrintTail(a.port, a.path) && IsHost(a.host) && IsPort(a.port) && IsPath(a.path)
  }

  lemma TailStarts(port: string, path: string)
    requires IsPath(path) && PrintTail(port, path) != ""
    ensures IsSeparator(PrintTail(port, path)[0])
  {
  }

  lemma StandardComplete(s: string, a: Authority)
    requires IsAuthority(s, a) && NoSeparator(a.host)
    ensures Run(s) == |a.host| && ParseAuthority(s) == a
  {
    var tail := PrintTail(a.port, a.path);
    if tail != "" {
      TailStarts(a.port, a.path);
    }
    assert s[..|a.host|] == a.host && s[|a.host|..] == tail;
    RunIs(s, |a.host|);
    TailComplete(a.port, a.path);
  }

  lemma {:induction false} StandardSound(s: string)
    requires ParseTail(s[Run(s)..]).Tail?
    ensures IsAuthority(s, ParseAuthority(s)) && NoSeparator(ParseAuthority(s).host)
  {
    var n := Run(s);
    var t := ParseTail(s[n..]);
    assert NoSeparator(s[..n]) && s == s[..n] + s[n..];
    hide ParseTail, PrintTail, IsPort, IsPath, IsBracketed, NoSeparator, Run, Closing;
    TailExact(s[n..], t.port, t.path);
  }

  lemma BracketedFound(host: string, rest: string)
    requires IsBracketed(host)
    ensures Closing(host + rest) == |host| - 1
    ensures (host + rest)[..|host|] == host && (host + rest)[|host|..] == rest && (host + rest)[0] == '['
  {
  }

  lemma BracketedComplete(s: string, a: Authority)
    requires IsAuthority(s, a) && IsBracketed(a.host) && ParseTail(s[Run(s)..]).NoTail?
    ensures ParseAuthority(s) == a
  {
    BracketedFound(a.host, PrintTail(a.port, a.path));
    TailComplete(a.port, a.path);
    hide Run, Closing, IsPort, IsPath, ParseTail, PrintTail, NoSeparator;
  }

  lemma {:induction false} BracketsCut(s: string)
    requires s != "" && s[0] == '[' && 2 <= Closing(s) < |s|
    ensures IsBracketed(s[..Closing(s) + 1])
    ensures s == s[..Closing(s) + 1] + s[Closing(s) + 1..]
  {
  }

  lemma BracketedSound(s: string)
    requires ParseTail(s[Run(s)..]).NoTail? && ParseAuthority(s).Authority?
    ensures IsAuthority(s, ParseAuthority(s)) && IsBracketed(ParseAuthority(s).host)
  {
    hide Run, Closing, IsPort, IsPath, ParseTail, PrintTail, NoSeparator, IsBracketed;
    BracketsCut(s);
    var rest := s[Closing(s) + 1..];
    var t := ParseTail(rest);
    TailExact(rest, t.port, t.path);
  }

  ghost predicate HasStandardReading(s: string) {
    exists a :: IsAuthority(s, a) && NoSeparator(a.host)
  }

  /** The parser is the grammar with its two host forms in order: it finds the
      one reading with a standard host if there is one, else the one reading
      with a bracketed host. */
  lemma AuthorityExact(s: string, a: Authority)
    requires a.Authority?
    ensures ParseAuthority(s) == a
      <==> IsAuthority(s, a) && (NoSeparator(a.host) || !HasStandardReading(s))
  {
    if ParseTail(s[Run(s)..]).Tail? {
      StandardSound(s);
      if IsAuthority(s, a) && NoSeparator(a.host) {
        StandardComplete(s, a);
      }
    } else {
      forall b | IsAuthority(s, b) && NoSeparator(b.host)
        ensures false
      {
        StandardComplete(s, b);
        StandardFound(s, b);
      }
      if ParseAuthority(s).Authority? {
        BracketedSound(s);
      }
      if IsAuthority(s, a) && IsBracketed(a.host) {
        BracketedComplete(s, a);
      }
    }
  }

  lemma StandardFound(s: string, a: Authority)
    requires IsAuthority(s, a) && NoSeparator(a.host)
    ensures ParseTail(s[Run(s)..]).Tail?
  {
    StandardComplete(s, a);
    assert s[|a.host|..] == PrintTail(a.port, a.path);
    TailComplete(a.port, a.path);
  }

  // ----- round trips -----

  /** By the standard form, the text of the host can be read as nothing but that host. */
  ghost predicate Unambiguous(host: string) {
    forall a :: IsAuthority(host, a) && NoSeparator(a.host) ==> a.host == host
  }

  /** What that means to the parser: the text behind the first separator is not
      a port and a path. */
  lemma UnambiguousExactly(host: string)
    ensures Unambiguous(host) <==> NoSeparator(host) || ParseTail(host[Run(host)..]).NoTail?
    ensures !NoSeparator(host) ==> (Unambiguous(host) <==> !HasStandardReading(host))
  {
    hide ParseTail, ParseAuthority, PrintTail, IsHost, IsPort, IsPath;
    forall a | IsAuthority(host, a) && NoSeparator(a.host)
      ensures Run(host) == |a.host| && a.host == host[..|a.host|] && ParseTail(host[Run(host)..]).Tail?
    {
      StandardComplete(host, a);
      StandardFound(host, a);
    }
    if ParseTail(host[Run(host)..]).Tail? {
      StandardSound(host);
    }
  }

  /** Whether a port follows is settled before the closing bracket. */
  lemma PortThroughHost(t: string, u: string)
    requires |t| >= 2 && t[0] == ':' && t[|t| - 1] == ']'
    ensures var n := Digits(t[1..]);
      && 1 + n < |t|
      && Digits((t + u)[1..]) == n
      && (t + u)[1 + n..] == t[1 + n..] + u
  {
    var s := t[1..];
    assert s[|s| - 1] == ']';
    var n := Digits(s);
    assert (t + u)[1..] == s + u;
    hide Digits;
    assert (s + u)[..n] == s[..n];
    DigitsIs(s + u, n);
  }

  /** Whether a bracketed host can be taken for a standard one does not depend on
      what follows it. */
  lemma TailThroughHost(t: string, port: string, path: string)
    requires t != "" && IsSeparator(t[0]) && t[|t| - 1] == ']'
    requires IsPort(port) && IsPath(path)
    ensures ParseTail(t + PrintTail(port, path)).Tail? <==> ParseTail(t).Tail?
  {
    var u := PrintTail(port, path);
    NoLineEnd(port, path);
    hide Digits, PrintTail, IsPort, IsPath;
    if t[0] == ':' {
      PortThroughHost(t, u);
      PathThrough(t[1 + Digits(t[1..])..], u);
    } else {
      PathThrough(t, u);
    }
  }

  lemma NoLineEnd(port: string, path: string)
    requires IsPort(port) && IsPath(path)
    ensures forall i :: 0 <= i < |PrintTail(port, path)| ==>
      PrintTail(port, path)[i] != '\n' && PrintTail(port, path)[i] != '\r'
  {
  }

  lemma PathThrough(w: string, u: string)
    requires w != "" && forall i :: 0 <= i < |u| ==> u[i] != '\n' && u[i] != '\r'
    ensures IsPath(w + u) <==> IsPath(w)
  {
    assert (w + u)[1..] == w[1..] + u;
  }

  lemma RunOfHost(host: string, rest: string)
    requires !NoSeparator(host)
    ensures var n := Run(host);
      n < |host| && IsSeparator(host[n]) && Run(host + rest) == n && (host + rest)[n..] == host[n..] + rest
  {
    var n := Run(host);
    assert n < |host|;
    hide Run, IsSeparator;
    assert (host + rest)[..n] == host[..n];
    RunIs(host + rest, n);
  }

  /** A host and a tail are read back exactly when the host is unambiguous. */
  lemma AuthorityRoundTrip(host: string, port: string, path: string)
    requires IsHost(host) && IsPort(port) && IsPath(path)
    ensures ParseAuthority(host + PrintTail(port, path)) == Authority(host, port, path) <==> Unambiguous(host)
  {
    var s, a := host + PrintTail(port, path), Authority(host, port, path);
    UnambiguousExactly(host);
    hide Unambiguous, Run, ParseTail, PrintTail, IsPort, IsPath, NoSeparator, Closing;
    if NoSeparator(host) {
      StandardComplete(s, a);
    } else {
      RunOfHost(host, PrintTail(port, path));
      var n := Run(host);
      assert host[n..][|host[n..]| - 1] == host[|host| - 1];
      TailThroughHost(host[n..], port, path);
      if ParseTail(host[n..]).NoTail? {
        hide ParseAuthority;
        BracketedComplete(s, a);
      } else {
        assert ParseAuthority(s).host == s[..n];
      }
    }
  }

  lemma SchemeSplit(url: string)
    requires HasScheme(url)
    ensures IsScheme(url[..Run(url)]) && url == url[..Run(url)] + ("://" + url[Run(url) + 3..])
  {
  }

  lemma SchemeJoin(scheme: string, rest: string)
    requires IsScheme(scheme)
    ensures HasScheme(scheme + ("://" + rest)) && Run(scheme + ("://" + rest)) == |scheme|
    ensures (scheme + ("://" + rest))[..|scheme|] == scheme
    ensures (scheme + ("://" + rest))[|scheme| + 3..] == rest
  {
    var url := scheme + ("://" + rest);
    assert url[..|scheme|] == scheme && url[|scheme|..] == "://" + rest;
    RunIs(url, |scheme|);
  }

  lemma PrintSplit(p: UrlParts)
    ensures Print(p) == p.scheme + ("://" + (p.host + PrintTail(p.port, p.path)))
  {
  }

  lemma ParsePrinted(p: UrlParts)
    requires IsScheme(p.scheme)
    ensures ParseWsUrl(Print(p)) ==
      match ParseAuthority(p.host + PrintTail(p.port, p.path)) {
        case NoAuthority => NO_PARTS
        case Authority(host, port, path) => WithDefaultPort(UrlParts(p.scheme, host, port, path)) }
  {
    hide HasScheme, Run, IsScheme, ParseAuthority, PrintTail, WithDefaultPort, Print;
    PrintSplit(p);
    SchemeJoin(p.scheme, p.host + PrintTail(p.port, p.path));
  }

  lemma PortPutIn(p: UrlParts)
    ensures var q := WithDefaultPort(p);
      && q.scheme == p.scheme && q.host == p.host && q.path == p.path
      && (p.port != "" ==> q.port == p.port)
      && (p.port == "" && p.scheme in {"ws", "http"} ==> q.port == "80")
      && (p.port == "" && p.scheme in {"wss", "https"} ==> q.port == "443")
      && (p.port == "" && p.scheme !in {"ws", "http", "wss", "https"} ==> q.port == "")
  {
  }

  /** What a successful parse has found before the default port is put in. */
  lemma ParseParts(url: string) returns (p: UrlParts)
    requires ParseWsUrl(url) != NO_PARTS
    ensures Valid(p) && Unambiguous(p.host)
    ensures url == Print(p) && ParseWsUrl(url) == WithDefaultPort(p)
    ensures var q := ParseWsUrl(url);
      && q.scheme == p.scheme && q.host == p.host && q.path == p.path
      && (p.port != "" ==> q.port == p.port)
      && (p.port == "" && p.scheme in {"ws", "http"} ==> q.port == "80")
      && (p.port == "" && p.scheme in {"wss", "https"} ==> q.port == "443")
      && (p.port == "" && p.scheme !in {"ws", "http", "wss", "https"} ==> q.port == "")
  {
    hide HasScheme, Run, IsScheme, ParseAuthority, PrintTail, WithDefaultPort, Print, IsHost, IsPort, IsPath,
      Unambiguous, HasStandardReading, NoSeparator;
    SchemeSplit(url);
    var n := Run(url);
    var s := url[n + 3..];
    var a := ParseAuthority(s);
    PortPutIn(UrlParts(url[..n], a.host, a.port, a.path));
    p := UrlParts(url[..n], a.host, a.port, a.path);
    AuthorityExact(s, a);
    AuthorityRoundTrip(a.host, a.port, a.path);
    PrintSplit(p);
  }

  lemma DefaultPortHolds(scheme: string, port: string)
    requires IsPort(port)
    ensures IsPort(DefaultPort(scheme, port))
    ensures DefaultPort(scheme, DefaultPort(scheme, port)) == DefaultPort(scheme, port)
  {
  }

  lemma NothingPrinted()
    ensures ParseWsUrl(Print(NO_PARTS)) == NO_PARTS
  {
  }

  /** Parsing is stable under printing, for every string: the default port put in
      by the first parse is read back by the second. */
  lemma ParsePrintParse(url: string)
    ensures ParseWsUrl(Print(ParseWsUrl(url))) == ParseWsUrl(url)
  {
    hide Print, ParseAuthority, PrintTail, IsScheme, IsHost, IsPort, IsPath, Unambiguous, DefaultPort, ParseWsUrl;
    var p := ParseWsUrl(url);
    if p == NO_PARTS {
      NothingPrinted();
    } else {
      var q := ParseParts(url);
      DefaultPortHolds(q.scheme, q.port);
      ParsePrinted(p);
      AuthorityRoundTrip(p.host, p.port, p.path);
    }
  }

  lemma NoSchemeNoParts(p: UrlParts)
    requires p.scheme == ""
    ensures ParseWsUrl(Print(p)) == NO_PARTS && WithDefaultPort(p) == p
  {
  }

  /** Exactly which parts come back from their printed form (with the default
      port put in): those of the grammar's shape whose host is unambiguous, and
      the empty parts that stand for a failure. */
  lemma PrintParseExact(p: UrlParts)
    ensures ParseWsUrl(Print(p)) == WithDefaultPort(p) <==> p == NO_PARTS || (Valid(p) && Unambiguous(p.host))
  {
    if p.scheme == "" {
      NoSchemeNoParts(p);
    } else {
      hide Unambiguous;
      if ParseWsUrl(Print(p)) == WithDefaultPort(p) {
        var q := ParseParts(Print(p));
        assert q.scheme == p.scheme;
      }
      if Valid(p) && Unambiguous(p.host) {
        ParsePrinted(p);
        AuthorityRoundTrip(p.host, p.port, p.path);
      }
    }
  }

  lemma ColonTail(t: string)
    requires |t| >= 2 && t[0] == ':' && t[|t| - 1] == ']' && forall i :: 0 <= i < |t| ==> t[i] != '/'
    ensures ParseTail(t).NoTail?
  {
  }

  /** A bracketed host without a slash is never ambiguous. */
  lemma BracketsWithoutSlash(host: string)
    requires IsBracketed(host) && forall i :: 0 <= i < |host| ==> host[i] != '/'
    ensures Unambiguous(host)
  {
    hide Unambiguous, ParseTail;
    UnambiguousExactly(host);
    if !NoSeparator(host) {
      ColonTail(host[Run(host)..]);
    }
  }

  lemma UrlRead(scheme: string, host: string, port: string, path: string)
    requires IsScheme(scheme) && IsHost(host) && Unambiguous(host) && IsPort(port) && IsPath(path)
    ensures port != "" ==> ParseWsUrl(scheme + "://" + host + ":" + port + path) == UrlParts(scheme, host, port, path)
    ensures ParseWsUrl(scheme + "://" + host + path) == WithDefaultPort(UrlParts(scheme, host, "", path))
  {
    hide ParseWsUrl, Unambiguous, IsHost, IsPath, IsPort, IsScheme;
    if port != "" {
      Spell(scheme, host, port, path);
      PrintParseExact(UrlParts(scheme, host, port, path));
    }
    assert IsPort("") by { PortEmpty(); }
    PrintParseExact(UrlParts(scheme, host, "", path));
    assert scheme + "://" + host + ("" + path) == scheme + "://" + host + path;
  }

  lemma PortEmpty()
    ensures IsPort("")
  {
  }

  /** Two usual ways to write a URL, character by character: with a host name or
      with an address in brackets; the port may be left out. */
  lemma UsualUrl(scheme: string, host: string, port: string, path: string)
    requires scheme != "" && ':' !in scheme && '/' !in scheme && ':' !in host && '/' !in host
    requires forall i :: 0 <= i < |port| ==> '0' <= port[i] <= '9'
    requires path != "" ==> path[0] == '/' && '\n' !in path && '\r' !in path
    ensures port != "" ==> ParseWsUrl(scheme + "://" + host + ":" + port + path) == UrlParts(scheme, host, port, path)
    ensures ParseWsUrl(scheme + "://" + host + path) == WithDefaultPort(UrlParts(scheme, host, "", path))
  {
    UnambiguousExactly(host);
    assert NoSeparator(host) && IsPath(path);
    hide ParseWsUrl, Unambiguous, WithDefaultPort;
    UrlRead(scheme, host, port, path);
  }

  lemma BracketedUrl(scheme: string, inner: string, port: string, path: string)
    requires scheme != "" && ':' !in scheme && '/' !in scheme && inner != "" && ']' !in inner && '/' !in inner
    requires forall i :: 0 <= i < |port| ==> '0' <= port[i] <= '9'
    requires path != "" ==> path[0] == '/' && '\n' !in path && '\r' !in path
    ensures var host := "[" + inner + "]";
      && (port != "" ==> ParseWsUrl(scheme + "://" + host + ":" + port + path) == UrlParts(scheme, host, port, path))
      && ParseWsUrl(scheme + "://" + host + path) == WithDefaultPort(UrlParts(scheme, host, "", path))
  {
    Bracketing(inner);
    BracketsWithoutSlash("[" + inner + "]");
    assert IsPath(path);
    hide ParseWsUrl, Unambiguous, WithDefaultPort, IsBracketed;
    UrlRead(scheme, "[" + inner + "]", port, path);
  }

  lemma Bracketing(inner: string)
    requires inner != "" && ']' !in inner && '/' !in inner
    ensures IsBracketed("[" + inner + "]") && forall i :: 0 <= i < |inner| + 2 ==> ("[" + inner + "]")[i] != '/'
  {
  }

  lemma Spell(scheme: string, host: string, port: string, path: string)
    requires port != ""
    ensures Print(UrlParts(scheme, host, port, path)) == scheme + "://" + host + ":" + port + path
    ensures WithDefaultPort(UrlParts(scheme, host, port, path)) == UrlParts(scheme, host, port, path)
  {
  }

  lemma ExampleHost()
    ensures IsBracketed("[1:2/x]") && "[1:2/x]" == "[1" + PrintTail("2", "/x]")
    ensures !NoSeparator("[1:2/x]")
  {
    assert IsSeparator("[1:2/x]"[2]);
  }

  lemma ExampleParts()
    ensures NoSeparator("[1") && IsPort("2") && IsPath("/x]")
  {
  }

  /** With a slash it can be: the brackets are read as host, port and path. */
  lemma BracketsWithSlash()
    ensures IsBracketed("[1:2/x]") && !Unambiguous("[1:2/x]")
    ensures ParseAuthority("[1:2/x]") == Authority("[1", "2", "/x]")
  {
    hide IsBracketed, PrintTail, NoSeparator, IsPort, IsPath, Run, ParseTail, ParseAuthority;
    ExampleHost();
    ExampleParts();
    StandardComplete("[1:2/x]", Authority("[1", "2", "/x]"));
    assert "[1:2/x]" != "[1" by { assert |"[1:2/x]"| != |"[1"|; }
  }
}

/** Decimal numbers within bounds: `strtonum` on top of `strtoll`. */
module Strtonum {
  import opened Bytes

  const LLONG_MIN: int := -0x8000_0000_0000_0000
  const LLONG_MAX: int := 0x7FFF_FFFF_FFFF_FFFF
  type LongLong = x: int | LLONG_MIN <= x <= LLONG_MAX

  const EINVAL: int := 22
  const ERANGE: int := 34

  predicate IsSpace(b: byte) {
    b == 32 || 9 <= b <= 13
  }

  predicate IsDigit(b: byte) {
    48 <= b <= 57
  }

  function DigitValue(b: byte): nat
    requires IsDigit(b)
  {
    b as int - 48
  }

  /** What a C function sees of a byte string: everything before the first NUL. */
  function CString(s: bytes): (r: bytes)
    ensures 0 !in r
  {
    if s == [] || s[0] == 0 then [] else [s[0]] + CString(s[1..])
  }

  function Spaces(s: bytes): (n: nat)
    ensures n <= |s|
  {
    if s == [] || !IsSpace(s[0]) then 0 else 1 + Spaces(s[1..])
  }

  function Digits(s: bytes): (n: nat)
    ensures n <= |s|
    ensures forall i :: 0 <= i < n ==> IsDigit(s[i])
    ensures n < |s| ==> !IsDigit(s[n])
  {
    if s == [] || !IsDigit(s[0]) then 0 else 1 + Digits(s[1..])
  }

  /** The number that a string of digits denotes, of whatever length. */
  function Decimal(s: bytes): nat
    requires forall i :: 0 <= i < |s| ==> IsDigit(s[i])
  {
    if s == [] then 0 else Decimal(s[..|s| - 1]) * 10 + DigitValue(s[|s| - 1])
  }

  function SignWidth(s: bytes): nat {
    if s != [] && (s[0] == 43 || s[0] == 45) then 1 else 0
  }

  datatype Scanned = Number(value: int, end: nat) | NoNumber

  /** The number at the front of a string, unbounded, and where it ends: white
      space, at most one sign, and at least one digit. */
  function Scan(s: bytes): (r: Scanned)
    ensures r.Number? ==> 0 < r.end <= |s|
  {
    var body := s[Spaces(s)..];
    var magnitude := body[SignWidth(body)..];
    var n := Digits(magnitude);
    if n == 0 then NoNumber
    else
      var value: int := Decimal(magnitude[..n]);
      Number(if body[0] == 45 then -value else value, Spaces(s) + SignWidth(body) + n)
  }

  /** `strtoll`: the value saturates, with ERANGE, and `end` is 0 if there is no
      number. */
  datatype LongOut = LongOut(value: LongLong, end: nat, erange: bool)

  function Strtoll(s: bytes): LongOut {
    match Scan(s)
    case NoNumber => LongOut(0, 0, false)
    case Number(v, end) =>
      if v > LLONG_MAX then LongOut(LLONG_MAX, end, true)
      else if v < LLONG_MIN then LongOut(LLONG_MIN, end, true)
      else LongOut(v, end, false)
  }

  datatype Verdict = Ok(value: int) | Invalid | TooSmall | TooLarge

  /** How a string stands to the bounds, by the unbounded number it denotes. */
  function Judge(s: bytes, minval: int, maxval: int): (v: Verdict)
    ensures v.Ok? ==> minval <= v.value <= maxval
  {
    if minval > maxval then Invalid
    else match Scan(s)
      case NoNumber => Invalid
      case Number(v, end) =>
        if end < |s| then Invalid
        else if v < minval then TooSmall
        else if v > maxval then TooLarge
        else Ok(v)
  }

  /** The thread's `errno`. */
  class Errno {
    var errno: int

    constructor (errno: int)
      ensures this.errno == errno
    {
      this.errno := errno;
    }

    method Call(s: bytes) returns (value: LongLong, end: nat)
      modifies this
      ensures var out := Strtoll(s);
        value == out.value && end == out.end && errno == if out.erange then 34 else old(errno)
    {
      var out := Strtoll(s);
      if out.erange {
        errno := ERANGE;
      }
      return out.value, out.end;
    }

    /** Saturation never shows: the verdict is the one for the unbounded number,
        and `errno` is only touched to report an error. */
    method Convert(numstr: bytes, minval: LongLong, maxval: LongLong) returns (ll: LongLong, verdict: Verdict)
      modifies this
      ensures verdict == Judge(CString(numstr), minval, maxval)
      ensures ll == if verdict.Ok? then verdict.value else 0
      ensures errno == if verdict.Ok? then old(errno) else if verdict.Invalid? then 22 else 34
    {
      var saved := errno;
      errno := 0;
      ll := 0;
      verdict := Ok(0);
      if minval > maxval {
        verdict := Invalid;
      } else {
        var s := CString(numstr);
        var end;
        ll, end := Call(s);
        if end == 0 || end < |s| {
          verdict := Invalid;
        } else if (ll == LLONG_MIN && errno == ERANGE) || ll < minval {
          verdict := TooSmall;
        } else if (ll == LLONG_MAX && errno == ERANGE) || ll > maxval {
          verdict := TooLarge;
        } else {
          verdict := Ok(ll);
        }
      }
      errno := if verdict.Ok? then saved else if verdict.Invalid? then EINVAL else ERANGE;
      if !verdict.Ok? {
        ll := 0;
      }
    }
  }

  // ----- numbers as they are printed -----

  function Print(n: nat): (s: bytes)
    ensures s != [] && forall i :: 0 <= i < |s| ==> IsDigit(s[i])
  {
    var digit := ByteOf(48 + n % 10);
    DigitOf(n % 10);
    if n < 10 then [digit] else Print(n / 10) + [digit]
  }

  lemma DigitOf(d: nat)
    requires d < 10
    ensures IsDigit(ByteOf(48 + d)) && DigitValue(ByteOf(48 + d)) == d
  {
  }

  lemma {:induction false} PrintDecimal(n: nat)
    ensures Decimal(Print(n)) == n
  {
    DigitOf(n % 10);
    var digit := ByteOf(48 + n % 10);
    if n < 10 {
      assert Print(n) == [digit];
      assert Decimal([]) == 0;
    } else {
      PrintDecimal(n / 10);
      assert Print(n) == Print(n / 10) + [digit];
      assert Print(n)[..|Print(n)| - 1] == Print(n / 10);
    }
  }

  lemma {:induction false} AllDigits(s: bytes)
    requires forall i :: 0 <= i < |s| ==> IsDigit(s[i])
    ensures Digits(s) == |s| && Spaces(s) == 0 && SignWidth(s) == 0 && CString(s) == s
  {
    if s == [] {
    } else {
      AllDigits(s[1..]);
      assert s == [s[0]] + s[1..];
    }
  }

  /** Every number within the bounds is read back from its digits, and every
      other one is refused for the right reason. */
  lemma PrintedNumber(n: nat, minval: int, maxval: int)
    requires minval <= maxval
    ensures Judge(CString(Print(n)), minval, maxval)
         == if n < minval then TooSmall else if n > maxval then TooLarge else Ok(n)
  {
    var s := Print(n);
    AllDigits(s);
    PrintDecimal(n);
    assert s[0..] == s && s[..|s|] == s;
    assert IsDigit(s[0]);
  }

  // ----- numbers with white space, a sign and something behind them -----

  predicate White(s: bytes) {
    forall i :: 0 <= i < |s| ==> s[i] == 32 || 9 <= s[i] <= 13
  }

  lemma {:induction false} SpacesAre(white: bytes, rest: bytes)
    requires White(white) && (rest == [] || !IsSpace(rest[0]))
    ensures Spaces(white + rest) == |white|
  {
    if white == [] {
      assert white + rest == rest;
    } else {
      SpacesAre(white[1..], rest);
      assert (white + rest)[1..] == white[1..] + rest;
    }
  }

  lemma {:induction false} DigitsAre(digits: bytes, rest: bytes)
    requires (forall i :: 0 <= i < |digits| ==> IsDigit(digits[i])) && (rest == [] || !IsDigit(rest[0]))
    ensures Digits(digits + rest) == |digits|
  {
    if digits == [] {
      assert digits + rest == rest;
    } else {
      DigitsAre(digits[1..], rest);
      assert (digits + rest)[1..] == digits[1..] + rest;
    }
  }

  lemma {:induction false} CStringIs(s: bytes, rest: bytes)
    requires 0 !in s
    ensures CString(s) == s && CString(s + [0] + rest) == s
  {
    if s == [] {
    } else {
      CStringIs(s[1..], rest);
      assert (s + [0] + rest)[1..] == s[1..] + [0] + rest;
      assert s == [s[0]] + s[1..];
    }
  }

  predicate IsSign(sign: bytes) {
    sign == [] || sign == [43] || sign == [45]
  }

  /** White space, a sign, digits, and then something else. */
  function Written(white: bytes, sign: bytes, digits: bytes, rest: bytes): bytes {
    white + (sign + (digits + rest))
  }

  lemma WrittenParts(white: bytes, sign: bytes, digits: bytes, rest: bytes)
    ensures var s := Written(white, sign, digits, rest);
      && s[|white|..] == sign + (digits + rest)
      && (sign + (digits + rest))[|sign|..] == digits + rest
      && (digits + rest)[..|digits|] == digits
      && |s| == |white| + |sign| + |digits| + |rest|
  {
  }

  lemma SignPart(sign: bytes, tail: bytes)
    requires IsSign(sign) && tail != [] && IsDigit(tail[0])
    ensures var body := sign + tail;
      && SignWidth(body) == |sign| && body[|sign|..] == tail
      && !IsSpace(body[0]) && (body[0] == 45 <==> sign == [45])
  {
  }

  lemma ScanIs(s: bytes, white: nat, width: nat, n: nat)
    requires white <= |s| && Spaces(s) == white
    requires var body := s[white..];
      SignWidth(body) == width && width <= |body| && Digits(body[width..]) == n && n > 0
    ensures var body := s[white..];
      Scan(s) == Number(if body[0] == 45 then -(Decimal(body[width..][..n]) as int) else Decimal(body[width..][..n]),
                        white + width + n)
  {
  }

  lemma ScanWritten(white: bytes, sign: bytes, digits: bytes, rest: bytes)
    requires White(white) && IsSign(sign)
    requires digits != [] && forall i :: 0 <= i < |digits| ==> IsDigit(digits[i])
    requires rest == [] || !IsDigit(rest[0])
    ensures Scan(Written(white, sign, digits, rest))
      == Number(if sign == [45] then -(Decimal(digits) as int) else Decimal(digits), |white| + |sign| + |digits|)
  {
    hide Spaces, Digits, Decimal, SignWidth, White, Scan, Written, IsSign;
    WrittenParts(white, sign, digits, rest);
    WrittenBody(white, sign, digits, rest);
    var tail := digits + rest;
    assert tail[0] == digits[0];
    SignPart(sign, tail);
    SpacesAre(white, sign + tail);
    DigitsAre(digits, rest);
    hide IsDigit, IsSpace;
    ScanIs(Written(white, sign, digits, rest), |white|, |sign|, |digits|);
  }

  lemma WrittenBody(white: bytes, sign: bytes, digits: bytes, rest: bytes)
    ensures Written(white, sign, digits, rest) == white + (sign + (digits + rest))
  {
  }

  lemma NoNul(white: bytes, sign: bytes, digits: bytes, rest: bytes)
    requires White(white) && IsSign(sign) && (forall i :: 0 <= i < |digits| ==> IsDigit(digits[i])) && 0 !in rest
    ensures 0 !in Written(white, sign, digits, rest)
  {
  }

  /** A signed number, however much white space is in front of it, is judged by its
      value; with anything but a NUL behind it, it is invalid. */
  lemma SignedNumber(white: bytes, sign: bytes, n: nat, rest: bytes, minval: int, maxval: int)
    requires White(white) && IsSign(sign) && minval <= maxval
    requires rest == [] || (0 !in rest && !IsDigit(rest[0]))
    ensures var v: int := if sign == [45] then -(n as int) else n;
      Judge(CString(Written(white, sign, Print(n), rest)), minval, maxval)
      == if rest != [] then Invalid else if v < minval then TooSmall else if v > maxval then TooLarge else Ok(v)
  {
    PrintDecimal(n);
    NoNul(white, sign, Print(n), rest);
    hide Decimal, Print, Scan, White, IsSign, IsDigit, CString;
    ScanWritten(white, sign, Print(n), rest);
    WrittenParts(white, sign, Print(n), rest);
    CStringIs(Written(white, sign, Print(n), rest), []);
  }

  /** Without digits there is no number. */
  lemma NoNumberWritten(white: bytes, sign: bytes, rest: bytes, minval: int, maxval: int)
    requires White(white) && IsSign(sign) && 0 !in rest
    requires rest == [] || !(IsDigit(rest[0]) || IsSpace(rest[0]) || rest[0] == 43 || rest[0] == 45)
    ensures Judge(CString(Written(white, sign, [], rest)), minval, maxval) == Invalid
  {
    var body := sign + ([] + rest);
    var s := Written(white, sign, [], rest);
    assert [] + rest == rest && s[|white|..] == body && body[|sign|..] == rest;
    assert sign == [] ==> body == rest;
    SpacesAre(white, body);
    assert SignWidth(body) == |sign|;
    assert Digits(rest) == 0;
    CStringIs(s, []);
  }

  /** What is behind a NUL is not looked at. */
  lemma NulEnds(s: bytes, rest: bytes, minval: int, maxval: int)
    requires 0 !in s
    ensures Judge(CString(s + [0] + rest), minval, maxval) == Judge(CString(s), minval, maxval)
  {
    CStringIs(s, rest);
  }

  /** Where `strtoll` saturates. */
  lemma SaturatesAt(s: bytes)
    requires Scan(s).Number?
    ensures var v, out := Scan(s).value, Strtoll(s);
      && (out.erange <==> v < -9223372036854775808 || v > 9223372036854775807)
      && (!out.erange ==> out.value == v)
      && (out.erange ==> out.value == if v < 0 then -9223372036854775808 else 9223372036854775807)
  {
  }
}

/** Bytes, 64-bit sizes, and numbers in network byte order. */
module Bytes {

  type byte = bv8
  type bytes = seq<byte>

  /** The largest value of the 64-bit `Size` type. */
  const SIZE_MAX: nat := 0xFFFF_FFFF_FFFF_FFFF
  type Size = n: nat | n <= SIZE_MAX

  function Min(a: nat, b: nat): nat {
    if a <= b then a else b
  }

  /** `was` with `data` written over it from index `start` on. */
  function Overlay(was: bytes, start: nat, data: bytes): (r: bytes)
    requires start + |data| <= |was|
    ensures |r| == |was|
  {
    was[..start] + data + was[start + |data|..]
  }

  lemma OverlaySlices(was: bytes, start: nat, data: bytes, end: nat)
    requires start + |data| <= end <= |was|
    ensures Overlay(was, start, data)[..start] == was[..start]
    ensures Overlay(was, start, data)[start..start + |data|] == data
    ensures Overlay(was, start, data)[end..] == was[end..]
  {
  }

  lemma OverlayFromBytes(was: bytes, start: nat, data: bytes, now: bytes)
    requires start + |data| <= |was| == |now|
    requires forall k :: 0 <= k < |data| ==> now[start + k] == data[k]
    requires forall k :: 0 <= k < |was| && !(start <= k < start + |data|) ==> now[k] == was[k]
    ensures now == Overlay(was, start, data)
  {
  }

  lemma OverlayNothing(was: bytes, start: nat)
    requires start <= |was|
    ensures Overlay(was, start, []) == was
  {
  }

  /** Writing one piece behind another. */
  lemma OverlayTwice(was: bytes, start: nat, a: bytes, b: bytes)
    requires start + |a| + |b| <= |was|
    ensures Overlay(Overlay(was, start, a), start + |a|, b) == Overlay(was, start, a + b)
  {
  }

  /** Cutting a byte string twice in a row. */
  lemma CutTwice(s: bytes, i: nat, n: nat)
    requires i + n <= |s|
    ensures s[..i] + s[i..][..n] == s[..i + n]
    ensures s[i..][n..] == s[i + n..]
  {
  }

  function Concat(parts: seq<bytes>): bytes {
    if parts == [] then [] else parts[0] + Concat(parts[1..])
  }

  lemma Associate(a: bytes, b: bytes, c: bytes)
    ensures (a + b) + c == a + (b + c)
  {
  }

  lemma {:induction false} ConcatAppend(a: seq<bytes>, b: seq<bytes>)
    ensures Concat(a + b) == Concat(a) + Concat(b)
  {
    if a == [] {
      assert a + b == b;
    } else {
      ConcatAppend(a[1..], b);
      assert (a + b)[1..] == a[1..] + b && (a + b)[0] == a[0];
      Associate(a[0], Concat(a[1..]), Concat(b));
    }
  }

  lemma ConcatOne(part: bytes)
    ensures Concat([part]) == part
  {
  }

  /** The bytes of a character string whose characters fit in one byte. */
  function Ascii(s: string): (r: bytes)
    ensures |r| == |s|
  {
    if s == "" then [] else [LowByte(s[0] as int)] + Ascii(s[1..])
  }

  lemma NextByte(b: byte)
    requires b as int < 255
    ensures (b + 1) as int == b as int + 1
  {
  }

  lemma SameByte(a: byte, b: byte)
    requires a as int == b as int
    ensures a == b
  {
  }

  /** The byte with a given value. */
  function ByteOf(n: nat): (b: byte)
    requires n < 256
    ensures b as int == n
  {
    if n == 0 then 0
    else
      NextByte(ByteOf(n - 1));
      ByteOf(n - 1) + 1
  }

  /** The eight least significant bits of a number. */
  function LowByte(n: nat): (b: byte)
    ensures b as int == n % 256
  {
    ByteOf(n % 256)
  }

  lemma ByteRange(b: byte)
    ensures 0 <= b as int < 256
  {
  }

  lemma SmallModulo(n: nat)
    requires n < 256
    ensures n % 256 == n
  {
  }

  lemma LowByteOf(b: byte)
    ensures 0 <= b as int < 256 && LowByte(b as int) == b
  {
    ByteRange(b);
    SmallModulo(b as int);
    SameByte(LowByte(b as int), b);
  }

  /** `n` in `width` bytes, most significant byte first. */
  function BigEndian(n: nat, width: nat): (r: bytes)
    ensures |r| == width
  {
    if width == 0 then [] else BigEndian(n / 256, width - 1) + [LowByte(n)]
  }

  /** The number that a byte string denotes in network byte order. */
  function FromBigEndian(s: bytes): nat {
    if s == [] then 0 else FromBigEndian(s[..|s| - 1]) * 256 + (s[|s| - 1] as int)
  }

  lemma FromBigEndianSnoc(s: bytes, b: byte)
    ensures FromBigEndian(s + [b]) == FromBigEndian(s) * 256 + (b as int)
  {
  }

  function Pow256(k: nat): (p: nat)
    ensures p > 0
  {
    if k == 0 then 1 else 256 * Pow256(k - 1)
  }

  /** Writing a number that fits and reading it back gives the same number. */
  lemma {:induction false} BigEndianRoundTrip(n: nat, width: nat)
    requires n < Pow256(width)
    ensures FromBigEndian(BigEndian(n, width)) == n
  {
    if width > 0 {
      BigEndianRoundTrip(n / 256, width - 1);
      FromBigEndianSnoc(BigEndian(n / 256, width - 1), LowByte(n));
    }
  }

  lemma AppendDigit(n: nat, d: nat, p: nat)
    requires n < p && d < 256
    ensures n * 256 + d < 256 * p && (n * 256 + d) / 256 == n && (n * 256 + d) % 256 == d
  {
  }

  /** Reading a byte string and writing the number back gives the same bytes. */
  lemma {:induction false} FromBigEndianRoundTrip(s: bytes)
    ensures FromBigEndian(s) < Pow256(|s|)
    ensures BigEndian(FromBigEndian(s), |s|) == s
  {
    if s == [] {
    } else {
      var prefix, last := s[..|s| - 1], s[|s| - 1];
      FromBigEndianRoundTrip(prefix);
      AppendDigit(FromBigEndian(prefix), last as int, Pow256(|prefix|));
      SameByte(LowByte(FromBigEndian(s)), last);
      assert s == prefix + [last];
    }
  }

  /** Octet `k` of a number, counted from the least significant one:
      the number shifted right by 8*k bits and cut to eight. */
  function Octet(n: nat, k: nat): byte {
    if k == 0 then LowByte(n) else Octet(n / 256, k - 1)
  }

  lemma {:induction false} BigEndianByte(n: nat, width: nat, i: nat)
    requires i < width
    ensures BigEndian(n, width)[i] == Octet(n, width - 1 - i)
  {
    if i < width - 1 {
      BigEndianByte(n / 256, width - 1, i);
    }
  }

  lemma {:induction false} TopOctet(n: nat, k: nat)
    requires n < Pow256(k + 1)
    ensures Octet(n, k) as int >= 128 <==> n >= 128 * Pow256(k)
  {
    if k == 0 {
      assert Pow256(1) == 256;
    } else {
      TopOctet(n / 256, k - 1);
    }
  }

  /** A number shifted right by a multiple of eight bits and cut to eight. */
  function Shifted(n: nat, bits: nat): byte {
    Octet(n, bits / 8)
  }

  lemma BigEndianTwo(n: nat, width: nat)
    requires width == 2
    ensures BigEndian(n, width) == [Shifted(n, 8), Shifted(n, 0)]
  {
    BigEndianByte(n, width, 0);
    BigEndianByte(n, width, 1);
  }

  lemma BigEndianEight(n: nat, width: nat)
    requires width == 8
    ensures BigEndian(n, width) == [
      Shifted(n, 56), Shifted(n, 48), Shifted(n, 40), Shifted(n, 32),
      Shifted(n, 24), Shifted(n, 16), Shifted(n, 8), Shifted(n, 0)]
  {
    forall i: nat | i < width
      ensures BigEndian(n, width)[i] == Octet(n, 7 - i)
    {
      BigEndianByte(n, width, i);
    }
  }

  lemma FromBigEndianMore(s: bytes, n: nat)
    requires 0 < n <= |s|
    ensures FromBigEndian(s[..n]) == FromBigEndian(s[..n - 1]) * 256 + (s[n - 1] as int)
  {
    assert s[..n][..n - 1] == s[..n - 1];
  }

  lemma FromBigEndianTwo(s: bytes)
    requires |s| == 2
    ensures FromBigEndian(s) == (s[0] as int) * 0x100 + (s[1] as int)
  {
    FromBigEndianMore(s, 2);
    FromBigEndianMore(s, 1);
    assert s[..2] == s;
  }

  lemma FromBigEndianEight(s: bytes)
    requires |s| == 8
    ensures FromBigEndian(s) ==
        (s[0] as int) * 0x100_0000_0000_0000 + (s[1] as int) * 0x1_0000_0000_0000
      + (s[2] as int) * 0x100_0000_0000 + (s[3] as int) * 0x1_0000_0000
      + (s[4] as int) * 0x100_0000 + (s[5] as int) * 0x1_0000
      + (s[6] as int) * 0x100 + (s[7] as int)
  {
    forall n | 0 < n <= 8
      ensures FromBigEndian(s[..n]) == FromBigEndian(s[..n - 1]) * 256 + (s[n - 1] as int)
    {
      FromBigEndianMore(s, n);
    }
    assert s[..8] == s;
  }
}

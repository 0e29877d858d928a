/** Bytes, the big-endian integers of the HPROF binary format, and splitting of byte strings. */
module Bytes {
  type Byte = x: int | 0 <= x < 256

  /** The range of a C++ `int`; every index the filter computes is checked against it. */
  type Int32 = x: int | -0x8000_0000 <= x < 0x8000_0000

  function BigEndian2(n: nat): (s: seq<Byte>)
    requires n < 0x1_0000
    ensures |s| == 2
  {
    [n / 0x100, n % 0x100]
  }

  function BigEndian4(n: nat): (s: seq<Byte>)
    requires n < 0x1_0000_0000
    ensures |s| == 4
  {
    [n / 0x100 / 0x100 / 0x100, n / 0x100 / 0x100 % 0x100, n / 0x100 % 0x100, n % 0x100]
  }

  function Unsigned2(s: seq<Byte>, i: nat): (n: nat)
    requires i + 2 <= |s|
    ensures n < 0x1_0000
  {
    s[i] as int * 0x100 + s[i + 1]
  }

  function Unsigned4(s: seq<Byte>, i: nat): (n: nat)
    requires i + 4 <= |s|
    ensures n < 0x1_0000_0000
  {
    ((s[i] as int * 0x100 + s[i + 1]) * 0x100 + s[i + 2]) * 0x100 + s[i + 3]
  }

  /** What a 32-bit pattern means when it is kept in a C++ `int`. */
  function ToSigned(n: nat): Int32
    requires n < 0x1_0000_0000
  {
    if n < 0x8000_0000 then n else n - 0x1_0000_0000
  }

  /** The cast `(unsigned int)` of a C++ `int`. */
  function ToUnsigned(n: Int32): (u: nat)
    ensures u < 0x1_0000_0000
  {
    if 0 <= n then n else n + 0x1_0000_0000
  }

  lemma Unsigned2Inverts(s: seq<Byte>, i: nat, n: nat)
    requires n < 0x1_0000 && i + 2 <= |s| && s[i..i + 2] == BigEndian2(n)
    ensures Unsigned2(s, i) == n
  {
    var t := s[i..i + 2];
    assert s[i] == t[0] && s[i + 1] == t[1];
  }

  lemma Unsigned4Inverts(s: seq<Byte>, i: nat, n: nat)
    requires n < 0x1_0000_0000 && i + 4 <= |s| && s[i..i + 4] == BigEndian4(n)
    ensures Unsigned4(s, i) == n
  {
    var t := s[i..i + 4];
    assert s[i] == t[0] && s[i + 1] == t[1] && s[i + 2] == t[2] && s[i + 3] == t[3];
  }

  lemma BigEndian2Inverts(s: seq<Byte>, i: nat)
    requires i + 2 <= |s|
    ensures BigEndian2(Unsigned2(s, i)) == s[i..i + 2]
  {
  }

  lemma LastDigit(q: int, d: int)
    requires 0 <= d < 0x100
    ensures (q * 0x100 + d) / 0x100 == q && (q * 0x100 + d) % 0x100 == d
  {
  }

  lemma BigEndian4Inverts(s: seq<Byte>, i: nat)
    requires i + 4 <= |s|
    ensures BigEndian4(Unsigned4(s, i)) == s[i..i + 4]
  {
    var a, b, c, d := s[i] as int, s[i + 1] as int, s[i + 2] as int, s[i + 3] as int;
    LastDigit((a * 0x100 + b) * 0x100 + c, d);
    LastDigit(a * 0x100 + b, c);
    LastDigit(a, b);
    assert s[i..i + 4] == [s[i], s[i + 1], s[i + 2], s[i + 3]];
  }

  // ----- splitting and joining

  lemma Assoc<T>(a: seq<T>, b: seq<T>, c: seq<T>)
    ensures a + b + c == a + (b + c)
  {
  }

  lemma Assoc4<T>(a: seq<T>, b: seq<T>, c: seq<T>, d: seq<T>, e: seq<T>)
    ensures (a + (b + (c + d))) + e == a + (b + (c + (d + e)))
  {
    Assoc(a, b + (c + d), e);
    Assoc(b, c + d, e);
    Assoc(c, d, e);
  }

  lemma Cut<T>(s: seq<T>, i: nat)
    requires i <= |s|
    ensures s == s[..i] + s[i..]
  {
  }

  lemma CutTwice<T>(s: seq<T>, i: nat, j: nat)
    requires i <= j <= |s|
    ensures s[i..] == s[i..j] + s[j..]
  {
  }

  lemma Joined<T>(a: seq<T>, b: seq<T>)
    ensures (a + b)[..|a|] == a && (a + b)[|a|..] == b
  {
  }

  lemma Pieces<T>(a: seq<T>, b: seq<T>, c: seq<T>, d: seq<T>, e: seq<T>)
    ensures var s, i := a + b + c + d + e, |a|;
      && s[..i] == a && s[i..i + |b|] == b && s[i + |b|..i + |b| + |c|] == c
      && s[i + |b| + |c|..i + |b| + |c| + |d|] == d && s[i + |b| + |c| + |d|..] == e
  {
  }

  lemma FivePieces<T>(s: seq<T>, i: nat, j: nat, k: nat, l: nat)
    requires i <= j <= k <= l <= |s|
    ensures s == s[..i] + s[i..j] + s[j..k] + s[k..l] + s[l..]
  {
    CutTwice(s, 0, i);
    assert s[..j] == s[..i] + s[i..j];
    assert s[..k] == s[..j] + s[j..k];
    assert s[..l] == s[..k] + s[k..l];
    Cut(s, l);
  }
}

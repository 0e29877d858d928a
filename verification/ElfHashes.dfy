/**
 The two name hashes of the ELF reader, as its loops compute them in 32-bit words, against the
 functions that the builders of the tables use.
 */
module ElfHashes {
  import opened Bytes
  import opened Bits

  const WORD := 0x1_0000_0000

  type Word = x: int | 0 <= x < 0x1_0000_0000

  // ----- the loops

  /** One round of the loop of the SysV hash. */
  function SysvRound(h: Word, c: Byte): Word {
    var h1: Word := (h * 16 % WORD + c) % WORD;
    var g := And(h1, 0xF000_0000);
    WordsOnly(h1, g);
    var h2 := Xor(h1, g);
    Xor(h2, Shr(g, 24))
  }

  function SysvHash(name: seq<Byte>): Word {
    if name == [] then 0 else SysvRound(SysvHash(name[..|name| - 1]), name[|name| - 1])
  }

  method ElfHash(name: seq<Byte>) returns (h: Word)
    ensures h == SysvHash(name)
  {
    h := 0;
    for i := 0 to |name|
      invariant h == SysvHash(name[..i])
    {
      assert name[..i + 1][..i] == name[..i];
      h := (h * 16 % WORD + name[i]) % WORD;
      var g := And(h, 0xF000_0000);
      WordsOnly(h, g);
      h := Xor(h, g);
      h := Xor(h, Shr(g, 24));
    }
    assert name[..|name|] == name;
  }

  /** Repeated `h * 33 + c`, starting from 5381, without any bound. */
  function Times33(name: seq<Byte>): nat {
    if name == [] then 5381 else Times33(name[..|name| - 1]) * 33 + name[|name| - 1]
  }

  /** The GNU hash; the loop's shifts and additions in 32-bit words come to `Times33`. */
  method GnuHash(name: seq<Byte>) returns (h: Word)
    ensures h == Times33(name) % WORD
  {
    h := 5381;
    for i := 0 to |name|
      invariant h == Times33(name[..i]) % WORD
    {
      assert name[..i + 1][..i] == name[..i];
      WrappedRound(Times33(name[..i]), name[i]);
      h := (h + (h * 32 % WORD + name[i]) % WORD) % WORD;
    }
    assert name[..|name|] == name;
  }

  lemma WrappedRound(n: nat, c: Byte)
    ensures var h := n % WORD; (h + (h * 32 % WORD + c) % WORD) % WORD == (n * 33 + c) % WORD
  {
    var h, q := n % WORD, n / WORD;
    WrappedSum(c, h * 32);
    WrappedSum(h, h * 32 + c);
    assert n * 33 + c == h * 33 + c + q * 33 * WORD;
    WrappedMultiple(h * 33 + c, q * 33);
  }

  lemma WrappedSum(a: int, b: int)
    ensures (a + b % WORD) % WORD == (a + b) % WORD
  {
  }

  lemma WrappedMultiple(a: int, q: int)
    ensures (a + q * WORD) % WORD == a % WORD
  {
  }

  // ----- the SysV hash of the System V ABI, chapter 5, "Hash Table"

  /** The round as the ABI writes it, in 32-bit words. */
  function AbiRound(h: Word, c: Byte): Word {
    var h1: Word := (h * 16 % WORD + c) % WORD;
    var g := And(h1, 0xF000_0000);
    AndAtMost(h1, 0xF000_0000);
    var h2 := if g != 0 then Xor(h1, Shr(g, 24)) else h1;
    AndAtMost(h2, 0xFFFF_FFFF - g);
    And(h2, 0xFFFF_FFFF - g)
  }

  const P28 := 0x1000_0000

  lemma Pow2Values()
    ensures Pow2(4) == 16 && Pow2(24) == 0x100_0000 && Pow2(28) == P28 && Pow2(32) == WORD
  {
    Times16(0);
    Times16(4);
    Times16(8);
    Times16(12);
    Times16(16);
    Times16(20);
    Times16(24);
    Times16(28);
  }

  lemma Times16(k: nat)
    ensures Pow2(k + 4) == 16 * Pow2(k)
  {
    assert Pow2(k + 2) == 4 * Pow2(k);
    assert Pow2(k + 4) == 4 * Pow2(k + 2);
  }

  /** The intermediate results of a round are words. */
  lemma WordsOnly(h: Word, g: nat)
    requires g == And(h, 0xF000_0000)
    ensures Xor(h, g) < WORD && Xor(Xor(h, g), Shr(g, 24)) < WORD
  {
    AndAtMost(h, 0xF000_0000);
    XorWord(h, g);
    Pow2Values();
    ShrIsDiv(g, 24);
    XorWord(Xor(h, g), Shr(g, 24));
  }

  lemma XorWord(x: nat, y: nat)
    requires x < WORD && y < WORD
    ensures Xor(x, y) < WORD
  {
    Pow2Values();
    XorBound(x, y, 32);
  }

  lemma AndAtMost(x: nat, y: nat)
    ensures And(x, y) <= x && And(x, y) <= y
    decreases x
  {
  }

  lemma Joined28(x: nat, high: nat, low: nat)
    requires x == high * P28 + low && low < P28
    ensures Shr(x, 28) == high && Low(x, 28) == low
  {
    Pow2Values();
    HighAndLow(x, 28);
    UniqueQuotient(P28, Shr(x, 28), Low(x, 28), high, low);
  }

  lemma Parts28(x: nat)
    ensures x == Shr(x, 28) * P28 + Low(x, 28) && Low(x, 28) < P28
  {
    Pow2Values();
    HighAndLow(x, 28);
  }

  /** The top four bits, and what the round shifts them down to. */
  lemma TopNibble(t: Word)
    ensures var n := Shr(t, 28);
      && n < 16 && And(t, 0xF000_0000) == n * P28 && Shr(And(t, 0xF000_0000), 24) == n * 16
  {
    var n, g := Shr(t, 28), And(t, 0xF000_0000);
    Parts28(t);
    Joined28(0xF000_0000, 15, 0);
    AndSplit(t, 0xF000_0000, 28);
    Pow2Values();
    MaskIsLow(n, 4);
    ShrIsDiv(n, 4);
    assert And(Low(t, 28), 0) == 0;
    Parts28(g);
    ShrIsDiv(g, 24);
  }

  lemma SourceRound(t: Word)
    ensures var n, g := Shr(t, 28), And(t, 0xF000_0000);
      Xor(Xor(t, g), Shr(g, 24)) == Xor(Low(t, 28), n * 16)
  {
    var n, g := Shr(t, 28), And(t, 0xF000_0000);
    TopNibble(t);
    Joined28(g, n, 0);
    XorSplit(t, g, 28);
    XorZero(n, n);
    XorZeroRight(Low(t, 28));
    Parts28(Xor(t, g));
  }

  lemma ShiftedIn(t: Word)
    ensures var n := Shr(t, 28);
      Shr(Xor(t, n * 16), 28) == n && Low(Xor(t, n * 16), 28) == Xor(Low(t, 28), n * 16)
  {
    var n := Shr(t, 28);
    TopNibble(t);
    Joined28(n * 16, 0, n * 16);
    XorSplit(t, n * 16, 28);
    XorZeroRight(n);
  }

  lemma NibbleComplement(n: nat)
    requires n < 16
    ensures And(n, 15 - n) == 0
  {
    Pow2Values();
    AndComplement(n, 4);
  }

  lemma FullMask28(x: nat)
    requires x < P28
    ensures And(x, P28 - 1) == x
  {
    Pow2Values();
    MaskIsLow(x, 28);
    Joined28(x, 0, x);
  }

  lemma ClearTop(u: nat, n: nat)
    requires n < 16 && Shr(u, 28) == n
    ensures And(u, 0xFFFF_FFFF - n * P28) == Low(u, 28)
  {
    var mask := 0xFFFF_FFFF - n * P28;
    Joined28(mask, 15 - n, P28 - 1);
    AndSplit(u, mask, 28);
    NibbleComplement(n);
    Parts28(u);
    FullMask28(Low(u, 28));
    Parts28(And(u, mask));
  }

  /** The reader's round is the ABI's round, and leaves the top four bits clear. */
  lemma RoundIsAbi(h: Word, c: Byte)
    ensures SysvRound(h, c) == AbiRound(h, c) && SysvRound(h, c) < P28
  {
    var t: Word := (h * 16 % WORD + c) % WORD;
    var n := Shr(t, 28);
    TopNibble(t);
    SourceRound(t);
    ShiftedIn(t);
    ClearTop(Xor(t, n * 16), n);
    XorZeroRight(t);
    Parts28(t);
    Pow2Values();
    XorBound(Low(t, 28), n * 16, 28);
  }

  function AbiHash(name: seq<Byte>): Word {
    if name == [] then 0 else AbiRound(AbiHash(name[..|name| - 1]), name[|name| - 1])
  }

  lemma {:induction false} SysvHashIsAbi(name: seq<Byte>)
    ensures SysvHash(name) == AbiHash(name) < P28
  {
    if name != [] {
      SysvHashIsAbi(name[..|name| - 1]);
      RoundIsAbi(SysvHash(name[..|name| - 1]), name[|name| - 1]);
    }
  }

  /** One more character: the top four of the shifted bits come back in, four bits from the bottom. */
  lemma HashOfLonger(name: seq<Byte>, c: Byte, t: Word, n: nat, low: nat)
    requires t == (SysvHash(name) * 16 % WORD + c) % WORD == n * P28 + low && n < 16 && low < P28
    ensures SysvHash(name + [c]) == Xor(low, n * 16)
  {
    assert (name + [c])[..|name|] == name;
    Joined28(t, n, low);
    SourceRound(t);
  }

  lemma SmallShift(h: nat, c: Byte)
    requires h * 16 + c < P28
    ensures (h * 16 % WORD + c) % WORD == h * 16 + c
  {
  }

  lemma XorNothing(x: nat, zero: nat)
    requires zero == 0
    ensures Xor(x, zero) == x
  {
    XorZeroRight(x);
  }

  /** As long as the bits fit, they are only shifted in. */
  lemma HashOfShort(name: seq<Byte>, c: Byte, t: Word, zero: nat)
    requires zero == 0 && t == SysvHash(name) * 16 + c < P28
    ensures SysvHash(name + [c]) == t
  {
    SmallShift(SysvHash(name), c);
    HashOfLonger(name, c, t, zero, t);
    XorNothing(t, zero * 16);
  }
}

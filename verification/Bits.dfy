/** Bitwise operations of unsigned machine words, on naturals. */
module Bits {
  function Pow2(k: nat): (p: nat)
    ensures p > 0
  {
    if k == 0 then 1 else 2 * Pow2(k - 1)
  }

  function And(x: nat, y: nat): nat
    decreases x
  {
    if x == 0 || y == 0 then 0
    else 2 * And(x / 2, y / 2) + if x % 2 == 1 && y % 2 == 1 then 1 else 0
  }

  function Xor(x: nat, y: nat): nat
    decreases x + y
  {
    if x == 0 && y == 0 then 0
    else 2 * Xor(x / 2, y / 2) + if x % 2 != y % 2 then 1 else 0
  }

  /** `x >> k` */
  function Shr(x: nat, k: nat): nat {
    if k == 0 then x else Shr(x / 2, k - 1)
  }

  /** The lowest `k` bits of `x`. */
  function Low(x: nat, k: nat): nat {
    if k == 0 then 0 else 2 * Low(x / 2, k - 1) + x % 2
  }

  predicate Bit(x: nat, k: nat) {
    Shr(x, k) % 2 == 1
  }

  // ----- shifting is dividing

  lemma AtLeast(a: int, m: int)
    requires a >= 1 && m > 0
    ensures a * m >= m
  {
    assert (a - 1) * m >= 0;
  }

  lemma UniqueQuotient(m: int, q: int, r: int, q': int, r': int)
    requires m > 0 && q * m + r == q' * m + r' && 0 <= r < m && 0 <= r' < m
    ensures q == q' && r == r'
  {
    assert (q - q') * m == r' - r;
    if q > q' {
      AtLeast(q - q', m);
    } else if q < q' {
      AtLeast(q' - q, m);
    }
  }

  lemma Euclid(x: int, m: int)
    requires m > 0
    ensures x == x / m * m + x % m && 0 <= x % m < m
  {
  }

  lemma {:induction false} HighAndLow(x: nat, k: nat)
    ensures x == Shr(x, k) * Pow2(k) + Low(x, k) && Low(x, k) < Pow2(k)
  {
    if k > 0 {
      HighAndLow(x / 2, k - 1);
      Doubled(Shr(x / 2, k - 1), Pow2(k - 1));
    }
  }

  lemma Doubled(a: nat, m: nat)
    ensures a * (2 * m) == 2 * (a * m)
  {
  }

  lemma ShrIsDiv(x: nat, k: nat)
    ensures Shr(x, k) == x / Pow2(k) && Low(x, k) == x % Pow2(k)
  {
    HighAndLow(x, k);
    Euclid(x, Pow2(k));
    UniqueQuotient(Pow2(k), Shr(x, k), Low(x, k), x / Pow2(k), x % Pow2(k));
  }

  // ----- laws of And

  lemma {:induction false} MaskIsLow(x: nat, k: nat)
    ensures And(x, Pow2(k) - 1) == Low(x, k)
  {
    if k > 0 {
      MaskIsLow(x / 2, k - 1);
      assert (Pow2(k) - 1) / 2 == Pow2(k - 1) - 1 && (Pow2(k) - 1) % 2 == 1;
    }
  }

  /** Masking with one less than a power of two is the remainder. */
  lemma MaskIsMod(x: nat, k: nat)
    ensures And(x, Pow2(k) - 1) == x % Pow2(k)
  {
    MaskIsLow(x, k);
    ShrIsDiv(x, k);
  }

  lemma AndStep(x: nat, y: nat)
    ensures And(x, y) == 2 * And(x / 2, y / 2) + if x % 2 == 1 && y % 2 == 1 then 1 else 0
    ensures And(x, y) / 2 == And(x / 2, y / 2)
    ensures And(x, y) % 2 == if x % 2 == 1 && y % 2 == 1 then 1 else 0
  {
  }

  lemma LowStep(x: nat, k: nat)
    requires k > 0
    ensures Low(x, k) / 2 == Low(x / 2, k - 1) && Low(x, k) % 2 == x % 2
  {
  }

  lemma {:induction false} AndSplit(x: nat, y: nat, k: nat)
    ensures Shr(And(x, y), k) == And(Shr(x, k), Shr(y, k))
    ensures Low(And(x, y), k) == And(Low(x, k), Low(y, k))
    decreases k
  {
    if k > 0 {
      AndSplit(x / 2, y / 2, k - 1);
      AndStep(x, y);
      LowStep(x, k);
      LowStep(y, k);
      AndStep(Low(x, k), Low(y, k));
    }
  }

  lemma {:induction false} AndComplement(x: nat, k: nat)
    requires x < Pow2(k)
    ensures And(x, Pow2(k) - 1 - x) == 0
    decreases k
  {
    if k > 0 {
      AndComplement(x / 2, k - 1);
      AndStep(x, Pow2(k) - 1 - x);
    }
  }

  lemma LowBit(x: nat)
    ensures And(1, x) == And(x, 1) == x % 2
  {
    AndStep(1, x);
    AndStep(x, 1);
    assert And(x / 2, 0) == 0;
  }

  /** One word holds both bits exactly when the two shifted words are both odd. */
  lemma BothBits(w: nat, i: nat, j: nat)
    ensures And(And(1, Shr(w, i)), Shr(w, j)) != 0 <==> Bit(w, i) && Bit(w, j)
  {
    LowBit(Shr(w, i));
    LowBit(Shr(w, j));
  }

  // ----- laws of Xor

  lemma XorStep(x: nat, y: nat)
    ensures Xor(x, y) == 2 * Xor(x / 2, y / 2) + if x % 2 != y % 2 then 1 else 0
    ensures Xor(x, y) / 2 == Xor(x / 2, y / 2) && Xor(x, y) % 2 == if x % 2 != y % 2 then 1 else 0
  {
  }

  lemma {:induction false} XorZero(x: nat, y: nat)
    ensures Xor(x, y) == 0 <==> x == y
    decreases x + y
  {
    if x != 0 || y != 0 {
      XorZero(x / 2, y / 2);
    }
  }

  /** Shifting a difference right by one compares everything but the lowest bit. */
  lemma XorIgnoresLowBit(x: nat, y: nat)
    ensures Shr(Xor(x, y), 1) == 0 <==> x / 2 == y / 2
  {
    XorStep(x, y);
    XorZero(x / 2, y / 2);
    assert Shr(Xor(x, y), 1) == Shr(Xor(x, y) / 2, 0);
  }

  lemma {:induction false} XorSplit(x: nat, y: nat, k: nat)
    ensures Shr(Xor(x, y), k) == Xor(Shr(x, k), Shr(y, k))
    ensures Low(Xor(x, y), k) == Xor(Low(x, k), Low(y, k))
    decreases k
  {
    if k > 0 {
      XorSplit(x / 2, y / 2, k - 1);
      XorStep(x, y);
      LowStep(x, k);
      LowStep(y, k);
      XorStep(Low(x, k), Low(y, k));
    }
  }

  lemma {:induction false} XorBound(x: nat, y: nat, k: nat)
    requires x < Pow2(k) && y < Pow2(k)
    ensures Xor(x, y) < Pow2(k)
    decreases k
  {
    if k > 0 {
      XorBound(x / 2, y / 2, k - 1);
      XorStep(x, y);
    }
  }

  lemma {:induction false} XorZeroRight(x: nat)
    ensures Xor(x, 0) == x
    decreases x
  {
    if x > 0 {
      XorZeroRight(x / 2);
    }
  }

  /** A bit of a number put together from a low part of `n` bits and a high part. */
  lemma {:induction false} BitOfSum(low: nat, high: nat, n: nat, k: nat)
    requires low < Pow2(n)
    ensures Bit(low + high * Pow2(n), k) == if k < n then Bit(low, k) else Bit(high, k - n)
    decreases k
  {
    if n > 0 {
      var half := Pow2(n - 1);
      assert low + high * Pow2(n) == low + 2 * (high * half);
      if k > 0 {
        assert (low + 2 * (high * half)) / 2 == low / 2 + high * half;
        BitOfSum(low / 2, high, n - 1, k - 1);
      }
    }
  }
}

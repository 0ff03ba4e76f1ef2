/** Bitwise operations on unsigned machine words, and what they mean in arithmetic. */
module Bits {
  import opened Wrappers

  /** A C `uint32_t`. */
  type Word = x: int | 0 <= x < TWO_TO_THE_32

  function Pow2(k: nat): (p: nat)
    ensures p > 0
  {
    if k == 0 then 1 else 2 * Pow2(k - 1)
  }

  function And(x: nat, y: nat): nat {
    if x == 0 || y == 0 then 0 else 2 * And(x / 2, y / 2) + (if x % 2 == 1 && y % 2 == 1 then 1 else 0)
  }

  function Or(x: nat, y: nat): nat
    decreases x + y
  {
    if x == 0 then y
    else if y == 0 then x
    else 2 * Or(x / 2, y / 2) + (if x % 2 == 1 || y % 2 == 1 then 1 else 0)
  }

  /** The C operator `~` on 32 bits. */
  function Not32(x: Word): Word {
    TWO_TO_THE_32 - 1 - x
  }

  // ----- Powers of two -------------------------------------------------------

  lemma {:induction false} Pow2Adds(i: nat, j: nat)
    ensures Pow2(i + j) == Pow2(i) * Pow2(j)
  {
    if i > 0 {
      Pow2Adds(i - 1, j);
      assert Pow2(i + j) == 2 * Pow2(i - 1 + j);
      assert 2 * (Pow2(i - 1) * Pow2(j)) == (2 * Pow2(i - 1)) * Pow2(j);
    }
  }

  lemma {:induction false} Pow2Monotone(i: nat, j: nat)
    requires i <= j
    ensures Pow2(i) <= Pow2(j)
  {
    if i < j {
      Pow2Monotone(i, j - 1);
    }
  }

  lemma Pow2Values()
    ensures Pow2(0) == 1 && Pow2(1) == 2 && Pow2(2) == 4 && Pow2(3) == 8 && Pow2(4) == 16
    ensures Pow2(5) == 32 && Pow2(6) == 64 && Pow2(7) == 128 && Pow2(8) == 256
    ensures Pow2(16) == 0x1_0000 && Pow2(24) == 0x100_0000 && Pow2(32) == TWO_TO_THE_32
  {
  }

  // ----- Shifting out and keeping the low bits --------------------------------

  /** The C operator `>>`. */
  function Shr(x: nat, k: nat): nat {
    if k == 0 then x else Shr(x / 2, k - 1)
  }

  /** The k low-order bits. */
  function Low(x: nat, k: nat): (r: nat)
    ensures r < Pow2(k) && r <= x
  {
    if k == 0 then 0 else 2 * Low(x / 2, k - 1) + x % 2
  }

  lemma HalvesLow(x: nat, k: nat)
    requires k > 0
    ensures Low(x, k) / 2 == Low(x / 2, k - 1) && Low(x, k) % 2 == x % 2
  {
  }

  lemma Twice(a: nat, p: nat)
    ensures a * (2 * p) == 2 * (a * p)
  {
  }

  lemma {:induction false} Recompose(x: nat, k: nat)
    ensures x == Shr(x, k) * Pow2(k) + Low(x, k)
  {
    if k > 0 {
      Recompose(x / 2, k - 1);
      Twice(Shr(x, k), Pow2(k - 1));
    }
  }

  lemma DivModUnique(x: nat, q: nat, p: nat, r: nat)
    requires r < p && x == q * p + r
    ensures x / p == q && x % p == r
  {
    var d := x / p - q;
    assert d * p == r - x % p by {
      assert x == (x / p) * p + x % p;
      assert d * p == (x / p) * p - q * p;
    }
  }

  lemma ShrIsDivision(x: nat, k: nat)
    ensures Shr(x, k) == x / Pow2(k) && Low(x, k) == x % Pow2(k)
  {
    Recompose(x, k);
    DivModUnique(x, Shr(x, k), Pow2(k), Low(x, k));
  }

  // ----- Bitwise operations work on the two halves of a word separately ------

  lemma AndStep(x: nat, y: nat)
    ensures And(x, y) == 2 * And(x / 2, y / 2) + (if x % 2 == 1 && y % 2 == 1 then 1 else 0)
  {
  }

  lemma OrStep(x: nat, y: nat)
    ensures Or(x, y) == 2 * Or(x / 2, y / 2) + (if x % 2 == 1 || y % 2 == 1 then 1 else 0)
  {
  }

  lemma HalvesAnd(x: nat, y: nat)
    ensures And(x, y) / 2 == And(x / 2, y / 2)
    ensures And(x, y) % 2 == if x % 2 == 1 && y % 2 == 1 then 1 else 0
  {
  }

  lemma {:induction false} ShrAnd(x: nat, y: nat, k: nat)
    ensures Shr(And(x, y), k) == And(Shr(x, k), Shr(y, k))
  {
    if k > 0 {
      HalvesAnd(x, y);
      ShrAnd(x / 2, y / 2, k - 1);
    }
  }

  lemma {:induction false} LowAnd(x: nat, y: nat, k: nat)
    ensures Low(And(x, y), k) == And(Low(x, k), Low(y, k))
  {
    if k > 0 {
      HalvesAnd(x, y);
      LowAnd(x / 2, y / 2, k - 1);
      HalvesLow(x, k);
      HalvesLow(y, k);
      AndStep(Low(x, k), Low(y, k));
    }
  }

  lemma HalvesOr(x: nat, y: nat)
    ensures Or(x, y) / 2 == Or(x / 2, y / 2)
    ensures Or(x, y) % 2 == if x % 2 == 1 || y % 2 == 1 then 1 else 0
  {
  }

  lemma OrFromHalves(x: nat, y: nat, r: nat)
    requires r / 2 == Or(x / 2, y / 2)
    requires r % 2 == if x % 2 == 1 || y % 2 == 1 then 1 else 0
    ensures r == Or(x, y)
  {
  }

  lemma {:induction false} ShrOr(x: nat, y: nat, k: nat)
    ensures Shr(Or(x, y), k) == Or(Shr(x, k), Shr(y, k))
  {
    if k > 0 {
      HalvesOr(x, y);
      ShrOr(x / 2, y / 2, k - 1);
    }
  }

  lemma {:induction false} LowOr(x: nat, y: nat, k: nat)
    ensures Low(Or(x, y), k) == Or(Low(x, k), Low(y, k))
  {
    if k > 0 {
      HalvesOr(x, y);
      LowOr(x / 2, y / 2, k - 1);
      HalvesLow(x, k);
      HalvesLow(y, k);
      HalvesLow(Or(x, y), k);
      OrFromHalves(Low(x, k), Low(y, k), Low(Or(x, y), k));
    }
  }

  /** The octet-sized case: a word as its low octet and the rest. */
  lemma AndDivMod(x: nat, y: nat)
    ensures And(x, y) / 256 == And(x / 256, y / 256)
    ensures And(x, y) % 256 == And(x % 256, y % 256)
  {
    Pow2Values();
    ShrAnd(x, y, 8);
    LowAnd(x, y, 8);
    ShrIsDivision(And(x, y), 8);
    ShrIsDivision(x, 8);
    ShrIsDivision(y, 8);
  }

  lemma AndOctet(h: nat, l: nat, g: nat, m: nat)
    requires l < 256 && m < 256
    ensures And(h * 256 + l, g * 256 + m) == And(h, g) * 256 + And(l, m)
  {
    var x, y := h * 256 + l, g * 256 + m;
    assert x / 256 == h && x % 256 == l && y / 256 == g && y % 256 == m;
    AndDivMod(x, y);
  }

  lemma OrDivMod(x: nat, y: nat)
    ensures Or(x, y) / 256 == Or(x / 256, y / 256)
    ensures Or(x, y) % 256 == Or(x % 256, y % 256)
  {
    Pow2Values();
    ShrOr(x, y, 8);
    LowOr(x, y, 8);
    ShrIsDivision(Or(x, y), 8);
    ShrIsDivision(x, 8);
    ShrIsDivision(y, 8);
  }

  lemma OrOctet(h: nat, l: nat, g: nat, m: nat)
    requires l < 256 && m < 256
    ensures Or(h * 256 + l, g * 256 + m) == Or(h, g) * 256 + Or(l, m)
  {
    var x, y := h * 256 + l, g * 256 + m;
    assert x / 256 == h && x % 256 == l && y / 256 == g && y % 256 == m;
    OrDivMod(x, y);
  }

  lemma {:induction false} AndBounds(x: nat, y: nat)
    ensures And(x, y) <= x && And(x, y) <= y
  {
    if x > 0 && y > 0 {
      AndBounds(x / 2, y / 2);
    }
  }

  lemma {:induction false} AndSymmetric(x: nat, y: nat)
    ensures And(x, y) == And(y, x)
  {
    if x > 0 && y > 0 {
      AndSymmetric(x / 2, y / 2);
    }
  }

  lemma {:induction false} OrSymmetric(x: nat, y: nat)
    ensures Or(x, y) == Or(y, x)
  {
    if x > 0 && y > 0 {
      OrSymmetric(x / 2, y / 2);
    }
  }

  lemma {:induction false} OrFits(x: nat, y: nat, k: nat)
    requires x < Pow2(k) && y < Pow2(k)
    ensures Or(x, y) < Pow2(k)
  {
    if k > 0 {
      OrFits(x / 2, y / 2, k - 1);
      OrStep(x, y);
    }
  }

  // ----- Masks as arithmetic --------------------------------------------------

  lemma {:induction false} AndLowBits(x: nat, k: nat)
    ensures And(x, Pow2(k) - 1) == Low(x, k)
  {
    if k > 0 {
      AndLowBits(x / 2, k - 1);
      AndStep(x, Pow2(k) - 1);
    }
  }

  /** k low-order ones keep the remainder by 2^k. */
  lemma AndIsRemainder(x: nat, k: nat)
    ensures And(x, Pow2(k) - 1) == x % Pow2(k)
  {
    AndLowBits(x, k);
    ShrIsDivision(x, k);
  }

  lemma AndEven(x: nat, y: nat)
    ensures And(x, 2 * y) == 2 * And(x / 2, y)
  {
  }

  /** n ones followed by k zeros. */
  function HighOnes(n: nat, k: nat): nat {
    if k == 0 then Pow2(n) - 1 else 2 * HighOnes(n, k - 1)
  }

  lemma {:induction false} HighOnesValue(n: nat, k: nat)
    ensures HighOnes(n, k) == Pow2(n + k) - Pow2(k)
  {
    if k > 0 {
      HighOnesValue(n, k - 1);
    }
  }

  lemma {:induction false} AndHighBits(x: nat, n: nat, k: nat)
    requires x < Pow2(n + k)
    ensures And(x, HighOnes(n, k)) == x - Low(x, k)
  {
    if k > 0 {
      AndHighBits(x / 2, n, k - 1);
      AndEven(x, HighOnes(n, k - 1));
    } else {
      AndLowBits(x, n);
      LowOfSmall(x, n);
    }
  }

  lemma {:induction false} LowOfSmall(x: nat, k: nat)
    requires x < Pow2(k)
    ensures Low(x, k) == x
  {
    if k > 0 {
      LowOfSmall(x / 2, k - 1);
    }
  }

  /** n ones followed by k zeros keep the multiple of 2^k below. */
  lemma AndIsMultiple(x: nat, n: nat, k: nat)
    requires x < Pow2(n + k)
    ensures And(x, HighOnes(n, k)) == x - x % Pow2(k)
  {
    AndHighBits(x, n, k);
    ShrIsDivision(x, k);
  }

  lemma OrOdd(x: nat, y: nat)
    ensures Or(x, 2 * y + 1) == 2 * Or(x / 2, y) + 1
  {
  }

  lemma {:induction false} OrLowBits(x: nat, k: nat)
    ensures Or(x, Pow2(k) - 1) == x - Low(x, k) + Pow2(k) - 1
  {
    if k > 0 {
      OrLowBits(x / 2, k - 1);
      OrOdd(x, Pow2(k - 1) - 1);
    }
  }

  /** Setting k low-order ones rounds up to the last number before the next multiple of 2^k. */
  lemma OrIsRoundUp(x: nat, k: nat)
    ensures Or(x, Pow2(k) - 1) == x - x % Pow2(k) + Pow2(k) - 1
  {
    OrLowBits(x, k);
    ShrIsDivision(x, k);
  }
}

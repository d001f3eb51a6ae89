/** Unsigned machine-word arithmetic on natural numbers.

  A word of width `w` is a natural number below `Pow2(w)`.  The C operators `&`, `|`, `~`, unary
  `-` and `ilog2` are defined digit by digit, so that the masks used by the architecture code
  (lowest set bit, alignment masks, top-bit tests) become theorems instead of assumptions.
 */
module Bits {
  import opened Arith

  const W32: int := 0x1_0000_0000
  const W64: int := 0x1_0000_0000_0000_0000

  function Pow2(k: nat): (r: nat)
    ensures r >= 1
  {
    if k == 0 then 1 else 2 * Pow2(k - 1)
  }

  function And(x: nat, y: nat): (r: nat)
    ensures r <= x && r <= y
  {
    if x == 0 || y == 0 then 0 else 2 * And(x / 2, y / 2) + (if x % 2 == 1 && y % 2 == 1 then 1 else 0)
  }

  function Or(x: nat, y: nat): nat {
    if x == 0 then y else if y == 0 then x
    else 2 * Or(x / 2, y / 2) + (if x % 2 == 1 || y % 2 == 1 then 1 else 0)
  }

  /** `~x` on a word of width w. */
  function Not(x: nat, w: nat): (r: nat)
    requires x < Pow2(w)
    ensures r < Pow2(w)
  {
    Pow2(w) - 1 - x
  }

  /** `-x` on a word of width w. */
  function Neg(x: nat, w: nat): (r: nat)
    requires x < Pow2(w)
    ensures r < Pow2(w)
  {
    if x == 0 then 0 else Pow2(w) - x
  }

  /** Index of the most significant set bit. */
  function Ilog2(x: nat): (k: nat)
    requires x > 0
    ensures Pow2(k) <= x < Pow2(k + 1)
  {
    if x == 1 then 0 else Ilog2(x / 2) + 1
  }

  /** Exponent of the lowest set bit. */
  function Twos(x: nat): (k: nat)
    requires x > 0
    ensures Pow2(k) <= x
  {
    if x % 2 == 1 then 0 else Twos(x / 2) + 1
  }

  /** `x >> k` */
  function Shr(x: nat, k: nat): (r: nat)
    ensures r <= x
  {
    if k == 0 then x else Shr(x / 2, k - 1)
  }

  /** The k least significant bits of x. */
  function Low(x: nat, k: nat): (r: nat)
    ensures r < Pow2(k)
  {
    if k == 0 then 0 else 2 * Low(x / 2, k - 1) + x % 2
  }

  function Bit(x: nat, k: nat): nat { Shr(x, k) % 2 }

  /** Shifting and masking are division and remainder by a power of two. */
  lemma {:induction false} ShiftIsDivision(x: nat, k: nat)
    ensures x == Shr(x, k) * Pow2(k) + Low(x, k)
    ensures x / Pow2(k) == Shr(x, k) && x % Pow2(k) == Low(x, k)
  {
    if k > 0 {
      ShiftIsDivision(x / 2, k - 1);
      MulAssoc(Shr(x, k), 2, Pow2(k - 1));
    }
    DivUnique(x, Pow2(k), Shr(x, k), Low(x, k));
  }

  lemma {:induction false} Pow2Add(a: nat, b: nat)
    ensures Pow2(a + b) == Pow2(a) * Pow2(b)
  {
    if a > 0 {
      Pow2Add(a - 1, b);
      assert Pow2(a + b) == 2 * Pow2(a - 1 + b);
      assert 2 * (Pow2(a - 1) * Pow2(b)) == (2 * Pow2(a - 1)) * Pow2(b);
    }
  }

  lemma {:induction false} Pow2Mono(a: nat, b: nat)
    requires a <= b
    ensures Pow2(a) <= Pow2(b)
  {
    if a < b { Pow2Mono(a, b - 1); }
  }

  lemma Pow2Values()
    ensures Pow2(3) == 8 && Pow2(8) == 0x100 && Pow2(16) == 0x1_0000
    ensures Pow2(31) == 0x8000_0000 && Pow2(32) == 0x1_0000_0000
    ensures Pow2(63) == 0x8000_0000_0000_0000
    ensures Pow2(64) == 0x1_0000_0000_0000_0000
  {
    assert Pow2(8) == 0x100;
    Pow2Add(8, 8);
    Pow2Add(16, 16);
    Pow2Add(32, 32);
  }

  lemma {:induction false} AndCommutes(x: nat, y: nat)
    ensures And(x, y) == And(y, x)
  {
    if x != 0 && y != 0 { AndCommutes(x / 2, y / 2); }
  }

  lemma {:induction false} AndSelf(x: nat)
    ensures And(x, x) == x
  {
    if x != 0 { AndSelf(x / 2); }
  }

  /** Disjoint words: x and its complement share no bit. */
  lemma NotStep(x: nat, w: nat)
    requires x < Pow2(w) && w > 0
    ensures x / 2 < Pow2(w - 1) && Not(x, w) / 2 == Not(x / 2, w - 1) && Not(x, w) % 2 == 1 - x % 2
  {}

  lemma {:induction false} AndNot(x: nat, w: nat)
    requires x < Pow2(w)
    ensures And(x, Not(x, w)) == 0
  {
    if w > 0 {
      hide And, Not;
      AndNot(x / 2, w - 1);
      NotStep(x, w);
      AndStep(x, Not(x, w));
    }
  }

  lemma NegStep(x: nat, w: nat)
    requires 0 < x < Pow2(w)
    ensures w > 0 && x / 2 < Pow2(w - 1) && Neg(x, w) % 2 == x % 2
    ensures Neg(x, w) / 2 == if x % 2 == 1 then Not(x / 2, w - 1) else Neg(x / 2, w - 1)
  {}

  /** The idiom `x & -x` isolates the lowest set bit. */
  lemma {:induction false} LowBit(x: nat, w: nat)
    requires 0 < x < Pow2(w)
    ensures And(x, Neg(x, w)) == Pow2(Twos(x))
  {
    NegStep(x, w);
    hide And, Neg, Not;
    AndStep(x, Neg(x, w));
    if x % 2 == 1 {
      AndNot(x / 2, w - 1);
    } else {
      LowBit(x / 2, w - 1);
    }
  }

  /** `Twos` really is the exponent of two in x: an odd cofactor remains. */
  lemma {:induction false} TwosFactor(x: nat)
    requires x > 0
    ensures x == Shr(x, Twos(x)) * Pow2(Twos(x)) && Shr(x, Twos(x)) % 2 == 1
    ensures x / Pow2(Twos(x)) == Shr(x, Twos(x)) && x % Pow2(Twos(x)) == 0
  {
    if x % 2 == 0 {
      TwosFactor(x / 2);
      MulAssoc(Shr(x, Twos(x)), 2, Pow2(Twos(x / 2)));
    }
    DivExact(Shr(x, Twos(x)), Pow2(Twos(x)));
  }

  lemma {:induction false} AndBit(x: nat, y: nat, k: nat)
    ensures Bit(And(x, y), k) == if Bit(x, k) == 1 && Bit(y, k) == 1 then 1 else 0
  {
    ZeroBit(k);
    if x != 0 && y != 0 && k > 0 { AndBit(x / 2, y / 2, k - 1); }
  }

  lemma {:induction false} ZeroBit(k: nat)
    ensures Bit(0, k) == 0
  {
    if k > 0 { ZeroBit(k - 1); }
  }

  /** `&` works on the two parts of a word independently. */
  lemma {:induction false} AndSplit(x: nat, y: nat, k: nat)
    ensures And(x, y) == And(Shr(x, k), Shr(y, k)) * Pow2(k) + And(Low(x, k), Low(y, k))
  {
    if k > 0 {
      hide And, Low;
      AndSplit(x / 2, y / 2, k - 1);
      AndStep(x, y);
      AndStep(Low(x, k), Low(y, k));
      LowStep(x, k);
      LowStep(y, k);
      DoubleProduct(And(Shr(x, k), Shr(y, k)), Pow2(k - 1));
    }
  }

  lemma LowStep(x: nat, k: nat)
    requires k > 0
    ensures Low(x, k) == 2 * Low(x / 2, k - 1) + x % 2
    ensures Low(x, k) / 2 == Low(x / 2, k - 1) && Low(x, k) % 2 == x % 2
  {}

  lemma DoubleProduct(q: nat, p: nat)
    ensures 2 * (q * p) == q * (2 * p)
  {}

  lemma {:induction false} AndStep(x: nat, y: nat)
    ensures And(x, y) == 2 * And(x / 2, y / 2) + (if x % 2 == 1 && y % 2 == 1 then 1 else 0)
  {}

  /** `x & (2^k - 1)` keeps the low k bits. */
  lemma {:induction false} AndLowMask(x: nat, k: nat)
    ensures And(x, Pow2(k) - 1) == Low(x, k)
  {
    if k > 0 {
      AndLowMask(x / 2, k - 1);
      assert (Pow2(k) - 1) / 2 == Pow2(k - 1) - 1;
    }
  }

  lemma {:induction false} LowAll(x: nat, w: nat)
    requires x < Pow2(w)
    ensures Low(x, w) == x && Shr(x, w) == 0
  {
    if w > 0 { LowAll(x / 2, w - 1); }
  }

  lemma HighMaskStep(x: nat, k: nat, w: nat)
    requires 0 < k <= w && x < Pow2(w) && Pow2(k - 1) <= Pow2(w - 1) && Pow2(k) <= Pow2(w) && x / 2 < Pow2(w - 1)
    requires And(x / 2, Not(Pow2(k - 1) - 1, w - 1)) == x / 2 - Low(x / 2, k - 1)
    ensures And(x, Not(Pow2(k) - 1, w)) == x - Low(x, k)
  {
    hide And, Low, Not;
    OnesStep(k);
    NotStep(Pow2(k) - 1, w);
    hide Pow2;
    AndStep(x, Not(Pow2(k) - 1, w));
    LowStep(x, k);
  }

  lemma OnesStep(k: nat)
    requires k > 0
    ensures (Pow2(k) - 1) / 2 == Pow2(k - 1) - 1 && (Pow2(k) - 1) % 2 == 1
  {}

  /** `x & ~(2^k - 1)` rounds down to a multiple of 2^k. */
  lemma {:induction false} AndHighMask(x: nat, k: nat, w: nat)
    requires k <= w && x < Pow2(w)
    ensures Pow2(k) <= Pow2(w)
    ensures And(x, Not(Pow2(k) - 1, w)) == x - Low(x, k)
  {
    hide And;
    Pow2Mono(k, w);
    if k > 0 {
      hide Low, Not;
      Pow2Mono(k - 1, w - 1);
      AndHighMask(x / 2, k - 1, w - 1);
      HighMaskStep(x, k, w);
    } else {
      AndLowMask(x, w);
      LowAll(x, w);
    }
  }

  /** Testing one bit. */
  lemma {:induction false} AndPow2(x: nat, k: nat)
    ensures And(x, Pow2(k)) == if Bit(x, k) == 1 then Pow2(k) else 0
  {
    if k > 0 { AndPow2(x / 2, k - 1); }
  }

  lemma {:induction false} TopBitClear(x: nat, k: nat)
    requires x < Pow2(k + 1) && Bit(x, k) == 0
    ensures x < Pow2(k)
  {
    if k > 0 { TopBitClear(x / 2, k - 1); }
  }

  /** Or of words without common bits is their sum. */
  lemma {:induction false} OrDisjoint(x: nat, y: nat)
    requires And(x, y) == 0
    ensures Or(x, y) == x + y
  {
    if x != 0 && y != 0 { OrDisjoint(x / 2, y / 2); }
  }

  lemma {:induction false} OrBit(x: nat, y: nat, k: nat)
    ensures Bit(Or(x, y), k) == if Bit(x, k) == 1 || Bit(y, k) == 1 then 1 else 0
  {
    ZeroBit(k);
    if x != 0 && y != 0 && k > 0 { OrBit(x / 2, y / 2, k - 1); }
  }

  /** A complemented word has exactly the other bits. */
  lemma {:induction false} NotBit(x: nat, w: nat, k: nat)
    requires x < Pow2(w)
    ensures Bit(Not(x, w), k) == if k < w then 1 - Bit(x, k) else 0
  {
    if w == 0 {
      ZeroBit(k);
    } else if k > 0 {
      NotBit(x / 2, w - 1, k - 1);
      assert Not(x, w) / 2 == Not(x / 2, w - 1);
    }
  }

  lemma {:induction false} Ilog2Bit(x: nat, k: nat)
    requires x > 0 && k >= Ilog2(x)
    ensures Bit(x, k) == if k == Ilog2(x) then 1 else 0
  {
    if x == 1 {
      if k > 0 { ZeroBit(k - 1); }
    } else {
      Ilog2Bit(x / 2, k - 1);
    }
  }

  /** x with bit k set to b. */
  function SetBit(x: nat, k: nat, b: bool): nat {
    if k == 0 then 2 * (x / 2) + (if b then 1 else 0) else 2 * SetBit(x / 2, k - 1, b) + x % 2
  }

  lemma {:induction false} SetBitBit(x: nat, k: nat, b: bool, j: nat)
    ensures Bit(SetBit(x, k, b), j) == if j == k then (if b then 1 else 0) else Bit(x, j)
  {
    if k > 0 && j > 0 {
      SetBitBit(x / 2, k - 1, b, j - 1);
      assert SetBit(x, k, b) / 2 == SetBit(x / 2, k - 1, b);
    }
  }

  lemma {:induction false} LowestMarker(m: nat, j: nat)
    requires Low(m, j + 1) == Pow2(j)
    ensures m > 0 && Twos(m) == j
  {
    if j > 0 { LowestMarker(m / 2, j - 1); }
  }

  lemma {:induction false} ShrBit(x: nat, j: nat, k: nat)
    ensures Bit(Shr(x, j), k) == Bit(x, j + k)
  {
    if j > 0 { ShrBit(x / 2, j - 1, k); }
  }

  /** The masks 2^k and 2^k - 1, bit by bit. */
  lemma {:induction false} MaskBits(k: nat, i: nat)
    ensures Bit(Pow2(k), i) == if i == k then 1 else 0
    ensures Bit(Pow2(k) - 1, i) == if i < k then 1 else 0
  {
    if k == 0 {
      ZeroBit(i);
      if i > 0 { ZeroBit(i - 1); }
    } else if i > 0 {
      MaskBits(k - 1, i - 1);
      assert (Pow2(k) - 1) / 2 == Pow2(k - 1) - 1;
    }
  }

  lemma {:induction false} LowBits(x: nat, j: nat, k: nat)
    ensures Bit(Low(x, j), k) == if k < j then Bit(x, k) else 0
  {
    if j == 0 {
      ZeroBit(k);
    } else if k > 0 {
      LowBits(x / 2, j - 1, k - 1);
      assert Low(x, j) / 2 == Low(x / 2, j - 1);
    }
  }
}

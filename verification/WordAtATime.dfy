/** Finding the first zero byte of a word of n bytes with four arithmetic operations. */
module WordAtATime {
  import opened Arith
  import opened Bits

  /** Byte i of v, counting from the least significant one. */
  function Byte(v: nat, i: nat): (b: nat)
    ensures b < 256
  {
    if i == 0 then v % 256 else Byte(v / 256, i - 1)
  }

  /** `REPEAT_BYTE(b)` on n bytes. */
  function RepeatByte(b: nat, n: nat): nat {
    if n == 0 then 0 else b + 256 * RepeatByte(b, n - 1)
  }

  function Pow256(n: nat): (r: nat)
    ensures r >= 1
  {
    if n == 0 then 1 else 256 * Pow256(n - 1)
  }

  /** Unsigned subtraction on n bytes. */
  function Minus(x: nat, y: nat, n: nat): (r: nat)
    requires x < Pow256(n) && y < Pow256(n)
    ensures r < Pow256(n)
  {
    if x >= y then x - y else x + Pow256(n) - y
  }

  function Complement(x: nat, n: nat): (r: nat)
    requires x < Pow256(n)
    ensures r < Pow256(n)
  {
    Pow256(n) - 1 - x
  }

  lemma {:induction false} RepeatByteFits(b: nat, n: nat)
    requires b < 256
    ensures RepeatByte(b, n) < Pow256(n)
  {
    if n > 0 { RepeatByteFits(b, n - 1); }
  }

  /** `has_zero`: the mask `((val - one_bits) & ~val) & high_bits`. */
  function HasZero(v: nat, n: nat): nat
    requires v < Pow256(n)
  {
    RepeatByteFits(1, n);
    And(And(Minus(v, RepeatByte(1, n), n), Complement(v, n)), RepeatByte(0x80, n))
  }

  /** `create_zero_mask` on a word of n bytes. */
  function CreateZeroMask(bits: nat, n: nat): nat
    requires 0 < bits < Pow256(n)
  {
    Shr(And(bits - 1, Complement(bits, n)), 7)
  }

  /** `fls64`: one more than the index of the highest set bit, 0 for 0. */
  function Fls64(x: nat): nat { if x == 0 then 0 else Ilog2(x) + 1 }

  /** `find_zero` */
  function FindZero(mask: nat): nat { Shr(Fls64(mask), 3) }

  ghost predicate FirstZero(v: nat, n: nat, k: nat) {
    k < n && Byte(v, k) == 0 && forall i: nat | i < k :: Byte(v, i) != 0
  }

  // ----- byte-wise evaluation of the mask -----

  lemma {:induction false} AndBytes(x: nat, y: nat)
    ensures And(x, y) == 256 * And(x / 256, y / 256) + And(x % 256, y % 256)
  {
    var k := 8;
    assert Pow2(k) == 256;
    AndSplit(x, y, k);
    ShiftIsDivision(x, k);
    ShiftIsDivision(y, k);
  }

  lemma ComplementBytes(v: nat, n: nat)
    requires 0 < n && v < Pow256(n)
    ensures v / 256 < Pow256(n - 1)
    ensures Complement(v, n) % 256 == 255 - v % 256
    ensures Complement(v, n) / 256 == Complement(v / 256, n - 1)
  {
    DivUnique(Complement(v, n), 256, Pow256(n - 1) - 1 - v / 256, 255 - v % 256);
  }

  /** Subtracting 1 from every byte does not borrow from above a non-zero low byte. */
  lemma MinusBytes(v: nat, n: nat, ones: nat)
    requires 0 < n && v < Pow256(n) && ones < Pow256(n - 1)
    ensures v / 256 < Pow256(n - 1) && 1 + 256 * ones < Pow256(n)
    ensures var d := Minus(v, 1 + 256 * ones, n);
            if v % 256 == 0 then d % 256 == 255
            else d % 256 == v % 256 - 1 && d / 256 == Minus(v / 256, ones, n - 1)
  {
    var d := Minus(v, 1 + 256 * ones, n);
    if v % 256 == 0 {
      var q := if v >= 1 + 256 * ones then v / 256 - ones - 1 else v / 256 - ones - 1 + Pow256(n - 1);
      DivUnique(d, 256, q, 255);
    } else {
      DivUnique(d, 256, Minus(v / 256, ones, n - 1), v % 256 - 1);
    }
  }

  /** The mask, split into its low byte and the rest. */
  lemma {:induction false} MaskBytes(v: nat, n: nat)
    requires 0 < n && v < Pow256(n)
    requires RepeatByte(1, n) < Pow256(n)
    ensures var d, c := Minus(v, RepeatByte(1, n), n), Complement(v, n);
            HasZero(v, n) == 256 * And(And(d / 256, c / 256), RepeatByte(0x80, n - 1))
                           + And(And(d % 256, c % 256), 0x80)
  {
    hide And, RepeatByte, Minus, Complement;
    var d, c := Minus(v, RepeatByte(1, n), n), Complement(v, n);
    AndBytes(d, c);
    ByteAnd(d % 256, c % 256);
    SplitByte(And(d / 256, c / 256), And(d % 256, c % 256));
    RepeatBytes(0x80, n);
    AndBytes(And(d, c), RepeatByte(0x80, n));
  }

  /** A non-zero low byte contributes nothing and passes no borrow on. */
  lemma NonZeroByte(v: nat, n: nat)
    requires 0 < n && v < Pow256(n) && v % 256 != 0
    ensures v / 256 < Pow256(n - 1) && HasZero(v, n) == 256 * HasZero(v / 256, n - 1)
  {
    hide And;
    RepeatByteFits(1, n - 1);
    MinusBytes(v, n, RepeatByte(1, n - 1));
    ComplementBytes(v, n);
    MaskBytes(v, n);
    TopBitOfByte(v % 256);
  }

  lemma RepeatBytes(b: nat, n: nat)
    requires 0 < n && b < 256
    ensures RepeatByte(b, n) / 256 == RepeatByte(b, n - 1) && RepeatByte(b, n) % 256 == b
  {}

  lemma {:induction false} ByteAnd(x: nat, y: nat)
    requires x < 256
    ensures And(x, y) < 256
  {}

  lemma SplitByte(hi: nat, lo: nat)
    requires lo < 256
    ensures (256 * hi + lo) / 256 == hi && (256 * hi + lo) % 256 == lo
  {}

  lemma TopBitOfByte(b: nat)
    requires 0 < b < 256
    ensures And(And(b - 1, 255 - b), 0x80) == 0
  {
    var k := 7;
    assert Pow2(k) == 0x80;
    AndPow2(And(b - 1, 255 - b), k);
    AndBit(b - 1, 255 - b, k);
    ShiftIsDivision(b - 1, k);
    ShiftIsDivision(255 - b, k);
  }

  lemma ZeroByteMask(v: nat, n: nat) returns (hi: nat)
    requires 0 < n && v < Pow256(n) && v % 256 == 0
    ensures HasZero(v, n) == 256 * hi + 0x80
  {
    RepeatByteFits(1, n - 1);
    MinusBytes(v, n, RepeatByte(1, n - 1));
    ComplementBytes(v, n);
    MaskBytes(v, n);
    var d, c := Minus(v, RepeatByte(1, n), n), Complement(v, n);
    hi := And(And(d / 256, c / 256), RepeatByte(0x80, n - 1));
    MarkerAlone(d % 256, c % 256, 0x80);
  }

  lemma {:induction false} MarkerAlone(x: nat, y: nat, marker: nat)
    requires x == 255 && y == 255 && marker < 256
    ensures And(And(x, y), marker) == marker
  {
    AndSelf(x);
    var k := 8;
    assert Pow2(k) == 256;
    AllOnes(marker, k);
  }

  lemma AllOnes(x: nat, k: nat)
    requires x < Pow2(k)
    ensures And(Pow2(k) - 1, x) == x
  {
    AndCommutes(Pow2(k) - 1, x);
    AndLowMask(x, k);
    LowAll(x, k);
  }

  /** A zero low byte sets its marker bit and no lower one; what the borrow does above is free. */
  lemma {:induction false} ZeroByte(v: nat, n: nat)
    requires 0 < n && v < Pow256(n) && v % 256 == 0
    ensures HasZero(v, n) > 0 && Twos(HasZero(v, n)) == 7
  {
    var hi := ZeroByteMask(v, n);
    LowestByteMarker(HasZero(v, n), hi, 8);
  }

  lemma {:induction false} LowestByteMarker(m: nat, hi: nat, k: nat)
    requires k == 8 && m == 256 * hi + 0x80
    ensures m > 0 && Twos(m) == 7
  {
    SplitByte(hi, 0x80);
    assert Pow2(k) == 256 && Pow2(k - 1) == 0x80;
    ShiftIsDivision(m, k);
    LowestMarker(m, k - 1);
  }

  lemma {:induction false} TwosShift(m: nat, j: nat)
    requires m > 0
    ensures Pow2(j) * m > 0 && Twos(Pow2(j) * m) == Twos(m) + j
  {
    if j > 0 {
      TwosShift(m, j - 1);
      MulAssoc(2, Pow2(j - 1), m);
      MulGe(Pow2(j), m);
    } else {
      assert Pow2(0) * m == m;
    }
  }

  /** `has_zero` is zero iff no byte is zero; otherwise its lowest set bit is the marker bit of the
    first zero byte, so borrows only disturb bytes above it. */
  lemma {:induction false} HasZeroCorrect(v: nat, n: nat)
    requires v < Pow256(n)
    ensures HasZero(v, n) != 0 <==> exists i: nat :: i < n && Byte(v, i) == 0
    ensures forall k: nat | FirstZero(v, n, k) :: HasZero(v, n) > 0 && Twos(HasZero(v, n)) == 8 * k + 7
    decreases n
  {
    if n > 0 {
      if v % 256 == 0 {
        ZeroByte(v, n);
        assert Byte(v, 0) == 0;
      } else {
        NonZeroByte(v, n);
        HasZeroCorrect(v / 256, n - 1);
        forall k: nat | FirstZero(v, n, k)
          ensures HasZero(v, n) > 0 && Twos(HasZero(v, n)) == 8 * k + 7
        {
          FirstZeroAbove(v, n, k);
          TwosShift(HasZero(v / 256, n - 1), 8);
          assert Pow2(8) == 256;
        }
        NoZeroAbove(v, n);
      }
    }
  }

  lemma FirstZeroAbove(v: nat, n: nat, k: nat)
    requires 0 < n && v % 256 != 0 && FirstZero(v, n, k)
    ensures 0 < k && FirstZero(v / 256, n - 1, k - 1)
  {
    assert forall i: nat | i < k - 1 :: Byte(v / 256, i) == Byte(v, i + 1);
  }

  lemma {:induction false} NoZeroAbove(v: nat, n: nat)
    requires 0 < n && v % 256 != 0
    ensures (exists i: nat :: i < n && Byte(v, i) == 0) <==> (exists i: nat :: i < n - 1 && Byte(v / 256, i) == 0)
  {
    hide Byte;
    if i: nat :| i < n && Byte(v, i) == 0 {
      ByteStep(v, i);
      assert i - 1 < n - 1 && Byte(v / 256, i - 1) == 0;
    }
    if i: nat :| i < n - 1 && Byte(v / 256, i) == 0 {
      ByteStep(v, i + 1);
      assert i + 1 < n && Byte(v, i + 1) == 0;
    }
  }

  lemma ByteStep(v: nat, i: nat)
    ensures Byte(v, i) == if i == 0 then v % 256 else Byte(v / 256, i - 1)
  {}

  /** `(bits - 1) & ~bits` are the bits below the lowest set one. */
  lemma {:induction false} BelowLowest(bits: nat, w: nat)
    requires 0 < bits < Pow2(w)
    ensures And(bits - 1, Not(bits, w)) == Pow2(Twos(bits)) - 1
  {
    hide And, Not;
    NotStep(bits, w);
    AndStep(bits - 1, Not(bits, w));
    if bits % 2 == 1 {
      AndNot(bits / 2, w - 1);
    } else {
      BelowLowest(bits / 2, w - 1);
    }
  }

  lemma {:induction false} Pow256IsPow2(n: nat)
    ensures Pow256(n) == Pow2(8 * n)
  {
    if n > 0 {
      Pow256IsPow2(n - 1);
      Pow2Add(8, 8 * (n - 1));
      assert Pow2(8) == 256;
    }
  }

  lemma {:induction false} MaskShift(j: nat, k: nat)
    requires j <= k
    ensures Shr(Pow2(k) - 1, j) == Pow2(k - j) - 1
  {
    if j > 0 {
      MaskShift(j - 1, k - 1);
      assert (Pow2(k) - 1) / 2 == Pow2(k - 1) - 1;
    }
  }

  lemma {:induction false} MaskLog(k: nat)
    ensures Fls64(Pow2(k) - 1) == k
  {
    if k > 1 {
      MaskLog(k - 1);
      assert (Pow2(k) - 1) / 2 == Pow2(k - 1) - 1;
    }
  }

  lemma {:induction false} ZeroMaskCovers(bits: nat, n: nat, k: nat)
    requires 0 < bits < Pow256(n) && Twos(bits) == 8 * k + 7
    ensures CreateZeroMask(bits, n) == Pow256(k) - 1
  {
    hide Pow2, Pow256, Twos, And;
    Pow256IsPow2(n);
    Pow256IsPow2(k);
    BelowLowest(bits, 8 * n);
    MaskShift(7, 8 * k + 7);
  }

  lemma {:induction false} FindZeroOfMask(k: nat)
    ensures FindZero(Pow256(k) - 1) == k
  {
    Pow256IsPow2(k);
    MaskLog(8 * k);
    var j := 3;
    assert Pow2(j) == 8;
    ShiftIsDivision(8 * k, j);
  }

  /** The pipeline has_zero, create_zero_mask, find_zero finds the first zero byte, and the
    intermediate mask covers exactly the bytes before it. */
  lemma {:induction false} FindZeroCorrect(v: nat, n: nat, k: nat)
    requires v < Pow256(n) && FirstZero(v, n, k)
    ensures 0 < HasZero(v, n) < Pow256(n)
    ensures CreateZeroMask(HasZero(v, n), n) == Pow256(k) - 1
    ensures FindZero(CreateZeroMask(HasZero(v, n), n)) == k
  {
    HasZeroCorrect(v, n);
    RepeatByteFits(0x80, n);
    ZeroMaskCovers(HasZero(v, n), n, k);
    FindZeroOfMask(k);
  }
}

/** Division of a 64-bit number by a 32-bit constant without a divide instruction.

  The C macros compute on `uint64_t` and `uint32_t`.  Here a local of type u64 or u32 makes "this
  cannot overflow" a proof obligation, and every place where the original relies on wrap-around
  says so with an explicit `% W64` or `% W32`.
 */
module Div64 {
  import opened Arith
  import opened Bits

  const MAX64: u64 := W64 - 1

  type u32 = x: int | 0 <= x < 0x1_0000_0000
  type u64 = x: int | 0 <= x < 0x1_0000_0000_0000_0000

  // ----- the 128-bit product -----

  /** `m & ((1ULL << 63) | (1ULL << 31))` */
  function TopBits(m: u64): nat { And(m, 0x8000_0000_8000_0000) }

  /** h and w are the widths of the two word types; named, so that proofs do not unfold 2^64. */
  ghost predicate Widths(h: nat, w: nat) {
    Pow2(h) == W32 && Pow2(w) == W64 && w == 2 * h && h > 0
  }

  lemma NoTopBits(m: u64, h: nat, w: nat)
    requires TopBits(m) == 0 && Widths(h, w)
    ensures m / W32 < 0x8000_0000 && m % W32 < 0x8000_0000
  {
    ClearBit(m, w - 1);
    ClearBit(m, h - 1);
    TopBitClear(m, w - 1);
    ShiftIsDivision(m, h);
    LowBits(m, h, h - 1);
    TopBitClear(Low(m, h), h - 1);
  }

  lemma {:induction false} ClearBit(m: u64, k: nat)
    requires TopBits(m) == 0
    requires 0x8000_0000_8000_0000 / Pow2(k) % 2 == 1
    ensures Bit(m, k) == 0
  {
    AndBit(m, 0x8000_0000_8000_0000, k);
    ZeroBit(k);
    ShiftIsDivision(0x8000_0000_8000_0000, k);
  }

  lemma MulBound(a: int, b: int, ka: int, kb: int)
    requires 0 <= a <= ka && 0 <= b <= kb
    ensures 0 <= a * b <= ka * kb
  {
    MulMono(a, ka, b);
    MulMono(b, kb, ka);
  }

  /** Schoolbook multiplication: m*n split into the four partial products. */
  lemma Schoolbook(m: u64, n: u64)
    ensures m * n == (m / W32) * (n / W32) * W64
                  + ((m / W32) * (n % W32) + (m % W32) * (n / W32)) * W32
                  + (m % W32) * (n % W32)
  {
    var a, b, c, d := m / W32, m % W32, n / W32, n % W32;
    Distrib(a * W32, -b, n);
    assert m * n == (a * n) * W32 + b * n;
    assert a * n == (a * c) * W32 + a * d;
    assert b * n == (b * c) * W32 + b * d;
  }

  /** Dropping the low word early loses nothing. */
  lemma HighWord(hi: int, mid: int, lo: int)
    ensures (hi * W64 + mid * W32 + lo) / W64 == hi + (mid + lo / W32) / W32
  {
    var c := mid + lo / W32;
    DivUnique(hi * W64 + mid * W32 + lo, W64, hi + c / W32, c % W32 * W32 + lo % W32);
  }

  lemma HighBound(m: u64, n: u64, bias: bool)
    ensures (m * n + if bias then m else 0) / W64 < W64
  {
    MulBound(m, n + 1, W64 - 1, W64);
    Distrib(n, 1, m);
  }

  /** The carry chain of `__arch_xprod_64` computes the high word. */
  lemma HighOfProduct(m: u64, n: u64, bias: bool, hh: int, mid: int, low: int)
    requires hh == (m / W32) * (n / W32)
    requires mid == (m / W32) * (n % W32) + (m % W32) * (n / W32)
    requires low == (m % W32) * (n % W32) + if bias then m else 0
    ensures (m * n + if bias then m else 0) / W64 == hh + (mid + low / W32) / W32 < W64
  {
    HighBound(m, n, bias);
    Schoolbook(m, n);
    HighWord(hh, mid, low);
  }

  lemma Product32(a: u32, b: u32)
    ensures 0 <= a * b <= (W32 - 1) * (W32 - 1)
    ensures a < 0x8000_0000 ==> a * b <= 0x7FFF_FFFF * (W32 - 1)
  {
    MulBound(a, b, W32 - 1, W32 - 1);
    if a < 0x8000_0000 { MulBound(a, b, 0x7FFF_FFFF, W32 - 1); }
  }

  /** `__arch_xprod_64`: the high word of m*n, plus m when biased. */
  method ArchXprod64(m: u64, n: u64, bias: bool) returns (res: u64)
    ensures res == (m * n + if bias then m else 0) / W64
  {
    var mLo: u32, mHi: u32 := m % W32, m / W32;
    var nLo: u32, nHi: u32 := n % W32, n / W32;
    Product32(mLo, nLo);
    Product32(mLo, nHi);
    Product32(mHi, nLo);
    Product32(mHi, nHi);
    if TopBits(m) == 0 {
      Pow2Values();
      NoTopBits(m, 32, 64);
    }
    var lolo: u64, lohi: u64 := mLo * nLo, mLo * nHi;
    var hilo: u64, hihi: u64 := mHi * nLo, mHi * nHi;
    HighOfProduct(m, n, bias, hihi, hilo + lohi, lolo + if bias then m else 0);
    res := XprodCarries(m, TopBits(m), lolo, lohi, hilo, hihi, bias);
  }

  /** A wrapped 64-bit sum, shifted down, with the carry put back where it was lost. */
  lemma CarryRecovered(a: u64, b: u64)
    ensures var s := (a + b) % W64;
            s / W32 + (if s < a then W32 else 0) == (a + b) / W32
  {
    if a + b >= W64 { AddMultiple(a + b - W64, W32, W32); }
  }

  /** The additions of `__arch_xprod_64`, on the four partial products.  Neither shortcut can
    overflow when bits 31 and 63 of m are clear; otherwise the lost carry is found by comparing. */
  method XprodCarries(m: u64, top: nat, lolo: u64, lohi: u64, hilo: u64, hihi: u64, bias: bool) returns (res: u64)
    requires lolo <= (W32 - 1) * (W32 - 1) && lohi <= (W32 - 1) * (W32 - 1)
    requires top == 0 ==> m < W64 / 2 - W32 / 2
    requires top == 0 ==> lolo <= 0x7FFF_FFFF * (W32 - 1)
    requires top == 0 ==> lohi <= 0x7FFF_FFFF * (W32 - 1) && hilo <= 0x7FFF_FFFF * (W32 - 1)
    requires hihi + (hilo + lohi + (lolo + if bias then m else 0) / W32) / W32 < W64
    ensures res == hihi + (hilo + lohi + (lolo + if bias then m else 0) / W32) / W32
  {
    var tmp: u64, sum: u64;
    if !bias {
      res := lolo / W32;
    } else if top == 0 {
      sum := m + lolo;
      res := sum / W32;
    } else {
      CarryRecovered(m, lolo);
      res := (m + lolo) % W64;
      tmp := if res < m then W32 else 0;
      res := res / W32 + tmp;
    }

    if top == 0 {
      res := res + lohi;
      res := res + hilo;
      res := res / W32;
    } else {
      res := res + lohi;
      CarryRecovered(res, hilo);
      tmp := res;
      res := (res + hilo) % W64;
      tmp := if res < tmp then W32 else 0;
      res := res / W32 + tmp;
    }
    res := res + hihi;
  }

  // ----- why one test settles all dividends -----

  /** An odd number above one divides no power of two. */
  lemma {:induction false} OddDividesPow2(o: nat, c: nat, k: nat)
    requires o % 2 == 1 && o * c == Pow2(k)
    ensures o == 1
  {
    if k == 0 {
      if o > 1 { MulGe(c, o); }
    } else if c % 2 == 1 {
      OddProduct(o, c);
    } else {
      MulAssoc(o, c / 2, 2);
      OddDividesPow2(o, c / 2, k - 1);
    }
  }

  lemma OddProduct(o: nat, c: nat)
    requires o % 2 == 1 && c % 2 == 1
    ensures o * c % 2 == 1
  {
    Distrib(o / 2 * 2, -1, c);
    MulAssoc(o / 2, 2, c);
    assert o * c == 2 * (o / 2 * c) + c;
  }

  function OddPart(b: nat): (o: nat)
    requires b > 0
  {
    Shr(b, Twos(b))
  }

  lemma {:induction false} OddTimes(b: nat, o: nat, t: nat, c: nat, k: nat)
    requires o % 2 == 1 && b == o * t && b * c == Pow2(k)
    ensures o == 1
  {
    MulAssoc(o, t, c);
    MulBound(t, c, t, c);
    OddDividesPow2(o, t * c, k);
  }

  lemma {:induction false} NotPow2NoMultiple(b: nat, c: nat, k: nat)
    requires b > 0 && OddPart(b) > 1
    ensures b * c != Pow2(k)
  {
    if b * c == Pow2(k) {
      TwosFactor(b);
      OddTimes(b, OddPart(b), Pow2(Twos(b)), c, k);
    }
  }

  /** b * (n*m - q*P) for m = (P + d) / b and n = q*b + s. */
  lemma ScaledRemainder(n: int, b: int, q: int, s: int, P: int, m: int, d: int)
    requires n == q * b + s && m * b == P + d
    ensures b * (n * m - q * P) == s * P + n * d
  {
    MulAssoc(n, m, b);
    Distrib(P, -d, n);
    Distrib(q * b, -s, P);
    MulAssoc(q, b, P);
    Distrib(n * m, q * P, b);
  }

  /** With m = (P + d) / b, multiplying by m and dropping P divides every n that is not hurt by the
    rounding error n*d on the last residue class. */
  lemma CeilingReciprocal(n: u64, b: int, p: int, m: int, d: int)
    requires 0 < b && 0 < p && 0 <= d < b < 2 * p
    requires m * b == p * W64 + d
    requires n % b == b - 1 ==> n * d < p * W64
    ensures n * m / (p * W64) == n / b
  {
    var P := p * W64;
    var q, s := n / b, n % b;
    DivMod(n, b);
    ScaledRemainder(n, b, q, s, P, m, d);
    MulMono(0, n, d);
    MulMono(n, W64 - 1, d);
    RemainderFits(s, b, P, n * d);
    BetweenMultiples(b, n * m - q * P, P);
    DivUnique(n * m, P, q, n * m - q * P);
  }

  lemma RemainderFits(s: int, b: int, P: int, nd: int)
    requires 0 <= s < b && P > 0 && 0 <= nd
    requires if s == b - 1 then nd < P else nd < 2 * P
    ensures 0 <= s * P + nd < b * P
  {
    MulBound(s, P, b, P);
    Distrib(b, 1, P);
    if s < b - 1 {
      MulMono(s, b - 2, P);
      Distrib(b, 2, P);
    }
  }

  lemma BetweenMultiples(b: int, t: int, P: int)
    requires b > 0 && 0 <= b * t < b * P
    ensures 0 <= t < P
  {
    if t < 0 { MulMono(t, -1, b); }
    if t >= P { MulMono(P, t, b); }
  }

  /** With m = (P - e) / b and a bias of one m, the error has the other sign and needs e <= p. */
  lemma BiasedReciprocal(n: u64, b: int, p: int, m: int, e: int)
    requires 0 < b && 0 < e <= p
    requires m * b == p * W64 - e
    ensures (n * m + m) / (p * W64) == n / b
  {
    var P := p * W64;
    var q, s := n / b, n % b;
    DivMod(n, b);
    ScaledRemainder(n + 1, b, q, s + 1, P, m, -e);
    Distrib(n, -1, m);
    MulBound(n + 1, e, W64, p);
    MulGe(n + 1, e);
    MulMono(1, s + 1, P);
    MulMono(s + 1, b, P);
    BetweenMultiples(b, (n + 1) * m - q * P, P);
    DivUnique(n * m + m, P, q, n * m + m - q * P);
  }

  /** The largest dividend in the last residue class is the probe `~0ULL / b * b - 1`. */
  lemma ProbeIsLast(n: u64, b: int)
    requires 0 < b && n % b == b - 1 && MAX64 % b + 1 < b
    ensures n <= MAX64 / b * b - 1
  {
    DivMod(n, b);
    DivMod(MAX64, b);
    LastClass(n, MAX64, b, n / b, MAX64 / b, MAX64 % b);
  }

  lemma LastClass(n: int, max: int, b: int, q: int, top: int, rest: int)
    requires 0 < b && n == q * b + b - 1 <= max && max == top * b + rest && rest + 1 < b
    ensures n <= top * b - 1
  {
    Distrib(q, -1, b);
    if top < q + 1 { MulMono(top, q, b); } else { MulMono(q + 1, top, b); }
  }

  lemma ProbeResidue(b: int)
    requires 0 < b < W64
    ensures MAX64 / b >= 1
    ensures 0 <= MAX64 / b * b - 1 < W64
    ensures (MAX64 / b * b - 1) / b == MAX64 / b - 1
    ensures (MAX64 / b * b - 1) % b == b - 1
  {
    DivMod(MAX64, b);
    var top := MAX64 / b;
    if top < 1 { MulMono(top, 0, b); }
    Distrib(top, 1, b);
    MulGe(top, b);
    DivUnique(top * b - 1, b, top - 1, b - 1);
  }

  /** The test at the probe x decides between the two reciprocals, for all 2^64 dividends. */
  lemma TestDecides(n: u64, b: int, p: int, m: int, d: int)
    requires 0 < b < W32 && p <= b < 2 * p
    requires 0 < d < b && m * b == p * W64 + d
    requires MAX64 % b + 1 < b
    ensures var x := MAX64 / b * b - 1;
            if x * m / (p * W64) == x / b
            then n * m / (p * W64) == n / b
            else b - d <= p && (n * (m - 1) + (m - 1)) / (p * W64) == n / b
  {
    var x := MAX64 / b * b - 1;
    ProbeResidue(b);
    if x * d < p * W64 {
      SmallErrorDecides(n, b, p, m, d, x);
    } else {
      FailedProbe(x, b, p * W64, m, d);
      LargeErrorDecides(n, b, p, m, d, x);
    }
  }

  /** A rounding error that stays below P at the probe stays below it everywhere. */
  lemma SmallErrorDecides(n: u64, b: int, p: int, m: int, d: int, x: u64)
    requires 0 < b < W32 && p <= b < 2 * p && 0 < d < b && m * b == p * W64 + d && MAX64 % b + 1 < b
    requires x == MAX64 / b * b - 1 && x % b == b - 1 && x * d < p * W64
    ensures x * m / (p * W64) == x / b && n * m / (p * W64) == n / b
  {
    CeilingReciprocal(x, b, p, m, d);
    if n % b == b - 1 {
      ProbeIsLast(n, b);
      MulMono(n, x, d);
    }
    CeilingReciprocal(n, b, p, m, d);
  }

  /** One that does not leaves room for the bias. */
  lemma LargeErrorDecides(n: u64, b: int, p: int, m: int, d: int, x: u64)
    requires 0 < b < W32 && p <= b < 2 * p && 0 < d < b && m * b == p * W64 + d && x * d >= p * W64
    ensures b - d <= p && (n * (m - 1) + (m - 1)) / (p * W64) == n / b
  {
    if d <= p { MulBound(x, d, W64 - 1, p); }
    Distrib(m, 1, b);
    BiasedReciprocal(n, b, p, m - 1, b - d);
  }

  /** If the rounding error reaches P at the probe, the test notices. */
  lemma FailedProbe(x: int, b: int, P: int, m: int, d: int)
    requires 0 <= x && 0 < b && 0 < P && x % b == b - 1
    requires m * b == P + d && x * d >= P
    ensures x * m / P != x / b
  {
    var q := x / b;
    DivMod(x, b);
    ScaledRemainder(x, b, q, b - 1, P, m, d);
    Distrib(b, 1, P);
    var t := x * m - q * P;
    if t < P {
      MulMono(t, P - 1, b);
      Distrib(P, 1, b);
    }
    if x * m / P == q { DivMod(x * m, P); }
  }

  // ----- reducing the reciprocal -----

  /** No power of two above p divides both m*b and P = 2^64 * p, because the rounding error d lies
    strictly between 0 and 2*p. */
  lemma ReciprocalTwos(m: nat, b: int, d: int, k: nat)
    requires m > 0 && 0 < d < b <= Pow2(k + 1)
    requires m * b == Pow2(k) * W64 + d
    ensures Twos(m) <= k
  {
    if Twos(m) > k {
      var g := Pow2(k + 1);
      TwosFactor(m);
      Pow2Add(Twos(m) - (k + 1), k + 1);
      var c := Shr(m, Twos(m)) * Pow2(Twos(m) - (k + 1));
      MulAssoc(Shr(m, Twos(m)), Pow2(Twos(m) - (k + 1)), g);
      MulAssoc(c, g, b);
      Distrib(c * b, W64 / 2, g);
      SmallMultiple(c * b - W64 / 2, g);
    }
  }

  function Neg64(x: u64): u64 { if x == 0 then 0 else W64 - x }

  function Not32(x: u32): u32 { W32 - 1 - x }

  /** The word `___bits`, in its three assignments. */
  function LowMask(m: u64): u32 { Neg64(And(m, Neg64(m))) % W32 }

  function Blocked(m: u64): u32 { Or(LowMask(m), m / W32) % W32 }

  function ShiftChoices(m: u64): u32 { Not32(Blocked(m)) * 2 % W32 }

  lemma {:induction false} LowMaskBit(m: u64, i: nat, h: nat, w: nat)
    requires 0 < m && i < h && Widths(h, w)
    ensures Bit(LowMask(m), i) == if i < Twos(m) then 0 else 1
  {
    hide And, Bit, Twos, Pow2, Shr;
    LowBit(m, w);
    var l := Pow2(Twos(m));
    NegPow2Bit(Twos(m), i, w);
    ShiftIsDivision(Neg64(l), h);
    LowBits(Neg64(l), h, i);
  }

  /** -2^t has all bits from t upwards set. */
  lemma {:induction false} NegPow2Bit(t: nat, i: nat, w: nat)
    requires i < w && Pow2(t) < W64 == Pow2(w)
    ensures Bit(Neg64(Pow2(t)), i) == if i < t then 0 else 1
  {
    NotBit(Pow2(t) - 1, w, i);
    MaskBits(t, i);
  }

  lemma {:induction false} BlockedBit(m: u64, i: nat, h: nat, w: nat)
    requires 0 < m && i < h && Widths(h, w)
    ensures Bit(Blocked(m), i) == if i < Twos(m) && Bit(m, h + i) == 0 then 0 else 1
  {
    LowMaskBit(m, i, h, w);
    OrHalves(LowMask(m), m / W32, i, h);
    HighHalfBit(m, i, h);
  }

  lemma {:induction false} OrHalves(a: u32, b: u32, i: nat, h: nat)
    requires Pow2(h) == W32
    ensures Bit(Or(a, b) % W32, i) == if Bit(a, i) == 1 || Bit(b, i) == 1 then 1 else 0
  {
    OrLess(a, b, h);
    OrBit(a, b, i);
  }

  lemma {:induction false} HighHalfBit(m: u64, i: nat, h: nat)
    requires Pow2(h) == W32
    ensures Bit(m / W32, i) == Bit(m, h + i)
  {
    ShiftIsDivision(m, h);
    ShrBit(m, h, i);
  }

  /** Bit i of `___bits` is set iff shifting m by i is exact and clears bit 31 of m. */
  lemma {:induction false} ShiftChoicesBit(m: u64, i: nat, h: nat, w: nat)
    requires 0 < m && Widths(h, w)
    ensures Bit(ShiftChoices(m), i) == 1 <==> 1 <= i < h && i <= Twos(m) && Bit(m, h - 1 + i) == 0
  {
    DoubledBit(Not32(Blocked(m)), i, h);
    if 0 < i < h {
      NotBit(Blocked(m), h, i - 1);
      BlockedBit(m, i - 1, h, w);
    }
  }

  lemma {:induction false} DoubledBit(y: u32, i: nat, h: nat)
    requires Pow2(h) == W32
    ensures Bit(y * 2 % W32, i) == if 0 < i < h then Bit(y, i - 1) else 0
  {
    ShiftIsDivision(y * 2, h);
    LowBits(y * 2, h, i);
    if i > 0 { assert y * 2 / 2 == y; }
  }

  lemma {:induction false} OrLess(x: nat, y: nat, w: nat)
    requires x < Pow2(w) && y < Pow2(w)
    ensures Or(x, y) < Pow2(w)
  {
    if w > 0 { OrLess(x / 2, y / 2, w - 1); }
  }

  /** Shifting m right by i is exact and leaves bit 31 clear. */
  ghost predicate ShiftClears(m: u64, i: nat)
    requires 0 < m
  {
    1 <= i < 32 && i <= Twos(m) && Bit(m, 31 + i) == 0
  }

  /** The largest shift that clears bit 31, or the largest exact shift when none does. */
  ghost predicate BestShift(m: u64, j: nat)
    requires 0 < m
  {
    if exists i: nat :: ShiftClears(m, i)
    then ShiftClears(m, j) && forall i: nat :: ShiftClears(m, i) ==> i <= j
    else j == Twos(m)
  }

  lemma {:induction false} LargestChoice(m: u64)
    requires 0 < m
    ensures BestShift(m, if ShiftChoices(m) == 0 then Twos(m) else Ilog2(ShiftChoices(m)))
  {
    hide ShiftClears, ShiftChoices, Ilog2, Bit, Twos;
    var bits := ShiftChoices(m);
    forall i: nat | ShiftClears(m, i)
      ensures bits != 0 && i <= Ilog2(bits)
    {
      ChoiceAt(m, i);
    }
    if bits != 0 {
      ChoiceAt(m, Ilog2(bits));
      assert ShiftClears(m, Ilog2(bits));
    }
  }

  lemma ChoiceAt(m: u64, i: nat)
    requires 0 < m
    ensures var bits := ShiftChoices(m);
            && (ShiftClears(m, i) ==> bits != 0 && i <= Ilog2(bits))
            && (bits != 0 && i == Ilog2(bits) ==> ShiftClears(m, i))
  {
    hide ShiftChoices, Ilog2, Bit, Twos;
    Pow2Values();
    ShiftChoicesBit(m, i, 32, 64);
    ZeroBit(i);
    var bits := ShiftChoices(m);
    if bits != 0 && i >= Ilog2(bits) { Ilog2Bit(bits, i); }
  }

  lemma {:induction false} ExactShift(m: nat, j: nat)
    requires m > 0 && j <= Twos(m)
    ensures m == m / Pow2(j) * Pow2(j)
    ensures 0 < m / Pow2(j) <= m
  {
    ShiftIsDivision(m, j);
    LowZero(m, j);
    if Shr(m, j) == 0 { MulGe(Pow2(j), Shr(m, j)); }
  }

  lemma {:induction false} LowZero(m: nat, j: nat)
    requires m > 0 && j <= Twos(m)
    ensures Low(m, j) == 0
  {
    if j > 0 { LowZero(m / 2, j - 1); }
  }

  lemma {:induction false} TwosOfPow2(k: nat)
    ensures Twos(Pow2(k)) == k
  {
    if k > 0 { TwosOfPow2(k - 1); }
  }

  /** The three assignments to `___bits`. */
  method ChoiceWord(m: u64, l: u64) returns (bits: u32)
    requires l == And(m, Neg64(m))
    ensures bits == ShiftChoices(m)
  {
    hide And, Or;
    bits := Neg64(l) % W32;
    bits := Or(bits, m / W32) % W32;
    bits := Not32(bits) * 2 % W32;
  }

  lemma {:induction false} LowestBit(m: u64)
    requires 0 < m
    ensures And(m, Neg64(m)) == Pow2(Twos(m))
  {
    Pow2Values();
    hide And, Pow2, Twos;
    LowBit(m, 64);
  }

  lemma {:induction false} ChoiceFits(m: u64)
    requires 0 < m
    ensures ShiftChoices(m) != 0 ==> Ilog2(ShiftChoices(m)) <= Twos(m)
  {
    hide ShiftChoices, Ilog2, Twos, Bit;
    if ShiftChoices(m) != 0 { ChoiceAt(m, Ilog2(ShiftChoices(m))); }
  }

  /** Divides m and p by the same power of two, exactly, preferring the largest shift that clears
    bit 31 of m and falling back to the largest shift there is. */
  method ReduceReciprocal(m: u64, p: u32) returns (m': u64, p': u32, ghost j: nat)
    requires 0 < m && 0 < p && p == Pow2(Twos(p)) && Twos(m) <= Twos(p)
    ensures m == m' * Pow2(j) && p == p' * Pow2(j) && 0 < p'
    ensures BestShift(m, j)
  {
    hide ShiftChoices, BestShift, And, Or, Twos, Pow2, Ilog2;
    var l: u64 := And(m, Neg64(m));
    var bits: u32 := ChoiceWord(m, l);
    LargestChoice(m);
    ChoiceFits(m);
    LowestBit(m);
    j := if bits == 0 then Twos(m) else Ilog2(bits);
    ExactShift(m, j);
    ExactShift(p, j);
    if bits == 0 {
      p' := p / l;
      m' := m / l;
    } else {
      p' := p / Pow2(Ilog2(bits));
      m' := m / Pow2(Ilog2(bits));
    }
  }

  // ----- the division -----

  lemma RoundedUp(b: int, p: int, m: int)
    requires 0 < b < W32 && 0 < p <= b
    requires m == MAX64 / b * p + ((MAX64 % b + 1) * p + b - 1) / b
    ensures 0 <= m * b - p * W64 < b && 0 < m <= W64
    ensures p < b ==> m < W64
  {
    var top, r := MAX64 / b, MAX64 % b + 1;
    var t := r * p + b - 1;
    DivMod(MAX64, b);
    DivMod(t, b);
    MulAssoc(top, p, b);
    MulAssoc(top, b, p);
    Distrib(top * b, -r, p);
    Distrib(top * p, -(t / b), b);
    assert top * b + r == W64;
    assert m * b - p * W64 == b - 1 - t % b;
    if m > W64 || (m == W64 && p < b) {
      MulMono(W64, m, b);
      if m > W64 { MulMono(W64 + 1, m, b); }
    }
    if m <= 0 { MulMono(m, 0, b); }
  }

  lemma RoundedDown(b: int, p: int, up: int, down: int)
    requires 0 < b < W32 && 0 < p <= b
    requires up == MAX64 / b * p + ((MAX64 % b + 1) * p + b - 1) / b
    requires down == MAX64 / b * p + (MAX64 % b + 1) * p / b
    requires up * b != p * W64
    ensures down == up - 1
  {
    RoundedUp(b, p, up);
    var t := (MAX64 % b + 1) * p;
    DivMod(MAX64, b);
    MulAssoc(MAX64 / b, p, b);
    MulAssoc(MAX64 / b, b, p);
    Distrib(MAX64 / b * b, -(MAX64 % b + 1), p);
    Distrib(MAX64 / b * p, -((t + b - 1) / b), b);
    DivMod(t, b);
    DivMod(t + b - 1, b);
    Distrib(t / b, (t + b - 1) / b, b);
    Distrib(t / b, -1, b);
    if t % b == 0 { DivUnique(t + b - 1, b, t / b, b - 1); }
    else { DivUnique(t + b - 1, b, t / b + 1, t % b - 1); }
  }

  /** The divisors whose odd part divides 2^64 - 1. */
  lemma SpecialReciprocal(n: u64, o: int)
    requires 0 < o < W32 && MAX64 % o == 0
    ensures (n * (MAX64 / o) + MAX64 / o) / W64 == n / o
  {
    var m := MAX64 / o;
    var q, s := n / o, n % o;
    DivMod(MAX64, o);
    DivMod(n, o);
    DivMono(n, MAX64, o);
    Distrib(q * o, -s, m);
    MulAssoc(q, o, m);
    MulMono(0, s, m);
    MulMono(s, o - 1, m);
    Distrib(o, 1, m);
    DivUnique(n * m + m, W64, q, s * m + m - q);
  }

  /** Scaling m and p by the same power of two does not change the quotient. */
  lemma ReducedQuotient(n: u64, m: int, p: int, m': int, p': int, g: int)
    requires 0 < g && 0 <= m' && 0 < p' && m == m' * g && p == p' * g
    ensures n * m' / W64 / p' == n * m / (p * W64)
  {
    MulMono(0, n, m');
    DivDiv(n * m', W64, p');
    MulAssoc(n, m', g);
    MulAssoc(p', W64, g);
    CancelFactor(n * m', W64 * p', g);
  }

  lemma CancelFactor(a: int, b: int, g: int)
    requires g > 0 && b > 0
    ensures b * g > 0 && a * g / (b * g) == a / b
  {
    DivMod(a, b);
    MulGe(b, g);
    var q, r := a / b, a % b;
    Distrib(q * b, -r, g);
    MulAssoc(q, b, g);
    MulMono(0, r, g);
    MulMono(r, b - 1, g);
    Distrib(b, 1, g);
    DivUnique(a * g, b * g, q, r * g);
  }

  /** The product that the macro forms by hand to try out m at the probe x. */
  method ProbeProduct(m: u64, x: u64) returns (res: u64)
    ensures res == m * x / W64
  {
    Product32(m % W32, x % W32);
    Product32(m % W32, x / W32);
    Product32(m / W32, x % W32);
    Product32(m / W32, x / W32);
    var lolo: u64, lohi: u64 := (m % W32) * (x % W32), (m % W32) * (x / W32);
    var hilo: u64, hihi: u64 := (x % W32) * (m / W32), (m / W32) * (x / W32);
    HighOfProduct(m, x, false, hihi, hilo + lohi, lolo);
    var t: u64;
    res := lolo / W32;
    res := res + lohi;
    t := res;
    CarryRecovered(res, hilo);
    res := (res + hilo) % W64;
    t := if res < t then W32 else 0;
    res := res / W32 + t;
    res := res + hihi;
  }

  function RoundedUpReciprocal(b: u32, p: int): int
    requires 0 < b
  {
    MAX64 / b * p + ((MAX64 % b + 1) * p + b - 1) / b
  }

  function RoundedDownReciprocal(b: u32, p: int): int
    requires 0 < b
  {
    MAX64 / b * p + (MAX64 % b + 1) * p / b
  }

  lemma SpecialOrComposite(b: u32)
    requires 0 < b
    ensures 0 < OddPart(b) <= b
    ensures MAX64 % OddPart(b) != 0 ==> OddPart(b) > 1
  {
    TwosFactor(b);
    if OddPart(b) == 1 { DivUnique(MAX64, 1, MAX64, 0); }
  }

  lemma {:induction false} NotDividing2to64(b: u32, h: nat)
    requires 0 < b && OddPart(b) > 1 && Pow2(h) == W64
    ensures MAX64 % b + 1 < b
  {
    if MAX64 % b + 1 == b {
      DivMod(MAX64, b);
      Distrib(MAX64 / b, -1, b);
      NotPow2NoMultiple(b, MAX64 / b + 1, h);
    }
  }

  lemma {:induction false} NotExact(b: u32, m: nat, k: nat, h: nat)
    requires 0 < b && OddPart(b) > 1 && Pow2(h) == W64
    ensures m * b != Pow2(k) * W64
  {
    Pow2Add(k, h);
    NotPow2NoMultiple(b, m, k + h);
  }

  /** Outside the special case b is not a power of two, hence divides no power of two. */
  lemma {:induction false} GeneralDivisor(b: u32, p: int, m: int, h: nat)
    requires 0 < b && OddPart(b) > 1 && Pow2(h) == W64
    requires p == Pow2(Ilog2(b)) && m == RoundedUpReciprocal(b, p)
    ensures p < b < 2 * p
    ensures 0 < m < W64 && 0 < m * b - p * W64 < b
  {
    NotPow2NoMultiple(b, 1, Ilog2(b));
    RoundedUp(b, p, m);
    NotExact(b, m, Ilog2(b), h);
  }

  function Neg32(x: u32): u32 { if x == 0 then 0 else W32 - x }

  lemma OddSplit(b: nat, o: nat, t: nat)
    requires b == o * t && b > 0 && o % 2 == 1 && t > 0
    ensures b / t == o && t * o == b && t <= b && o > 0
  {
    DivExact(o, t);
    MulMono(1, o, t);
  }

  lemma {:induction false} LowBitOf(b: u32)
    requires 0 < b
    ensures var l := And(b, Neg32(b)); 0 < l <= b && b / l == OddPart(b) > 0 && l * OddPart(b) == b
  {
    Pow2Values();
    hide And, Pow2, Twos, Shr;
    LowBit(b, 32);
    TwosFactor(b);
    OddSplit(b, OddPart(b), Pow2(Twos(b)));
  }

  /** p = 1 << ilog2(b) fits, as does every intermediate product with it. */
  lemma {:induction false} ReciprocalBounds(b: u32)
    requires 0 < b
    ensures var p := Pow2(Ilog2(b));
            && 0 < p <= b && Twos(p) == Ilog2(b)
            && 0 <= MAX64 / b * p < W64
            && 0 <= (MAX64 % b + 1) * p <= b * p <= (W32 - 1) * (W32 - 1)
            && 0 <= MAX64 / b * p + (MAX64 % b + 1) * p / b <= RoundedUpReciprocal(b, p) <= W64
  {
    var p := Pow2(Ilog2(b));
    TwosOfPow2(Ilog2(b));
    DivMod(MAX64, b);
    MulMono(0, MAX64 / b, p);
    MulMono(p, b, MAX64 / b);
    MulMono(0, MAX64 % b + 1, p);
    MulMono(MAX64 % b + 1, b, p);
    MulBound(b, p, W32 - 1, W32 - 1);
    RoundedUp(b, p, RoundedUpReciprocal(b, p));
    DivMono((MAX64 % b + 1) * p, (MAX64 % b + 1) * p + b - 1, b);
    DivMono(0, (MAX64 % b + 1) * p, b);
  }

  lemma {:induction false} GeneralFacts(b: u32, p: int, up: int, down: int)
    requires 0 < b && OddPart(b) > 1
    requires p == Pow2(Ilog2(b))
    requires up == RoundedUpReciprocal(b, p) && down == RoundedDownReciprocal(b, p)
    ensures p < b < 2 * p && MAX64 % b + 1 < b
    ensures 0 < up < W64 && 0 < up * b - p * W64 < b && down == up - 1
    ensures Twos(up) <= Ilog2(b)
  {
    hide Pow2, Ilog2, Twos, OddPart, RoundedUpReciprocal, RoundedDownReciprocal;
    Pow2Values();
    GeneralDivisor(b, p, up, 64);
    NotDividing2to64(b, 64);
    ReciprocalTwos(up, b, up * b - p * W64, Ilog2(b));
    OneApart(b, p, up, down);
  }

  lemma OneApart(b: u32, p: int, up: int, down: int)
    requires 0 < b && 0 < p <= b && up * b != p * W64
    requires up == RoundedUpReciprocal(b, p) && down == RoundedDownReciprocal(b, p)
    ensures down == up - 1
  {
    RoundedDown(b, p, up, down);
  }

  /** Multiplying by m (plus one m when biased), dropping 64 bits and dividing by p gives n / b. */
  ghost predicate Reciprocal(n: u64, b: u32, dividend: u64, m: u64, p: u32, bias: bool) {
    0 < b && 0 < p && (m * dividend + if bias then m else 0) / W64 / p == n / b
  }

  lemma SpecialIsReciprocal(n: u64, b: u32, low: u32)
    requires 0 < b && 0 < low && low * OddPart(b) == b && 0 < OddPart(b)
    requires MAX64 % OddPart(b) == 0
    ensures Reciprocal(n, b, n / low, MAX64 / OddPart(b), 1, true)
  {
    hide OddPart;
    SpecialReciprocal(n / low, OddPart(b));
    DivDiv(n, low, OddPart(b));
    DivUnique((n / low * (MAX64 / OddPart(b)) + MAX64 / OddPart(b)) / W64, 1, n / b, 0);
  }

  /** The macro's test picks a correct one of the two general reciprocals. */
  lemma TestPicksReciprocal(n: u64, b: u32, p: u32, x: u64, up: u64, down: u64)
    requires 0 < p < b < 2 * p && MAX64 % b + 1 < b
    requires 0 < up * b - p * W64 < b && down == up - 1
    requires x == MAX64 / b * b - 1
    ensures if up * x / W64 / p == x / b then Reciprocal(n, b, n, up, p, false)
            else Reciprocal(n, b, n, down, p, true)
  {
    TestDecides(n, b, p, up, up * b - p * W64);
    ShiftedQuotient(up, x, 0, p);
    ShiftedQuotient(up, n, 0, p);
    ShiftedQuotient(down, n, down, p);
  }

  lemma ShiftedQuotient(m: u64, n: u64, a: u64, p: int)
    requires p > 0
    ensures (m * n + a) / W64 / p == (n * m + a) / (p * W64)
  {
    MulMono(0, n, m);
    DivDiv(n * m + a, W64, p);
  }

  lemma ReducedIsReciprocal(n: u64, b: u32, m: u64, p: u32, m': u64, p': u32, g: int)
    requires Reciprocal(n, b, n, m, p, false)
    requires 0 < g && 0 < p' && m == m' * g && p == p' * g
    ensures Reciprocal(n, b, n, m', p', false)
  {
    ReducedQuotient(n, m, p, m', p', g);
    ShiftedQuotient(m, n, 0, p);
  }

  /** First steps of the macro: p is the leading bit of b, m the reciprocal 2^64 * p / b rounded up
    (for b a power of two it wraps to 0, and is not used). */
  method RoundUpReciprocal(b: u32) returns (p: u32, m: u64)
    requires 0 < b
    ensures p == Pow2(Ilog2(b)) && m == RoundedUpReciprocal(b, p) % W64
  {
    ReciprocalBounds(b);
    p := Pow2(Ilog2(b));
    m := MAX64 / b * p;
    var t: u64 := (MAX64 % b + 1) * p + b - 1;
    m := (m + t / b) % W64;
  }

  method RoundDownReciprocal(b: u32, p: u32) returns (m: u64)
    requires 0 < b && p == Pow2(Ilog2(b)) && RoundedUpReciprocal(b, p) < W64
    ensures m == RoundedDownReciprocal(b, p)
  {
    ReciprocalBounds(b);
    m := MAX64 / b * p;
    var t: u64 := (MAX64 % b + 1) * p;
    m := m + t / b;
  }

  lemma {:induction false} GeneralChoice(n: u64, b: u32, p: u32, x: u64, m: u64, testFailed: bool)
    requires 0 < b && OddPart(b) > 1 && p == Pow2(Ilog2(b)) && x == MAX64 / b * b - 1
    requires m == RoundedUpReciprocal(b, p) % W64
    requires testFailed == (m * x / W64 / p != x / b)
    ensures 0 < p && 0 < m && Twos(m) <= Ilog2(b) && 0 <= RoundedDownReciprocal(b, p) < W64
    ensures RoundedUpReciprocal(b, p) < W64
    ensures !testFailed ==> Reciprocal(n, b, n, m, p, false)
    ensures testFailed ==> Reciprocal(n, b, n, RoundedDownReciprocal(b, p), p, true)
  {
    hide Pow2, Ilog2, Twos, OddPart, RoundedUpReciprocal, RoundedDownReciprocal, Reciprocal;
    var down := RoundedDownReciprocal(b, p);
    GeneralFacts(b, p, RoundedUpReciprocal(b, p), down);
    assert m == RoundedUpReciprocal(b, p);
    TestPicksReciprocal(n, b, p, x, m, down);
  }

  lemma QuotientFits(a: u64, d: int)
    requires 0 < d
    ensures 0 <= a / d <= a
  {
    DivMod(a, d);
    if a / d < 0 { MulMono(a / d, -1, d); }
    if a / d > 0 { MulGe(d, a / d); }
  }

  /** The general strategies: the rounded-down reciprocal with a bias when the test failed, the
    reduced rounded-up one without a bias when it passed. */
  method GeneralReciprocal(ghost n: u64, b: u32, ghost x: u64, testFailed: bool, p: u32, m: u64)
    returns (p': u32, m': u64, bias: bool)
    requires 0 < b && OddPart(b) > 1
    requires p == Pow2(Ilog2(b)) && m == RoundedUpReciprocal(b, p) % W64
    requires x == MAX64 / b * b - 1 && testFailed == (m * x / W64 / p != x / b)
    ensures Reciprocal(n, b, n, m', p', bias)
  {
    GeneralChoice(n, b, p, x, m, testFailed);
    if testFailed {
      bias := true;
      p' := p;
      m' := RoundDownReciprocal(b, p);
    } else {
      TwosOfPow2(Ilog2(b));
      ghost var j;
      m', p', j := ReduceReciprocal(m, p);
      bias := false;
      ReducedIsReciprocal(n, b, m, p, m', p', Pow2(j));
    }
  }

  /** `__div64_const32`: n / b for every 64-bit n and every non-zero 32-bit b. */
  method DivConst32(n: u64, b: u32) returns (res: u64)
    requires 0 < b
    ensures res == n / b
  {
    ProbeResidue(b);
    SpecialOrComposite(b);
    LowBitOf(b);
    var dividend: u64, bias: bool := n, false;
    var p: u32, m: u64 := RoundUpReciprocal(b);
    var x: u64 := MAX64 / b * b - 1;
    res := ProbeProduct(m, x);
    QuotientFits(res, p);
    res := res / p;

    var low: u32 := And(b, Neg32(b));
    if MAX64 % (b / low) == 0 {
      SpecialIsReciprocal(n, b, low);
      QuotientFits(dividend, low);
      QuotientFits(MAX64, b / low);
      dividend := dividend / low;
      m := MAX64 / (b / low);
      p := 1;
      bias := true;
    } else {
      p, m, bias := GeneralReciprocal(n, b, x, res != x / b, p, m);
    }
    assert Reciprocal(n, b, dividend, m, p, bias);
    res := ArchXprod64(m, dividend, bias);
    QuotientFits(res, p);
    res := res / p;
  }

  // ----- do_div -----

  lemma {:induction false} PowerOfTwoTest(b: nat)
    requires b > 0 && And(b, b - 1) == 0
    ensures b == Pow2(Ilog2(b))
  {
    if b > 1 {
      if b % 2 == 1 {
        AndSelf(b / 2);
      } else {
        assert (b - 1) / 2 == b / 2 - 1;
        PowerOfTwoTest(b / 2);
      }
    }
  }

  /** The remainder survives 32-bit arithmetic on truncated operands. */
  lemma RemainderInLowWords(n: u64, b: u32)
    requires 0 < b
    ensures (n % W32 - (n / b % W32 * b) % W32) % W32 == n % b
  {
    var q := n / b;
    DivMod(n, b);
    var t := q % W32 * b;
    assert t == q * b - q / W32 * b * W32 by {
      Distrib(q, q / W32 * W32, b);
      MulAssoc(q / W32, W32, b);
    }
    var k := n / W32 - q / W32 * b - t / W32;
    assert n % W32 - t % W32 == n % b + (-k) * W32;
    AddMultiple(n % b, -k, W32);
  }

  /** `do_div`: replaces n by the quotient and returns the remainder.  `isConstant` stands for
    `__builtin_constant_p`; `div64By32` is the out-of-line `__div64_32`, which must divide. */
  method DoDiv(n: u64, base: u32, isConstant: bool, div64By32: (u64, u32) -> (u64, u32))
    returns (n': u64, rem: u32)
    requires base != 0
    requires forall a: u64, b: u32 | b != 0 :: div64By32(a, b) == (a / b, a % b)
    ensures n' == n / base && rem == n % base
  {
    QuotientFits(n, base);
    if isConstant && And(base, base - 1) == 0 {
      PowerOfTwoTest(base);
      AndLowMask(n, Ilog2(base));
      ShiftIsDivision(n, Ilog2(base));
      rem := And(n, base - 1);
      n' := Shr(n, Ilog2(base));
    } else if isConstant {
      var nLo: u32 := n % W32;
      n' := DivConst32(n, base);
      var resLo: u32 := n' % W32;
      RemainderInLowWords(n, base);
      rem := (nLo - resLo * base % W32) % W32;
    } else if n / W32 == 0 {
      rem := n % W32 % base;
      n' := n % W32 / base;
    } else {
      var both := div64By32(n, base);
      n', rem := both.0, both.1;
    }
  }
}

/** The few facts about multiplication and Euclidean division that every other module leans on.
  Each is stated once, so that no larger proof has to do non-linear arithmetic by itself. */
module Arith {

  lemma MulGe(a: int, d: int)
    requires a >= 1 && d >= 0
    ensures a * d >= d
  {}

  lemma MulMono(a: int, b: int, d: int)
    requires a <= b && d >= 0
    ensures a * d <= b * d
  {}

  lemma Distrib(a: int, b: int, d: int)
    ensures (a - b) * d == a * d - b * d
    ensures (a + b) * d == a * d + b * d
  {}

  lemma MulAssoc(a: int, b: int, c: int)
    ensures (a * b) * c == a * (b * c)
    ensures (a * b) * c == (a * c) * b
  {}

  lemma SmallMultiple(k: int, d: int)
    requires d > 0 && -d < k * d < d
    ensures k == 0
  {
    if k >= 1 {
      MulGe(k, d);
    } else if k <= -1 {
      MulGe(-k, d);
    }
  }

  lemma DivMod(n: int, d: int)
    requires d > 0
    ensures n == n / d * d + n % d && 0 <= n % d < d
  {}

  /** Quotient and remainder are determined by n = q*d + r with 0 <= r < d. */
  lemma DivUnique(n: int, d: int, q: int, r: int)
    requires d > 0 && 0 <= r < d
    requires n == q * d + r
    ensures n / d == q && n % d == r
  {
    DivMod(n, d);
    Distrib(q, n / d, d);
    SmallMultiple(q - n / d, d);
  }

  lemma DivExact(q: int, d: int)
    requires d > 0
    ensures q * d / d == q && q * d % d == 0
  {
    DivUnique(q * d, d, q, 0);
  }

  lemma DivMono(a: int, b: int, d: int)
    requires d > 0 && a <= b
    ensures a / d <= b / d
  {
    DivMod(a, d);
    DivMod(b, d);
    if b / d < a / d {
      Distrib(a / d, b / d, d);
      MulGe(a / d - b / d, d);
    }
  }

  lemma AddMultiple(n: int, k: int, d: int)
    requires d > 0
    ensures (n + k * d) / d == n / d + k && (n + k * d) % d == n % d
  {
    DivMod(n, d);
    Distrib(n / d, k, d);
    DivUnique(n + k * d, d, n / d + k, n % d);
  }

  lemma DivDiv(n: nat, a: nat, b: nat)
    requires a > 0 && b > 0
    ensures a * b > 0 && n / a / b == n / (a * b)
  {
    var h := n / a;
    var q, s := h / b, h % b;
    DivMod(n, a);
    DivMod(h, b);
    MulGe(b, a);
    var r := s * a + n % a;
    MulMono(s, b - 1, a);
    Distrib(b, 1, a);
    Distrib(q * b, s, a);
    MulAssoc(q, b, a);
    DivUnique(n, a * b, q, r);
  }
}

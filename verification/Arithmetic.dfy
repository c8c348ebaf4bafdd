/** Integer arithmetic shared by the limiters: ceilings, floors and their laws. */
module Arithmetic {

  function Min(a: int, b: int): int {
    if a <= b then a else b
  }

  function Max(a: int, b: int): int {
    if a >= b then a else b
  }

  /** `math.Ceil(a / b)` for a positive divisor. */
  function CeilDiv(a: int, b: int): int
    requires b > 0
  {
    (a + b - 1) / b
  }

  lemma CeilDivBounds(a: int, b: int)
    requires b > 0
    ensures (CeilDiv(a, b) - 1) * b < a <= CeilDiv(a, b) * b
  {
  }

  lemma MulMonotone(a: int, b: int, k: int)
    requires a <= b && 0 <= k
    ensures a * k <= b * k && k * a <= k * b
  {
  }

  /** The ceiling is the least integer whose product covers the dividend. */
  lemma CeilDivLeast(a: int, b: int, k: int)
    requires b > 0
    ensures CeilDiv(a, b) <= k <==> a <= k * b
  {
    var q := CeilDiv(a, b);
    CeilDivBounds(a, b);
    if q <= k {
      MulMonotone(q, k, b);
    } else {
      MulMonotone(k, q - 1, b);
    }
  }

  lemma CeilDivUnique(a: int, b: int, q: int)
    requires b > 0
    requires (q - 1) * b < a <= q * b
    ensures CeilDiv(a, b) == q
  {
    CeilDivLeast(a, b, q);
    CeilDivLeast(a, b, q - 1);
  }

  /** Rounding up twice is rounding up once by the product. */
  lemma NestedCeil(a: int, b: int, c: int)
    requires b > 0 && c > 0
    ensures b * c > 0
    ensures CeilDiv(CeilDiv(a, b), c) == CeilDiv(a, b * c)
  {
    var q := CeilDiv(CeilDiv(a, b), c);
    CeilDivLeast(CeilDiv(a, b), c, q);
    CeilDivLeast(CeilDiv(a, b), c, q - 1);
    CeilDivLeast(a, b, q * c);
    CeilDivLeast(a, b, (q - 1) * c);
    assert q * c * b == q * (b * c);
    assert (q - 1) * c * b == (q - 1) * (b * c);
    assert b * c > 0;
    CeilDivUnique(a, b * c, q);
  }

  /** A common factor of dividend and divisor does not change a ceiling. */
  lemma CeilDivScale(a: int, b: int, k: int)
    requires b > 0 && k > 0
    ensures b * k > 0
    ensures CeilDiv(a * k, b * k) == CeilDiv(a, b)
  {
    var q := CeilDiv(a, b);
    CeilDivBounds(a, b);
    assert b * k > 0;
    assert (q - 1) * (b * k) == ((q - 1) * b) * k;
    assert q * (b * k) == (q * b) * k;
    MulMonotone(a, q * b, k);
    MulMonotone((q - 1) * b + 1, a, k);
    CeilDivUnique(a * k, b * k, q);
  }

  /** Adding whole divisors commutes with rounding up. */
  lemma CeilDivShift(n: int, a: int, b: int)
    requires b > 0
    ensures CeilDiv(n * b + a, b) == n + CeilDiv(a, b)
  {
    var q := CeilDiv(a, b);
    CeilDivBounds(a, b);
    assert (n + q - 1) * b == n * b + (q - 1) * b;
    assert (n + q) * b == n * b + q * b;
    CeilDivUnique(n * b + a, b, n + q);
  }

  lemma FloorDivBounds(a: int, b: int)
    requires b > 0
    ensures (a / b) * b <= a < (a / b + 1) * b
  {
  }

  /** Integer division is the greatest quotient that fits. */
  lemma FloorDivGreatest(a: int, b: int, k: int)
    requires b > 0
    ensures k <= a / b <==> k * b <= a
  {
    var q := a / b;
    FloorDivBounds(a, b);
    if k <= q {
      MulMonotone(k, q, b);
    } else {
      MulMonotone(q + 1, k, b);
    }
  }

  lemma FloorDivUnique(a: int, b: int, q: int)
    requires b > 0
    requires q * b <= a < (q + 1) * b
    ensures a / b == q
  {
    FloorDivGreatest(a, b, q);
    FloorDivGreatest(a, b, q + 1);
  }

  lemma ScaleBounds(a: int, b: int, k: int, q: int)
    requires b > 0 && k > 0
    requires q * b <= a < (q + 1) * b
    ensures q * (b * k) <= a * k < (q + 1) * (b * k)
  {
    MulMonotone(q * b, a, k);
    MulMonotone(a + 1, (q + 1) * b, k);
    assert q * (b * k) == (q * b) * k;
    assert (q + 1) * (b * k) == ((q + 1) * b) * k;
  }

  lemma FloorDivScale(a: int, b: int, k: int)
    requires b > 0 && k > 0
    ensures b * k > 0
    ensures (a * k) / (b * k) == a / b
  {
    FloorDivBounds(a, b);
    ScaleBounds(a, b, k, a / b);
    MulMonotone(1, k, b);
    FloorDivUnique(a * k, b * k, a / b);
  }
}

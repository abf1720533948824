/** Floor division by a positive divisor, in the few shapes the buckets need. */
module Arith {
  function Max(a: int, b: int): int { if a < b then b else a }

  function Min(a: int, b: int): int { if a < b then a else b }

  lemma {:induction false} MulAtLeast(k: int, d: int)
    requires k >= 1 && d >= 0
    ensures k * d >= d
  {
    assert (k - 1) * d >= 0;
    assert k * d == (k - 1) * d + d;
  }

  /** Quotient and remainder are unique. */
  lemma DivUnique(x: int, d: int, q: int, r: int)
    requires d > 0 && x == q * d + r && 0 <= r < d
    ensures x / d == q && x % d == r
  {
    var p, s := x / d, x % d;
    assert p * d + s == q * d + r;
    assert (q - p) * d == q * d - p * d;
    assert (p - q) * d == p * d - q * d;
    if q > p { MulAtLeast(q - p, d); }
    if q < p { MulAtLeast(p - q, d); }
  }

  lemma DivBounds(x: int, d: int)
    requires d > 0
    ensures x / d * d <= x < x / d * d + d
  {
  }

  lemma DivAddMultiple(x: int, k: int, d: int)
    requires d > 0
    ensures (x + k * d) / d == x / d + k
  {
    var q := x / d;
    DivBounds(x, d);
    assert (q + k) * d == q * d + k * d;
    DivUnique(x + k * d, d, q + k, x - q * d);
  }

  lemma DivMonotone(x: int, y: int, d: int)
    requires d > 0 && x <= y
    ensures x / d <= y / d
  {
    var p, q := x / d, y / d;
    DivBounds(x, d);
    DivBounds(y, d);
    assert (p - q) * d == p * d - q * d;
    if p > q { MulAtLeast(p - q, d); }
  }

  /** The floor is at least `q` exactly when `q` whole divisors fit. */
  lemma DivAtLeast(x: int, d: int, q: int)
    requires d > 0
    ensures x / d >= q <==> x >= q * d
  {
    var p := x / d;
    DivBounds(x, d);
    DivUnique(q * d, d, q, 0);
    if x >= q * d { DivMonotone(q * d, x, d); }
    assert p * d == q * d + (p - q) * d;
    if p > q { MulAtLeast(p - q, d); }
  }

  lemma DivExact(q: int, d: int)
    requires d > 0
    ensures q * d / d == q && q * d % d == 0
  {
    DivUnique(q * d, d, q, 0);
  }

  lemma MulSum(a: int, b: int, d: int)
    ensures a * d + b * d == (a + b) * d
  {
  }

  /** Splitting an interval loses at most one whole divisor to the remainders. */
  lemma DivSplit(x: int, y: int, d: int)
    requires d > 0
    ensures x / d + y / d <= (x + y) / d <= x / d + y / d + 1
  {
    var p, q := x / d, y / d;
    DivBounds(x, d);
    DivBounds(y, d);
    assert (p + q) * d == p * d + q * d;
    assert (p + q + 1) * d == (p + q) * d + d;
    assert (p + q + 2) * d == (p + q + 1) * d + d;
    DivAtLeast(x + y, d, p + q);
    DivAtLeast(x + y, d, p + q + 2);
  }
}

/** Integer arithmetic the averaging and the block grid rest on: products,
    truncating division and the uniqueness of quotient and remainder. */
module Arith {
  /** Truncating division by a positive n keeps a value that lies between
      lo * n and hi * n between lo and hi. */
  lemma DivBetween(s: int, n: int, lo: int, hi: int)
    requires n > 0 && lo * n <= s <= hi * n
    ensures lo <= s / n <= hi
  {
    var q, r := s / n, s % n;
    assert s == q * n + r && 0 <= r < n;
    MulAdd(n, q, 1);
    MulCancel(lo, q + 1, n);
    MulCancel(q, hi + 1, n);
  }

  /** a * n < b * n with n > 0 means a < b. */
  lemma MulCancel(a: int, b: int, n: int)
    requires n > 0 && a * n < b * n
    ensures a < b
  {
  }

  /** Dividing a non-negative value by a positive n does not grow it. */
  lemma DivShrinks(a: int, n: int)
    requires 0 <= a && n >= 1
    ensures 0 <= a / n <= a
  {
    DivBetween(a, n, 0, a);
  }

  /** One more factor k. */
  lemma MulStep(k: int, h: int)
    ensures k * h == k * (h - 1) + k
  {
  }

  /** Multiplication distributes over addition. */
  lemma MulAdd(k: int, a: int, b: int)
    ensures k * (a + b) == k * a + k * b
    ensures (a + b) * k == a * k + b * k
  {
  }

  /** Multiplying by a non-negative k keeps order. */
  lemma MulMonotone(k: int, a: int, b: int)
    requires k >= 0 && a <= b
    ensures k * a <= k * b
  {
  }

  /** Quotient and remainder are unique. */
  lemma DivModUnique(a: int, n: int, q: int, r: int)
    requires n >= 1 && a == n * q + r && 0 <= r < n
    ensures a / n == q && a % n == r
  {
    var p := a / n;
    if q < p {
      MulMonotone(n, q + 1, p);
      MulStep(n, q + 1);
    } else if p < q {
      MulMonotone(n, p + 1, q);
      MulStep(n, p + 1);
    }
  }
}

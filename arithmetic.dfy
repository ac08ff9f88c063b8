/** Facts about multiplication and division that the solver does not find on its own. */
module Arithmetic {

  lemma DivOfMul(a: real, m: real, y: real)
    requires 0.0 < m && a == m * y
    ensures a / m == y
  {
  }

  lemma DivMonotone(a: real, b: real, m: real)
    requires 0.0 < m && a < b
    ensures a / m < b / m
  {
  }

  /** A quotient of a value in [0, m) by m lies in [0, 1). */
  lemma FractionBelowOne(y: real, m: real)
    requires 0.0 < m && 0.0 <= y < m
    ensures 0.0 <= y / m < 1.0
  {
    DivMonotone(y, m, m);
    assert m / m == 1.0;
  }

  lemma CastMul(a: int, b: int)
    ensures (a * b) as real == a as real * b as real
  {
  }

  /** Integer division is determined by any quotient and remainder in range. */
  lemma DivUnique(n: int, k: int, q: int, r: int)
    requires 0 < k && n == k * q + r && 0 <= r < k
    ensures n / k == q && n % k == r
  {
    var d := n / k - q;
    assert k * d == r - n % k;
  }
}

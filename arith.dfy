/** Integer facts the timer and the grid rule rest on. */
module Arithmetic {

  /** Multiplying by a non-negative number keeps the order. */
  lemma MulMonotone(x: int, y: int, b: int)
    requires b >= 0
    ensures x <= y ==> x * b <= y * b
  {
    if x <= y {
      assert y * b - x * b == (y - x) * b;
    }
  }

  /** Division is determined by any quotient and remainder in range. */
  lemma DivUnique(a: int, b: int, q: int, r: int)
    requires b > 0 && 0 <= r < b && a == q * b + r
    ensures a / b == q
  {
    var q', r' := a / b, a % b;
    assert a == q' * b + r' && 0 <= r' < b;
    MulMonotone(q + 1, q', b);
    MulMonotone(q' + 1, q, b);
    assert (q + 1) * b == q * b + b && (q' + 1) * b == q' * b + b;
  }

  /** Dividing twice is dividing by the product. */
  lemma DivDiv(a: nat, b: nat, c: nat)
    requires b > 0 && c > 0
    ensures a / b / c == a / (b * c)
  {
    var q, r := a / (b * c), a % (b * c);
    assert a == q * (b * c) + r && 0 <= r < b * c;
    var r1, r0 := r / b, r % b;
    assert r == r1 * b + r0 && 0 <= r0 < b;
    MulMonotone(c, r1, b);
    assert r1 < c;
    assert a == (q * c + r1) * b + r0;
    DivUnique(a, b, q * c + r1, r0);
    DivUnique(q * c + r1, c, q, r1);
  }

  /** A quotient is at most `m` when the dividend is below `(m + 1) * k`. */
  lemma DivAtMost(x: nat, k: nat, m: nat)
    requires k > 0 && x < (m + 1) * k
    ensures x / k <= m
  {
    var q := x / k;
    assert q * k <= x;
    MulMonotone(m + 1, q, k);
  }

  /** A quotient is at least 1 when the dividend is at least the divisor. */
  lemma DivAtLeastOne(x: nat, k: nat)
    requires k > 0 && x >= k
    ensures x / k >= 1
  {
    var q := x / k;
    assert x == q * k + x % k && x % k < k;
    MulMonotone(q, 0, k);
  }
}

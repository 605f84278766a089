/** Products and shares of real numbers, for the proofs that need them spelled out. */
module Reals {
  lemma NonNegative(a: real, b: real)
    requires a >= 0.0 && b >= 0.0
    ensures a * b >= 0.0
  {
  }

  /** A product is zero only if a factor is. */
  lemma ZeroProduct(a: real, b: real)
    requires a * b == 0.0
    ensures a == 0.0 || b == 0.0
  {
    if a != 0.0 {
      assert b == a * b / a;
    }
  }

  /** Division distributes over a difference. */
  lemma DivideDifference(a: real, b: real, m: real)
    requires m > 0.0
    ensures (a - b) / m == a / m - b / m
  {
    Cancel(a, m);
    Cancel(b, m);
    Cancel(a - b, m);
    var d := (a - b) / m - (a / m - b / m);
    assert d * m == 0.0;
    ZeroProduct(d, m);
  }

  lemma Cancel(a: real, m: real)
    requires m > 0.0
    ensures a / m * m == a
  {
  }

  lemma ShareIsAtMostOne(x: real, whole: real)
    requires 0.0 <= x <= whole && 0.0 < whole
    ensures 0.0 <= x / whole <= 1.0
    ensures x > 0.0 ==> x / whole > 0.0
    ensures x == whole ==> x / whole == 1.0
  {
  }
}

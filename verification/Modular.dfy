/** Division with remainder for a modulus that is not a literal. */
module Modular {
  /** n steps on from i round a ring of size places. */
  function RingAdd(i: nat, n: nat, size: nat): (r: nat)
    requires size > 0
    ensures r < size
  {
    (i + n) % size
  }

  lemma MulBound(n: nat, d: int)
    ensures d >= 1 ==> n * d >= n
    ensures d <= -1 ==> n * d <= 0 - n
  {
  }

  lemma DivModUnique(x: int, n: nat, q: int, r: nat)
    requires n > 0 && r < n && x == q * n + r
    ensures x / n == q && x % n == r
  {
    var d := x / n - q;
    assert x == n * (x / n) + x % n;
    assert n * d == r - x % n by { assert n * d == n * (x / n) - q * n; }
    MulBound(n, d);
  }

  /** Going x and then y steps round a ring of n. */
  lemma ModAdd(x: nat, y: nat, n: nat)
    requires n > 0
    ensures (x % n + y) % n == (x + y) % n
  {
    var z := x % n + y;
    assert x + y == (x / n + z / n) * n + z % n by {
      assert x == n * (x / n) + x % n && z == n * (z / n) + z % n;
      assert (x / n + z / n) * n == n * (x / n) + n * (z / n);
    }
    DivModUnique(x + y, n, x / n + z / n, z % n);
  }

  lemma ModSmall(x: nat, n: nat)
    requires x < n
    ensures x % n == x
  {
  }

  lemma QuotientBound(x: nat, n: nat, k: nat)
    requires n > 0 && x < k * n
    ensures 0 <= x / n < k
  {
  }
}

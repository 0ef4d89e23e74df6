/** Division facts shared by the placement modules, and C's truncating remainder. */
module DivMod {

  /** A quotient and a remainder in range are the quotient and the remainder. */
  lemma Unique(a: int, n: int, q: int, r: int)
    requires 0 < n && 0 <= r < n && a == q * n + r
    ensures a / n == q && a % n == r
  {
    var d := a / n - q;
    assert d * n == r - a % n;
    if d != 0 {
      MulAtLeast(if d > 0 then d else -d, n);
    }
  }

  lemma MulAtLeast(d: int, n: int)
    requires 1 <= d && 0 <= n
    ensures d * n >= n
  {
  }

  lemma MulAtMostZero(d: int, n: int)
    requires d <= 0 <= n
    ensures d * n <= 0
  {
  }

  /** Division of a non-negative number by a positive one. */
  lemma Bounds(a: int, n: int)
    requires 0 <= a && 0 < n
    ensures 0 <= a / n && 0 <= a % n < n && a == (a / n) * n + a % n
  {
  }

  /** The quotient and the remainder of the next number. */
  lemma Successor(a: int, n: int)
    requires 0 <= a && 0 < n
    ensures (a + 1) % n == (if a % n == n - 1 then 0 else a % n + 1) == (a % n + 1) % n
    ensures (a + 1) / n == a / n + if (a + 1) % n == 0 then 1 else 0
  {
    if a % n == n - 1 {
      Unique(a + 1, n, a / n + 1, 0);
      Unique(n, n, 1, 0);
    } else {
      Unique(a + 1, n, a / n, a % n + 1);
      Unique(a % n + 1, n, 0, a % n + 1);
    }
  }

  /** Quotients keep the order. */
  lemma Monotone(a: int, b: int, n: int)
    requires 0 < n && a <= b
    ensures a / n <= b / n
  {
    var d := a / n - b / n;
    assert d * n == (a - a % n) - (b - b % n);
    if d > 0 {
      MulAtLeast(d, n);
    }
  }

  /** C's remainder of a (possibly negative) number by a positive one. */
  function TruncRem(a: int, n: int): int
    requires 0 < n
  {
    if a >= 0 then a % n else -((-a) % n)
  }

  /** The idiom ((a % n) + n) % n of the sources brings C's remainder into 0..n-1. */
  lemma NormalizedRem(a: int, n: int)
    requires 0 < n
    ensures TruncRem(TruncRem(a, n) + n, n) == a % n
  {
    var t := TruncRem(a, n);
    if a >= 0 {
      Unique(t + n, n, 1, a % n);
    } else {
      var b := -a;
      assert a == -(b / n) * n - b % n;
      if b % n == 0 {
        Unique(a, n, -(b / n), 0);
        Unique(n, n, 1, 0);
      } else {
        assert a == (-(b / n) - 1) * n + (n - b % n);
        Unique(a, n, -(b / n) - 1, n - b % n);
        Unique(t + n, n, 0, n - b % n);
      }
    }
  }

  /** Adding k whole turns does not change a remainder. */
  lemma AddTurns(a: int, k: int, n: int)
    requires 0 < n
    ensures (a + k * n) % n == a % n
  {
    assert a + k * n == (a / n + k) * n + a % n;
    Unique(a + k * n, n, a / n + k, a % n);
  }
}

/** Quotients and remainders. */
module Arith {
  /** Subtraction that stops at zero. */
  function SaturatingSub(a: nat, b: nat): nat {
    if a < b then 0 else a - b
  }

  lemma {:induction false} MulGrows(d: int, a: int, b: int)
    requires d > 0 && a < b
    ensures d * a + d <= d * b
  {
    var c := b - a - 1;
    assert d * c >= 0;
    assert d * b == d * (a + 1 + c) == d * a + d + d * c;
  }

  lemma {:induction false} DivModUnique(x: int, d: int, k: int, y: int)
    requires 0 <= y < d
    requires x == d * k + y
    ensures x / d == k && x % d == y
  {
    var q := x / d;
    if q > k {
      MulGrows(d, k, q);
    } else if q < k {
      MulGrows(d, q, k);
    }
  }

  /** The low digits of `x`, split after the first. */
  lemma {:induction false} SplitMod(x: int, m: int, n: int)
    requires m > 0 && n > 0
    ensures m * n > 0 && x % (m * n) == (x / m % n) * m + x % m
  {
    var q, r := x / m, x % m;
    var k, j := q / n, q % n;
    assert x == m * (n * k + j) + r;
    assert m * (n * k + j) == m * n * k + j * m;
    MulGrows(m, j, n);
    DivModUnique(x, m * n, k, j * m + r);
  }
}

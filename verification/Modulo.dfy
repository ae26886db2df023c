/** Facts about `%` on integers that the solver does not find by itself. */
module Modulo {

  lemma AtLeastOnce(n: int, a: int)
    requires n >= 1 && a >= 1
    ensures n * a >= n
  {
  }

  lemma QuotientUnique(x: int, n: int, q: int, r: int)
    requires n >= 1 && 0 <= r < n && x == n * q + r
    ensures x % n == r && x / n == q
  {
    var p, s := x / n, x % n;
    assert 0 <= s < n && n * p + s == x;
    assert n * (p - q) == n * p - n * q;
    assert n * (q - p) == n * q - n * p;
    if p > q {
      AtLeastOnce(n, p - q);
    } else if p < q {
      AtLeastOnce(n, q - p);
    }
  }

  lemma Small(x: int, n: int)
    requires 0 <= x < n
    ensures x % n == x
  {
  }

  lemma AddMultiple(x: int, n: int)
    requires n >= 1
    ensures (x + n) % n == x % n
  {
    assert n * (x / n + 1) == n * (x / n) + n;
    QuotientUnique(x + n, n, x / n + 1, x % n);
  }

  /** Equal on the circle of `n` positions. */
  lemma Congruent(c: int, t: int, n: int)
    requires 0 <= c < n
    ensures c == t % n <==> (c - t) % n == 0
  {
    if c == t % n {
      assert n * -(t / n) == -(n * (t / n));
      QuotientUnique(c - t, n, -(t / n), 0);
    }
    if (c - t) % n == 0 {
      var q := (c - t) / n;
      assert n * -q == -(n * q);
      QuotientUnique(t, n, -q, c);
    }
  }
}

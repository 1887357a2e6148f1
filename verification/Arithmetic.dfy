/** Facts about products and remainders of arbitrary integers, which the solver does not find by itself. */
module Arithmetic {
  lemma SameModulo(a: int, b: int, m: int, k: int)
    requires m > 0 && a == b + k * m
    ensures a % m == b % m
  {
    ModuloAlone(a % m, b % m, m, a / m - b / m - k);
    assert a == m * (a / m) + a % m && b == m * (b / m) + b % m;
    assert (a / m - b / m - k) * m == m * (a / m) - m * (b / m) - k * m;
  }

  lemma ModuloAlone(x: int, y: int, m: int, d: int)
    requires 0 <= x < m && 0 <= y < m && d * m == y - x
    ensures x == y
  {
    TimesAtLeast(d, m);
  }

  lemma TimesAtLeast(d: int, m: int)
    requires m > 0
    ensures d >= 1 ==> d * m >= m
    ensures d <= -1 ==> d * m <= -m
  {
  }

  lemma ModuloTimes(a: int, m: int)
    requires m > 0
    ensures a == a % m + (a / m) * m
  {
  }

  lemma CancelFactor(x: int, y: int, t: int)
    requires t > 0
    ensures x * t == y * t <==> x == y
  {
    if x != y {
      TimesAtLeast(x - y, t);
      assert (x - y) * t == x * t - y * t;
    }
  }

  lemma QuotientRemainder(n: int, q: int, t: int, r: int)
    requires t > 0 && 0 <= r < t && n == q * t + r
    ensures n / t == q && n % t == r
  {
    ModuloTimes(n, t);
    assert (n / t - q) * t == n / t * t - q * t;
    ModuloAlone(n % t, r, t, n / t - q);
    CancelFactor(n / t, q, t);
  }
}

/** Facts about products and remainders. */
module Arithmetic {

  lemma MultipleIsFar(n: int, d: int)
    requires n > 0
    ensures d == 0 || n * d >= n || n * d <= -n
  {}

  lemma ModUnique(v: int, q: int, r: int, m: int)
    requires m > 0 && v == m * q + r && 0 <= r < m
    ensures v % m == r
  {
    assert v == m * (v / m) + v % m;
    assert m * (v / m - q) == r - v % m;
    MultipleIsFar(m, v / m - q);
  }

  lemma ModShift(a: int, k: int, m: int)
    requires m > 0
    ensures (a + m * k) % m == a % m
  {
    assert a + m * k == m * (a / m + k) + a % m;
    ModUnique(a + m * k, a / m + k, a % m, m);
  }

  /** A digit can be shifted in before or after reducing. */
  lemma ModPush(v: int, d: int, m: int)
    requires m > 0
    ensures ((v % m) * 16 + d) % m == (v * 16 + d) % m
  {
    assert v * 16 + d == (v % m) * 16 + d + m * (16 * (v / m));
    ModShift((v % m) * 16 + d, 16 * (v / m), m);
  }
}

/** Division facts that other modules use one at a time. */
module Arithmetic {
  function Times(a: int, b: int): int { a * b }

  lemma DivMod(x: int, m: int)
    requires m > 0
    ensures x == (x / m) * m + x % m && 0 <= x % m < m
  {
  }

  lemma ModUnique(x: int, m: int, q: int, r: int)
    requires m > 0 && x == q * m + r && 0 <= r < m
    ensures x % m == r && x / m == q
  {
    var d := x / m - q;
    DivMod(x, m);
    assert d * m == (x / m) * m - q * m;
    if d >= 1 { TimesMonotone(1, d, m); }
    if d <= -1 { TimesMonotone(d, -1, m); }
  }

  lemma TimesMonotone(a: int, b: int, m: int)
    requires a <= b && m >= 0
    ensures a * m <= b * m
  {
    assert b * m - a * m == (b - a) * m;
  }

  lemma BelowMultiple(a: int, b: int, m: int)
    requires a < b && m >= 0
    ensures a * m + m <= b * m
  {
    TimesMonotone(a, b - 1, m);
    assert (b - 1) * m == b * m - m;
  }

  lemma SmallMod(x: int, m: int)
    requires 0 <= x < m
    ensures x % m == x && x / m == 0
  {
    ModUnique(x, m, 0, x);
  }

  lemma ModPlus(x: int, m: int)
    requires m > 0
    ensures (x + m) % m == x % m && (x + m) / m == x / m + 1
  {
    DivMod(x, m);
    assert (x / m + 1) * m == (x / m) * m + m;
    ModUnique(x + m, m, x / m + 1, x % m);
  }

  lemma ModAdd(a: int, b: int, m: int)
    requires m > 0
    ensures (a % m + b) % m == (a + b) % m
  {
    var s := a % m + b;
    DivMod(a, m);
    DivMod(s, m);
    assert (a / m + s / m) * m == (a / m) * m + (s / m) * m;
    ModUnique(a + b, m, a / m + s / m, s % m);
  }

  lemma ModAddTimes(n: int, q: int, m: int)
    requires m > 0
    ensures (n + Times(q, m)) % m == n % m
  {
    DivMod(n, m);
    assert (n / m + q) * m == (n / m) * m + q * m;
    ModUnique(n + Times(q, m), m, n / m + q, n % m);
  }

  lemma TimesNext(a: int, b: int)
    ensures Times(a, b + 1) == Times(a, b) + a
  {
  }
}

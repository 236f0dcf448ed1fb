/** Powers of two, minima, and division with remainder by a variable divisor. */
module Arithmetic {
  function Pow2(n: nat): (r: nat)
    ensures r > 0
  {
    if n == 0 then 1 else 2 * Pow2(n - 1)
  }

  function Max(a: int, b: int): int { if a > b then a else b }
  function Min(a: int, b: int): int { if a < b then a else b }

  lemma Gap(x: nat, y: nat, d: nat)
    requires x > y
    ensures x * d >= y * d + d
  {
    assert (x - y - 1) * d >= 0;
    assert (x - y - 1) * d == x * d - y * d - d;
  }

  lemma Division(w: nat, n: nat)
    requires n > 0
    ensures w == n * (w / n) + w % n && w % n < n
  {}

  lemma Unique(a: nat, d: nat, q: nat, r: nat)
    requires r < d && a == q * d + r
    ensures a / d == q && a % d == r
  {
    var q', r' := a / d, a % d;
    if q' > q { Gap(q', q, d); }
    if q' < q { Gap(q, q', d); }
  }
}

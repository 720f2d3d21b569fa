/** Facts about products, quotients and remainders. */
module Arithmetic {
  function Pow2(w: nat): (r: nat)
    ensures r > 0
  {
    if w == 0 then 1 else 2 * Pow2(w - 1)
  }

  lemma ModIs(a: int, q: int, m: int, r: int)
    requires m > 0 && a == m * q + r && 0 <= r < m
    ensures a % m == r
  {
    var k := q - a / m;
    assert m * k == a % m - r;
    if k >= 1 {
      MulAtLeast(m, k);
    } else if k <= -1 {
      MulAtLeast(m, -k);
    }
  }

  lemma MulAtLeast(m: int, k: int)
    requires m > 0 && k >= 1
    ensures m * k >= m
  {
  }

  lemma ModShift(x: int, k: int, m: nat)
    requires m > 0
    ensures (x + k * m) % m == x % m
  {
    assert x + k * m == m * (x / m + k) + x % m;
    ModIs(x + k * m, x / m + k, m, x % m);
  }

  lemma MulMonotone(a: nat, b: nat, s: nat)
    requires a <= b
    ensures a * s <= b * s
  {
  }

  lemma DivMod(q: nat, r: nat, s: nat)
    requires r < s
    ensures (q * s + r) / s == q && (q * s + r) % s == r
  {
    var n := q * s + r;
    var a, b := n / s, n % s;
    assert n == a * s + b && 0 <= b < s;
    assert (a + 1) * s == a * s + s && (q + 1) * s == q * s + s;
    if a < q {
      MulMonotone(a + 1, q, s);
    } else if a > q {
      MulMonotone(q + 1, a, s);
    }
  }
}

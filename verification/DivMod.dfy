/** Powers of two, and quotients and remainders by a variable divisor. */
module DivMod {

  function Pow2(n: nat): (p: nat)
    ensures p > 0
  {
    if n == 0 then 1 else 2 * Pow2(n - 1)
  }

  lemma MulBound(d: nat, e: int)
    requires d > 0
    ensures e >= 1 ==> d * e >= d
    ensures e <= -1 ==> d * e <= 0 - d
  {}

  lemma QuotientUnique(x: nat, d: nat, q: nat, r: nat)
    requires d > 0 && x == q * d + r && r < d
    ensures x / d == q && x % d == r
  {
    var e := x / d - q;
    assert d * e == r - x % d;
    MulBound(d, e);
  }

  /** With d dividing m, the remainder by d can be taken after the remainder by m. */
  lemma ModMod(x: nat, m: nat, d: nat)
    requires m > 0 && d > 0 && m % d == 0
    ensures x % m % d == x % d
  {
    var k, q, r := m / d, x / m, x % m;
    var j, s := r / d, r % d;
    Collect(q, k, j, d, s);
    QuotientUnique(x, d, q * k + j, s);
  }

  lemma Collect(q: nat, k: nat, j: nat, d: nat, s: nat)
    ensures q * (k * d) + (j * d + s) == (q * k + j) * d + s
  {
    assert q * (k * d) == (q * k) * d;
  }
}

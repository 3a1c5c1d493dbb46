/** Products and quotients of variables, one step at a time. */
module Arithmetic {
  lemma MulAssoc(x: int, y: int, z: int) ensures x * y * z == x * (y * z) && y * x == x * y {}

  lemma MulSub(p: int, x: int, y: int) ensures p * x - p * y == p * (x - y) {}

  lemma MulAtLeast(p: nat, k: nat) requires k > 0 ensures p * k >= p {}

  lemma MulMono(a: nat, b: nat, x: nat, y: nat)
    requires a >= b && x >= y
    ensures a * x >= b * y
  {
    assert a * x >= a * y >= b * y;
  }

  lemma Quotient(n: nat, p: nat)
    requires p > 0
    ensures n == p * (n / p) + n % p && 0 <= n % p < p
  {
  }

  /** Quotient and remainder are determined by the division equation. */
  lemma {:induction false} Euclid(n: nat, m: nat, q: int, r: nat)
    requires n == m * q + r && r < m
    ensures n / m == q && n % m == r
  {
    var k := n / m;
    Quotient(n, m);
    assert m * (q - k) == n % m - r by { MulSub(m, q, k); }
    if q - k > 0 { MulAtLeast(m, q - k); }
    if q - k < 0 { MulAtLeast(m, k - q); MulSub(m, k, q); }
  }

  lemma {:induction false} MultipleMod(p: nat, m: int)
    requires p > 0 && p * m >= 0
    ensures (p * m) % p == 0
  {
    if m < 0 { MulAtLeast(p, -m); MulSub(p, 0, m); }
    Euclid(p * m, p, m, 0);
  }

  lemma DivShrinks(x: nat, y: nat)
    requires y > 0
    ensures 0 <= x / y <= x
  {
    var k := x / y;
    Quotient(x, y);
    if k > 0 { MulMono(y, 1, k, k); }
    if k < 0 { MulAtLeast(y, -k); MulSub(y, 0, k); }
  }

  /** The numbers below `n`. */
  function Below(n: nat): (s: set<nat>)
    ensures forall i: nat :: i in s <==> i < n
    ensures |s| == n
  {
    if n == 0 then {} else Below(n - 1) + {n - 1}
  }
}

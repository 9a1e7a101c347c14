/** Facts about products and quotients of integers. */
module Arithmetic {

  lemma ScaleOrder(a: int, b: int, u: int)
    requires u > 0
    ensures a < b <==> a * u < b * u
    ensures a == b <==> a * u == b * u
  {
    if a < b {
      assert (b - a) * u > 0;
    } else if a > b {
      assert (a - b) * u > 0;
    }
  }

  lemma ScaleMonotone(a: int, b: int, k: int)
    requires a <= b && k >= 0
    ensures a * k <= b * k
  {
  }

  lemma ScaleBound(n: int, u: int)
    requires n >= 0 && u >= 1
    ensures n <= n * u
  {
  }

  lemma DivideExact(k: nat, u: int)
    requires u >= 1
    ensures (k * u) / u == k
  {
    var q := (k * u) / u;
    assert k * u == q * u + (k * u) % u;
    ScaleOrder(k, q, u);
    assert (q + 1) * u == q * u + u;
    ScaleOrder(k, q + 1, u);
  }

  lemma DivideBelow(x: nat, u: int, bound: nat)
    requires u >= 1 && x < bound * u
    ensures 0 <= x / u < bound
  {
    assert x == x / u * u + x % u;
    ScaleOrder(x / u, bound, u);
  }

  lemma DivideShifted(low: nat, p: nat, s: nat)
    requires low < p
    ensures (low + p * s) / p == s
  {
    DivideExact(s, p);
    var q := (low + p * s) / p;
    assert low + s * p == q * p + (low + p * s) % p;
    ScaleOrder(s, q + 1, p);
    ScaleOrder(q, s + 1, p);
  }

  lemma DivideUnique(x: nat, b: nat, q: nat, r: nat)
    requires b > 0 && x == q * b + r && r < b
    ensures x / b == q && x % b == r
  {
    var q' := x / b;
    assert x == q' * b + x % b;
    assert (q + 1) * b == q * b + b && (q' + 1) * b == q' * b + b;
    ScaleOrder(q, q' + 1, b);
    ScaleOrder(q', q + 1, b);
  }

  lemma DivideStep(a: nat, b: nat)
    requires b > 0
    ensures (a + b) / b == a / b + 1 && (a + b) % b == a % b
  {
    var q := a / b;
    assert a == q * b + a % b;
    assert (q + 1) * b == q * b + b;
    DivideUnique(a + b, b, q + 1, a % b);
  }
}

/** Facts about Euclidean division and remainder that the solver does not find alone. */
module Arith {

  lemma MulAtLeast(k: int, d: int)
    requires k >= 1 && d >= 0
    ensures k * d >= d
  {
  }

  lemma MulDistrib(a: int, b: int, d: int)
    ensures (a - b) * d == a * d - b * d
  {
  }

  lemma DivMod(n: int, d: int)
    requires d > 0
    ensures n == (n / d) * d + n % d && 0 <= n % d < d
  {
  }

  /** Uniqueness of Euclidean division. */
  lemma DivUnique(n: int, d: int, q: int, r: int)
    requires d > 0 && 0 <= r < d && n == q * d + r
    ensures n / d == q && n % d == r
  {
    var q' := n / d;
    DivMod(n, d);
    MulDistrib(q, q', d);
    MulDistrib(q', q, d);
    if q > q' {
      MulAtLeast(q - q', d);
    } else if q < q' {
      MulAtLeast(q' - q, d);
    }
  }

  lemma MulAddAssoc(a: int, b: int, q: int, r: int)
    ensures a * (b * q + r) == (a * b) * q + a * r
  {
  }

  lemma MulMono(a: nat, x: nat, y: nat)
    requires x <= y
    ensures a * x <= a * y
  {
  }

  lemma DivDiv(n: nat, a: nat, b: nat)
    requires a > 0 && b > 0
    ensures n / a / b == n / (a * b)
  {
    var q, r1, r2 := n / a / b, n % a, (n / a) % b;
    DivMod(n, a);
    DivMod(n / a, b);
    assert n == a * (n / a) + r1;
    assert n / a == b * q + r2;
    MulAddAssoc(a, b, q, r2);
    assert n == (a * b) * q + (a * r2 + r1);
    MulMono(a, r2, b - 1);
    MulDistrib(b, 1, a);
    assert a * r2 + r1 < a * b;
    DivUnique(n, a * b, q, a * r2 + r1);
  }

  lemma ModSmall(x: int, n: int)
    requires 0 <= x < n
    ensures x % n == x && x / n == 0
  {
    DivUnique(x, n, 0, x);
  }

  lemma ModWrap(x: int, n: int)
    requires n <= x < 2 * n
    ensures x % n == x - n && x / n == 1
  {
    DivUnique(x, n, 1, x - n);
  }

  lemma ModNeg(x: int, n: int)
    requires -n <= x < 0
    ensures x % n == x + n
  {
    DivUnique(x, n, -1, x + n);
  }
}

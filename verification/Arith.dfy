/** Facts about integer products and quotients that the solver needs spelled out. */
module Arith {

  function Min(a: nat, b: nat): nat { if a <= b then a else b }

  lemma MulNonneg(a: int, b: int)
    requires a >= 0 && b >= 0
    ensures a * b >= 0
  {
  }

  lemma DivNonneg(a: int, b: int)
    requires a >= 0 && b > 0
    ensures a / b >= 0
  {
  }

  lemma MulMono(d: int, a: int, b: int)
    requires d >= 0 && a <= b
    ensures d * a <= d * b
  {
    MulNonneg(d, b - a);
    assert d * (b - a) == d * b - d * a;
  }

  lemma MulGap(d: int, a: int, b: int)
    requires d >= 0 && a < b
    ensures d * a + d <= d * b
  {
    MulMono(d, a + 1, b);
    assert d * (a + 1) == d * a + d;
  }

  /** Quotient and remainder are determined by the division equation. */
  lemma DivUnique(y: int, d: int, q: int, r: int)
    requires d > 0 && y == d * q + r && 0 <= r < d
    ensures y / d == q && y % d == r
  {
    var q', r' := y / d, y % d;
    assert y == d * q' + r';
    if q' > q { MulGap(d, q, q'); }
    if q' < q { MulGap(d, q', q); }
  }

  lemma DivTwice(y: int, k: int, m: int)
    requires k > 0 && m > 0
    ensures k * m > 0 && y / k / m == y / (k * m)
  {
    MulMono(k, 1, m);
    var q, r := y / k, y % k;
    var h, b := q / m, q % m;
    assert y == k * (m * h + b) + r;
    assert k * (m * h + b) == k * m * h + k * b;
    MulMono(k, b, m - 1);
    assert k * (m - 1) == k * m - k;
    MulNonneg(k, b);
    DivUnique(y, k * m, h, k * b + r);
  }
}

// Integer facts the models share.
module Arithmetic {
  function Abs(v: int): (r: int)
    ensures 0 <= r
  {
    if v < 0 then -v else v
  }

  function Min(a: int, b: int): int {
    if a < b then a else b
  }

  function Max(a: int, b: int): int {
    if a > b then a else b
  }

  lemma RowMajorBounds(w: int, h: int, x: int, y: int)
    requires 0 <= x < w && 0 <= y < h
    ensures 0 <= y * w + x < w * h
  {
    assert 0 <= y * w <= (h - 1) * w;
  }

  lemma RowMajorInjective(w: int, x1: int, y1: int, x2: int, y2: int)
    requires 0 <= x1 < w && 0 <= x2 < w
    requires y1 * w + x1 == y2 * w + x2
    ensures x1 == x2 && y1 == y2
  {
    if y1 < y2 {
      RowMajorOrder(w, y1, y2);
    } else if y2 < y1 {
      RowMajorOrder(w, y2, y1);
    }
  }

  lemma RowMajorOrder(w: int, y1: int, y2: int)
    requires 0 < w && y1 < y2
    ensures y1 * w + w <= y2 * w
  {
    assert (y1 + 1) * w <= y2 * w;
  }

  lemma ProductNonNegative(a: int, b: int)
    requires 0 <= a && 0 <= b
    ensures 0 <= a * b
  {
  }

  lemma DifferenceOfSquares(a: int, b: int)
    ensures (b - a) * (b + a) == b * b - a * a
  {
  }

  lemma SquareGrows(a: int, b: int)
    requires 0 <= a <= b
    ensures a * a <= b * b
  {
    ProductNonNegative(b - a, b + a);
    DifferenceOfSquares(a, b);
  }

  // Products of consecutive numbers grow.
  lemma PronicGrows(a: int, b: int)
    requires 0 <= a < b
    ensures a * a + a <= b * b - b
  {
    SquareGrows(a, b - 1);
    assert b * b == (b - 1) * (b - 1) + 2 * (b - 1) + 1;
  }

  lemma SquareAbs(v: int)
    ensures Abs(v) * Abs(v) == v * v
  {
  }

  // A non-zero multiple is no smaller.
  lemma AbsMultiple(k: int, v: int)
    requires k != 0
    ensures Abs(v) <= Abs(k * v)
  {
    ProductNonNegative(Abs(k) - 1, Abs(v));
    assert (Abs(k) - 1) * Abs(v) == Abs(k) * Abs(v) - Abs(v);
    AbsProduct(k, v);
  }

  lemma AbsProduct(k: int, v: int)
    ensures Abs(k * v) == Abs(k) * Abs(v)
  {
    var m, n := Abs(k), Abs(v);
    ProductNonNegative(m, n);
    assert k * v == m * n || k * v == -(m * n);
  }

  lemma QuotientIs(n: int, m: int, q: int, r: int)
    requires 0 < m && 0 <= r < m && n == q * m + r
    ensures n / m == q && n % m == r
  {
    assert n / m * m + n % m == n;
    if n / m < q {
      RowMajorOrder(m, n / m, q);
    } else if n / m > q {
      RowMajorOrder(m, q, n / m);
    }
  }

  lemma RemainderOfSum(a: int, b: int, m: int)
    requires 0 < m && 0 <= b
    ensures (a % m + b) % m == (a + b) % m
  {
    var r := a % m + b;
    assert a == a / m * m + a % m;
    assert r == r / m * m + r % m;
    assert (a / m + r / m) * m == a / m * m + r / m * m;
    QuotientIs(a + b, m, a / m + r / m, r % m);
  }
}

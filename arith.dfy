/** Facts about Euclidean division and remainder by a positive modulus, and powers of 2 and 10.
    Dafny's `/` and `%` on `int` are Euclidean; for a positive divisor they are floor division
    and the non-negative remainder, which is what unsigned C arithmetic needs. */
module Arith {

  /** The quotient and remainder are the unique pair with `x == q * m + r` and `0 <= r < m`. */
  lemma DivModUnique(x: int, m: int, q: int, r: int)
    requires 0 < m && 0 <= r < m && x == q * m + r
    ensures x / m == q && x % m == r
  {
    var d := q - x / m;
    assert d * m == x % m - r by {
      assert x == (x / m) * m + x % m;
      assert q * m - (x / m) * m == d * m;
    }
  }

  lemma ModAddMultiple(x: int, k: int, m: int)
    requires 0 < m
    ensures (x + k * m) % m == x % m
    ensures (x + k * m) / m == x / m + k
  {
    DivModUnique(x + k * m, m, x / m + k, x % m);
  }

  lemma ModAdd(x: int, y: int, m: int)
    requires 0 < m
    ensures (x % m + y % m) % m == (x + y) % m
    ensures (x % m + y) % m == (x + y) % m
    ensures (x + y % m) % m == (x + y) % m
  {
    ModAddLeft(x, y, m);
    ModAddLeft(y, x, m);
    ModAddLeft(x, y % m, m);
    assert x + y % m == y % m + x;
  }

  lemma ModAddLeft(x: int, y: int, m: int)
    requires 0 < m
    ensures (x % m + y) % m == (x + y) % m
  {
    assert x % m + y + (x / m) * m == x + y;
    ModAddMultiple(x % m + y, x / m, m);
  }

  /** Adding or subtracting two numbers commutes with reducing them first. */
  lemma ModOfReduced(x: int, y: int, rx: int, ry: int, m: int)
    requires 0 < m && rx == x % m && ry == y % m
    ensures (x + y) % m == (rx + ry) % m
    ensures (x - y) % m == (rx - ry) % m
  {
    ModAdd(x, y, m);
    ModSub(x, y, m);
  }

  /** Scaling and offsetting commutes with reducing first. */
  lemma ModOfReducedScaled(x: int, rx: int, k: int, c: int, m: int)
    requires 0 < m && rx == x % m
    ensures (k * x + c) % m == (k * rx + c) % m
  {
    ModMul(x, k, m);
    assert x * k == k * x && rx * k == k * rx;
    ModAddLeft(k * x, c, m);
    ModAddLeft(k * rx, c, m);
  }

  lemma ModSub(x: int, y: int, m: int)
    requires 0 < m
    ensures (x % m - y % m) % m == (x - y) % m
    ensures (x - y % m) % m == (x - y) % m
  {
    var r := y % m;
    ModSubRight(x, y, m);
    ModAddLeft(x, -r, m);
    assert x % m + -r == x % m - r && x + -r == x - r;
  }

  lemma ModSubRight(x: int, y: int, m: int)
    requires 0 < m
    ensures (x - y % m) % m == (x - y) % m
  {
    assert x - y % m + (-(y / m)) * m == x - y;
    ModAddMultiple(x - y % m, -(y / m), m);
  }

  lemma ModMul(x: int, y: int, m: int)
    requires 0 < m
    ensures (x % m * y) % m == (x * y) % m
    ensures (x % m * (y % m)) % m == (x * y) % m
  {
    var a, b := x / m, y / m;
    assert x * y == (x % m) * y + (a * y) * m by {
      assert x == a * m + x % m;
    }
    ModAddMultiple(x % m * y, a * y, m);
    assert (x % m) * y == (x % m) * (y % m) + ((x % m) * b) * m by {
      assert y == b * m + y % m;
    }
    ModAddMultiple(x % m * (y % m), (x % m) * b, m);
  }

  lemma ModOfSmall(x: int, m: int)
    requires 0 <= x < m
    ensures x % m == x && x / m == 0
  {
    DivModUnique(x, m, 0, x);
  }

  /** Dividing by `m` and then by `n` is dividing by `m * n`. */
  lemma DivDiv(x: int, m: int, n: int)
    requires 0 <= x && 0 < m && 0 < n
    ensures x / m / n == x / (m * n)
    ensures x % (m * n) == x % m + m * ((x / m) % n)
  {
    var y := x / m;
    var q := y / n;
    var r := x % m + m * (y % n);
    assert x == y * m + x % m;
    assert y == q * n + y % n;
    assert y * m == q * (m * n) + (y % n) * m;
    assert x == q * (m * n) + r;
    assert m * (y % n) <= m * (n - 1) by { MulLe(m, y % n, n - 1); }
    DivModUnique(x, m * n, q, r);
  }

  lemma MulLe(m: int, a: int, b: int)
    requires 0 <= m && a <= b
    ensures m * a <= m * b
  {
    assert m * b - m * a == m * (b - a);
  }

  lemma MulDivCancel(x: int, m: int)
    requires 0 < m
    ensures (x * m) / m == x && (x * m) % m == 0
  {
    DivModUnique(x * m, m, x, 0);
  }

  lemma MulLeft(c: int, a: int, b: int)
    ensures c * (a * b) == a * (c * b)
  {
  }

  lemma MulAddAssoc(b: int, a: int, w: int, v: int)
    ensures b * (a + w * v) == b * a + (b * w) * v
  {
    assert b * (w * v) == (b * w) * v;
  }

  lemma DivAtMost(x: nat, d: nat)
    requires d > 0
    ensures 0 <= x / d <= x
  {
    var q := x / d;
    assert x == q * d + x % d;
    MulLe(q, 1, d);
  }

  /** The product of two signed numbers in terms of their magnitudes. */
  lemma SignedProduct(u: int, v: int, x: int, y: int)
    requires x == (if u < 0 then -u else u) && y == (if v < 0 then -v else v)
    ensures u * v == if (u < 0) != (v < 0) then -(x * y) else x * y
  {
    if u < 0 && v >= 0 {
      assert u * v == (-x) * y;
    } else if u >= 0 && v < 0 {
      assert u * v == x * (-y);
    } else if u < 0 && v < 0 {
      assert u * v == (-x) * (-y);
    }
  }

  function Pow2(e: nat): (r: nat)
    ensures r >= 1
  {
    if e == 0 then 1 else 2 * Pow2(e - 1)
  }

  lemma {:induction false} Pow2Add(e1: nat, e2: nat)
    ensures Pow2(e1 + e2) == Pow2(e1) * Pow2(e2)
  {
    if e2 > 0 {
      Pow2Add(e1, e2 - 1);
      MulLeft(2, Pow2(e1), Pow2(e2 - 1));
    }
  }

  lemma {:induction false} Pow2Monotone(e1: nat, e2: nat)
    requires e1 <= e2
    ensures Pow2(e1) <= Pow2(e2)
  {
    if e1 < e2 {
      Pow2Monotone(e1, e2 - 1);
    }
  }

  function Pow10(e: nat): (r: nat)
    ensures r >= 1
  {
    if e == 0 then 1 else 10 * Pow10(e - 1)
  }

  lemma {:induction false} Pow10Add(e1: nat, e2: nat)
    ensures Pow10(e1 + e2) == Pow10(e1) * Pow10(e2)
  {
    if e2 > 0 {
      Pow10Add(e1, e2 - 1);
      MulLeft(10, Pow10(e1), Pow10(e2 - 1));
    }
  }

  lemma {:induction false} Pow10Monotone(e1: nat, e2: nat)
    requires e1 <= e2
    ensures Pow10(e1) <= Pow10(e2)
  {
    if e1 < e2 {
      Pow10Monotone(e1, e2 - 1);
    }
  }
}

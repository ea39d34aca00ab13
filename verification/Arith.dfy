/** Division facts with a symbolic divisor, kept apart so that no other proof multiplies variables. */
module Arith {

  lemma MulAtLeast(a: int, d: int)
    requires a >= 1 && d >= 0
    ensures a * d >= d
  {
  }

  /** Quotient and remainder are unique. */
  lemma DivUnique(x: nat, d: nat, q: nat, r: nat)
    requires d > 0 && x == q * d + r && r < d
    ensures x / d == q && x % d == r
  {
    var diff := x / d - q;
    assert diff * d == x / d * d - q * d == r - x % d;
    if diff >= 1 {
      MulAtLeast(diff, d);
    } else if diff <= -1 {
      MulAtLeast(-diff, d);
    }
  }

  lemma DivMod(x: nat, d: nat)
    requires d > 0
    ensures x == x / d * d + x % d && x % d < d
  {
  }

  /** A quotient is below `q` exactly when the number is below `q` times the divisor. */
  lemma DivBound(x: nat, d: nat, q: nat)
    requires d > 0
    ensures x / d < q <==> x < q * d
  {
    var k := x / d;
    assert x == k * d + x % d;
    if k < q {
      MulAtLeast(q - k, d);
      assert (q - k) * d == q * d - k * d;
    } else if k > q {
      MulAtLeast(k - q, d);
      assert (k - q) * d == k * d - q * d;
    }
  }

  /** Numbers less than `d` apart have different remainders. */
  lemma ModDiffers(v: nat, w: nat, d: nat)
    requires v < w < v + d
    ensures v % d != w % d
  {
    var diff := w / d - v / d;
    assert w - v == w / d * d - v / d * d + (w % d - v % d) == diff * d + (w % d - v % d);
    if diff >= 1 {
      MulAtLeast(diff, d);
    } else if diff <= -1 {
      MulAtLeast(-diff, d);
    }
  }

  /** Dividing twice is dividing by the product. */
  lemma DivDiv(x: nat, c: nat, d: nat)
    requires c > 0 && d > 0
    ensures c * d > 0 && x / c / d == x / (c * d)
  {
    DivMod(x, c);
    DivMod(x / c, d);
    Recompose(x, c, d, x / c, x % c, x / c / d, x / c % d);
  }

  lemma Recompose(x: nat, c: nat, d: nat, y: nat, v: nat, q: nat, u: nat)
    requires x == y * c + v && y == q * d + u && v < c && u < d
    ensures c * d > 0 && x / (c * d) == q
  {
    Distribute(c, q, d, u);
    BelowProduct(c, d, u, v);
    DivUnique(x, c * d, q, c * u + v);
  }

  lemma Distribute(c: nat, q: nat, d: nat, u: nat)
    ensures c * (q * d + u) == q * (c * d) + c * u
  {
  }

  /** u < d and v < c give c * u + v < c * d. */
  lemma BelowProduct(c: nat, d: nat, u: nat, v: nat)
    requires u < d && v < c
    ensures c * u + v < c * d
  {
    assert c * (u + 1) <= c * d;
  }

  /** Scaling both sides of a division keeps the quotient and scales the remainder. */
  lemma ScaledDiv(c: nat, i: nat, k: nat)
    requires c > 0 && k > 0
    ensures c * k > 0 && c * i / (c * k) == i / k && c * i % (c * k) == c * (i % k)
  {
    Distribute(c, i / k, k, i % k);
    BelowProduct(c, k, i % k, 0);
    DivMod(i, k);
    DivUnique(c * i, c * k, i / k, c * (i % k));
  }

  lemma Monotone(x: nat, y: nat, d: nat)
    requires x <= y && d > 0
    ensures 0 <= x / d <= y / d
  {
    DivBound(x, d, y / d + 1);
    DivMod(y, d);
    assert (y / d + 1) * d == y / d * d + d;
  }

  lemma MulNat(a: nat, b: nat)
    ensures a * b >= 0
  {
  }

  /** Multiplying by a positive number keeps the order. */
  lemma ProductBelow(a: int, b: int, d: int)
    requires d > 0
    ensures a * d < b * d <==> a < b
  {
    if a < b {
      MulAtLeast(b - a, d);
      assert (b - a) * d == b * d - a * d;
    } else {
      MulNat(a - b, d);
      assert (a - b) * d == a * d - b * d;
    }
  }
}

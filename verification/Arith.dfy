/** Division facts the solver does not find by itself. */
module Arith {

  lemma MulApart(d: int, k: int)
    requires d >= 0 && k != 0
    ensures d * k >= d || d * k <= -d
  {
    if k > 0 {
      MulNonNegative(d, k - 1);
      assert d * k == d + d * (k - 1);
    } else {
      MulNonNegative(d, -k - 1);
      assert -(d * k) == d + d * (-k - 1);
    }
  }

  lemma MulNonNegative(x: int, y: int)
    requires x >= 0 && y >= 0
    ensures x * y >= 0
  {
  }

  lemma ModUnique(a: int, d: nat, q: int, r: nat)
    requires r < d && a == d * q + r
    ensures a % d == r && a / d == q
  {
    var k := q - a / d;
    assert a == d * (a / d) + a % d;
    assert d * k == d * q - d * (a / d);
    if k != 0 { MulApart(d, k); }
  }

  lemma Distribute(d: int, x: int, y: int)
    ensures d * (x + y) == d * x + d * y && d * -x == -(d * x)
  {
  }

  lemma ModShift(a: int, d: nat, k: int)
    requires d > 0
    ensures (a + d * k) % d == a % d
  {
    Distribute(d, a / d, k);
    ModUnique(a + d * k, d, a / d + k, a % d);
  }

  lemma DivMod(a: int, d: nat)
    requires d > 0
    ensures a == d * (a / d) + a % d
  {
  }

  lemma ModSub(a: int, b: int, d: nat)
    requires d > 0
    ensures (a % d - b) % d == (a - b) % d && (a - b % d) % d == (a - b) % d
  {
    var q, r, p, s := a / d, a % d, b / d, b % d;
    DivMod(a, d);
    DivMod(b, d);
    ModShift(r - b, d, q);
    ModShift(a - b, d, p);
    assert (r - b) + d * q == a - b;
    assert (a - b) + d * p == a - s;
  }

  lemma QuotientBound(a: nat, b: nat, c: nat)
    requires b > 0
    ensures c <= a / b <==> c * b <= a
  {
    var q := a / b;
    DivMod(a, b);
    if c <= q {
      MulNonNegative(b, q - c);
      assert b * q == c * b + b * (q - c);
    } else {
      MulNonNegative(b, c - q - 1);
      assert c * b == b * q + b + b * (c - q - 1);
    }
  }

  /** Dividing twice is dividing by the product. */
  lemma DivDiv(a: int, b: nat, c: nat)
    requires b > 0 && c > 0
    ensures b * c > 0 && a / (b * c) == (a / b) / c
  {
    var q, r, s := (a / b) / c, (a / b) % c, a % b;
    DivMod(a, b);
    DivMod(a / b, c);
    assert a == b * (c * q + r) + s;
    Distribute(b, c * q, r);
    assert b * (c * q) == (b * c) * q;
    MulNonNegative(b, r);
    MulNonNegative(b, c - 1 - r);
    Distribute(b, c - 1 - r, r);
    Distribute(b, c - 1, 1);
    MulNonNegative(b, c - 1);
    assert b * c == b * (c - 1) + b;
    assert b * r + s < b * c;
    ModUnique(a, b * c, q, b * r + s);
  }

  lemma ModAdd(a: nat, d: nat)
    requires d > 0
    ensures (a + d) % d == a % d && (a + d) / d == a / d + 1
  {
    assert a + d == d * (a / d + 1) + a % d;
    ModUnique(a + d, d, a / d + 1, a % d);
  }

  lemma ModStep(a: nat, k: nat, d: nat)
    requires 0 < k < d
    ensures (a + k) % d != a % d
  {
    var q, r := a / d, a % d;
    if r + k < d {
      ModUnique(a + k, d, q, r + k);
    } else {
      assert a + k == d * (q + 1) + (r + k - d);
      ModUnique(a + k, d, q + 1, r + k - d);
    }
  }
}

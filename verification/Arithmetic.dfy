/** The few facts about products, quotients and remainders the other modules need. */
module Arithmetic {

  function Min(a: nat, b: nat): nat {
    if a <= b then a else b
  }

  function Max(a: nat, b: nat): nat {
    if a <= b then b else a
  }

  lemma MulAtLeast(k: int, d: nat)
    requires k >= 1
    ensures k * d >= d
  {
    assert k * d == d + (k - 1) * d;
    assert (k - 1) * d >= 0;
  }

  lemma MulMonotone(d: nat, a: int, b: int)
    requires a <= b
    ensures d * a <= d * b
  {
    assert d * b == d * a + d * (b - a);
    assert d * (b - a) >= 0;
  }

  /** Quotient and remainder are unique. */
  lemma DivModUnique(x: int, q: int, r: int, d: int)
    requires d > 0 && x == q * d + r && 0 <= r < d
    ensures x / d == q && x % d == r
  {
    var q', r' := x / d, x % d;
    assert x == q' * d + r';
    assert (q - q') * d == r' - r;
    assert (q' - q) * d == r - r';
    if q > q' {
      MulAtLeast(q - q', d);
    } else if q < q' {
      MulAtLeast(q' - q, d);
    }
  }

  lemma FloorBounds(x: nat, d: nat)
    requires d > 0
    ensures d * (x / d) <= x < d * (x / d) + d
  {
  }

  lemma DivTwice(x: nat, d: nat, e: nat)
    requires d > 0 && e > 0
    ensures d * e > 0 && x / d / e == x / (d * e)
  {
    var q, r := x / d, x % d;
    var q', r' := q / e, q % e;
    MulAtLeast(d, e);
    MulMonotone(d, r', e - 1);
    MulMonotone(d, 0, r');
    MulThrough(d, e, q', r');
    DivModUnique(x, q', d * r' + r, d * e);
  }

  lemma MulThrough(d: int, e: int, q: int, r: int)
    ensures d * (e * q + r) == q * (d * e) + d * r
    ensures d * (e - 1) == d * e - d
  {
    assert d * (e * q) == q * (d * e);
  }

  lemma MulSplit(r: nat, a: int, b: int, c: int)
    requires a <= b <= c
    ensures r * (c - a) == r * (b - a) + r * (c - b)
    ensures r * (b - a) >= 0 && r * (c - b) >= 0
  {
    MulMonotone(r, 0, b - a);
    MulMonotone(r, 0, c - b);
  }

  lemma ModPlusMultiple(b: nat, n: nat, d: nat)
    requires d > 0
    ensures (b + n * d) % d == b % d
  {
    var q, r := b / d, b % d;
    assert b == q * d + r;
    assert b + n * d == (q + n) * d + r;
    DivModUnique(b + n * d, q + n, r, d);
  }

  /** Numbers less than `d` apart have different remainders. */
  lemma ModDistinct(a: nat, b: nat, d: nat)
    requires a < b < a + d
    ensures a % d != b % d
  {
    var i, j := a / d, b / d;
    if a % d == b % d {
      assert b - a == (j - i) * d;
      if j - i >= 1 {
        MulAtLeast(j - i, d);
      } else {
        MulMonotone(d, j - i, 0);
      }
    }
  }
}

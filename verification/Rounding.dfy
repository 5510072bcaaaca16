/** Floored quotients against the real ones. */
module Rounding {
  import opened Sums

  /** A floored quotient is the quotient, short of it by less than one. */
  lemma RealFloor(x: nat, d: nat)
    requires d > 0
    ensures (x / d) as real <= x as real / d as real < (x / d) as real + 1.0
  {
    FloorBound(x, d);
    var q, y, e := (x / d) as real, x as real, d as real;
    assert ((x / d) * d) as real == q * e;
    assert ((x / d + 1) * d) as real == (q + 1.0) * e;
    Quotients(q, y, e);
  }

  lemma Quotients(q: real, y: real, e: real)
    requires e > 0.0 && q * e <= y < (q + 1.0) * e
    ensures q <= y / e < q + 1.0
  {
    var z := y / e;
    assert z * e == y;
    if z < q { LessTimes(z, q, e); }
    if z >= q + 1.0 { LeTimes(q + 1.0, z, e); }
  }

  lemma LessTimes(a: real, b: real, e: real)
    requires e > 0.0 && a < b
    ensures a * e < b * e
  {
  }

  lemma LeTimes(a: real, b: real, e: real)
    requires e >= 0.0 && a <= b
    ensures a * e <= b * e
  {
  }

  lemma AtMost(p: real, x: real)
    requires p <= 1.0 && x >= 0.0
    ensures p * x <= x
  {
    LeTimes(p, 1.0, x);
  }

  /** A product of sixteen fractional bits, floored. */
  lemma ProductFloor(a: nat, b: nat)
    ensures (a * b / 0x1_0000) as real <= a as real * b as real / 65536.0 < (a * b / 0x1_0000) as real + 1.0
  {
    RealFloor(a * b, 0x1_0000);
    RealProduct(a, b);
  }

  lemma RealProduct(a: nat, b: nat)
    ensures (a * b) as real == a as real * b as real
  {
  }

  lemma ProductGrows(b: nat, q: nat, n: nat)
    requires b <= q
    ensures b * n <= q * n
  {
  }

  lemma LessByProduct(q: nat, b: nat, n: nat)
    requires q * n < b * n
    ensures q < b
  {
    if b <= q { ProductGrows(b, q, n); }
  }

  lemma Cancel(a: nat, b: nat, k: nat)
    requires k > 0 && a * k <= b * k
    ensures a <= b
  {
  }

  lemma QuotientBelow(x: nat, n: nat, b: nat)
    requires n > 0 && x < n * b
    ensures x / n < b
  {
    var q := x / n;
    assert q * n <= x;
    LessByProduct(q, b, n);
  }

  lemma QuotientIs(x: nat, d: nat, q: nat, r: nat)
    requires d > 0 && r < d && x == q * d + r
    ensures x / d == q
  {
    var p := x / d;
    assert p * d <= x < (p + 1) * d;
    LessByProduct(p, q + 1, d);
    LessByProduct(q, p + 1, d);
  }
}

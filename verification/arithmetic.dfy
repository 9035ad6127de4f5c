/** The few facts about products and quotients of two variables that the models need. */
module Arithmetic {

  function Min(a: nat, b: nat): nat { if a <= b then a else b }

  lemma MulMonotone(a: int, b: int, c: int)
    requires a <= b && 0 <= c
    ensures a * c <= b * c
  {
  }

  lemma Scale(d: int, z: int)
    requires d > 0
    ensures z >= 1 ==> d * z >= d
    ensures z <= -1 ==> d * z <= -d
  {
  }

  /** Quotient and remainder are determined by what they are for. */
  lemma DivUnique(x: int, d: int, q: int, r: int)
    requires x == q * d + r && 0 <= r < d
    ensures x / d == q && x % d == r
  {
    var z := q - x / d;
    assert x == d * (x / d) + x % d;
    assert d * z == x % d - r;
    Scale(d, z);
  }

  lemma MultipleModulo(q: int, d: int)
    requires d > 0
    ensures (d * q) % d == 0
  {
    DivUnique(d * q, d, q, 0);
  }

  lemma DivBelow(x: int, d: int, q: int)
    requires d > 0
    ensures x / d < q <==> x < q * d
  {
    assert x == (x / d) * d + x % d;
    if x / d < q {
      MulMonotone(x / d + 1, q, d);
      assert (x / d + 1) * d == (x / d) * d + d;
    } else {
      MulMonotone(q, x / d, d);
    }
  }
}

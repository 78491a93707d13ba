/** Powers and the division facts the address arithmetic rests on. */
module Arith {

  function Pow2(k: nat): (r: nat)
    ensures r >= 1
  {
    if k == 0 then 1 else 2 * Pow2(k - 1)
  }

  /** 256 ** k, the place value of an octet */
  function Pow256(k: nat): (r: nat)
    ensures r >= 1
  {
    if k == 0 then 1 else 256 * Pow256(k - 1)
  }

  /** Quotient and remainder are determined by any decomposition x == q * d + r with 0 <= r < d. */
  lemma DivModUnique(x: nat, d: nat, q: nat, r: nat)
    requires d > 0 && r < d && x == q * d + r
    ensures x / d == q && x % d == r
  {
    var q', r' := x / d, x % d;
    assert x == q' * d + r';
    if q' < q {
      assert (q - q') * d == r' - r;
      MulAtLeast(q - q', d);
    } else if q < q' {
      assert (q' - q) * d == r - r';
      MulAtLeast(q' - q, d);
    }
  }

  lemma MulNonNeg(a: nat, b: nat)
    ensures a * b >= 0
  {
  }

  lemma MulAtLeast(a: nat, d: nat)
    requires a >= 1
    ensures a * d >= d
  {
  }

  lemma DivNonNeg(x: nat, d: nat)
    requires d > 0
    ensures x / d >= 0 && x % d >= 0
  {
  }

  lemma DivMod(x: nat, d: nat)
    requires d > 0
    ensures x == (x / d) * d + x % d && x % d < d
  {
  }

  /** Dividing in two steps is dividing by the product. */
  lemma DivDiv(x: nat, a: nat, b: nat)
    requires a > 0 && b > 0
    ensures x / a / b == x / (a * b)
  {
    var q1, r1 := x / a, x % a;
    assert x == q1 * a + r1 && 0 <= r1 < a && q1 >= 0 by { DivMod(x, a); DivNonNeg(x, a); }
    var q, r2 := q1 / b, q1 % b;
    assert q1 == q * b + r2 && 0 <= r2 < b && q >= 0 by { DivMod(q1, b); DivNonNeg(q1, b); }
    assert x == q * (a * b) + (r2 * a + r1) by {
      assert q1 * a == (q * b) * a + r2 * a by { MulDistrib(q * b, r2, a); }
      assert (q * b) * a == q * (a * b) by { MulAssoc(q, b, a); MulComm(a, b); }
    }
    assert r2 * a + r1 < a * b by {
      MulMonotone(r2, b - 1, a);
      MulDistrib(b - 1, 1, a);
      MulComm(a, b);
    }
    assert a * b > 0 by { MulAtLeast(a, b); }
    DivModUnique(x, a * b, q, r2 * a + r1);
  }

  lemma MulAssoc(a: int, b: int, c: int)
    ensures a * (b * c) == (a * b) * c
  {
  }

  lemma MulComm(a: int, b: int)
    ensures a * b == b * a
  {
  }

  lemma MulDistrib(a: int, b: int, c: int)
    ensures a * c + b * c == (a + b) * c
  {
  }

  lemma MulMonotone(a: nat, b: nat, c: nat)
    requires a <= b
    ensures a * c <= b * c
  {
  }

  lemma Pow2Add(a: nat, b: nat)
    ensures Pow2(a + b) == Pow2(a) * Pow2(b)
    decreases a
  {
    if a > 0 {
      Pow2Add(a - 1, b);
    }
  }

  lemma Pow2Monotone(a: nat, b: nat)
    requires a <= b
    ensures Pow2(a) <= Pow2(b)
    decreases b
  {
    if a < b {
      Pow2Monotone(a, b - 1);
    }
  }
}

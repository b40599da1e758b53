/** Facts about quotients of natural numbers. */
module Arithmetic {
  lemma Divided(m: nat, p: nat)
    requires 0 < p
    ensures m * p % p == 0 && m * p / p == m
  {
    assert m * p == p * m + 0;
    DivisionIsUnique(m * p, p, m, 0);
  }

  lemma {:induction false} MultipleGrows(p: nat, a: nat, b: nat)
    requires a < b
    ensures p * a + p <= p * b
  {
    assert p * a + p == p * (a + 1);
    if a + 1 < b {
      MultipleGrows(p, a, b - 1);
      assert p * (b - 1) + p == p * b;
    }
  }

  lemma DivisionParts(x: nat, p: nat)
    requires 0 < p
    ensures x == p * (x / p) + x % p && x % p < p
  {
  }

  lemma DivisionIsUnique(x: nat, p: nat, q: nat, rest: nat)
    requires rest < p && x == p * q + rest
    ensures x / p == q && x % p == rest
  {
    var q', rest' := x / p, x % p;
    DivisionParts(x, p);
    if q < q' {
      MultipleGrows(p, q, q');
      assert false;
    } else if q' < q {
      MultipleGrows(p, q', q);
      assert false;
    }
  }

  lemma QuotientBetween(m: nat, p: nat, low: nat, high: nat)
    requires 0 < p && low * p <= m < high * p
    ensures low <= m / p < high
  {
    DivisionParts(m, p);
    var q := m / p;
    if q < low {
      MultipleGrows(p, q, low);
    }
    if high <= q {
      MultipleAtLeast(p, high, q);
    }
  }

  lemma MultipleAtLeast(p: nat, a: nat, b: nat)
    requires a <= b
    ensures p * a <= p * b
  {
    if a < b {
      MultipleGrows(p, a, b);
    }
  }

  /** Dividing twice is dividing by the product. */
  lemma DividedTwice(x: nat, p: nat, q: nat)
    requires 0 < p && 0 < q
    ensures 0 < p * q && x / p / q == x / (p * q)
  {
    DivisionParts(x, p);
    DivisionParts(x / p, q);
    var high, middle, low := x / p / q, x / p % q, x % p;
    MultipleGrows(p, middle, q);
    Regrouped(p, q, high, middle, low);
    DivisionIsUnique(x, p * q, high, p * middle + low);
  }

  lemma Regrouped(p: nat, q: nat, high: nat, middle: nat, low: nat)
    ensures p * (q * high + middle) + low == (p * q) * high + (p * middle + low)
  {
  }
}

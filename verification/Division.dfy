/** Quotient and remainder are determined by the division equation. */
module Division {
  lemma AtLeastOne(m: int, k: int)
    requires m > 0 && k >= 1
    ensures m * k >= m && m * (-k) <= -m
  {
  }

  lemma QuotientAndRemainder(v: nat, m: nat, q: nat, r: nat)
    requires m > 0 && v == m * q + r && r < m
    ensures v / m == q && v % m == r
  {
    var k: int := v / m - q;
    assert m * k + v % m == r by {
      assert m * (v / m) + v % m == m * q + r;
      assert m * (v / m) == m * k + m * q;
    }
    if k >= 1 {
      AtLeastOne(m, k);
    } else if k <= -1 {
      AtLeastOne(m, -k);
    }
  }
}

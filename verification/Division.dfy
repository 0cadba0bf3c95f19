module Division {

  /** Quotient and remainder are the only pair that fits. */
  lemma QuotientIs(x: int, m: int, q: int, r: int)
    requires 0 <= r < m && x == q * m + r
    ensures x / m == q && x % m == r
  {
    var a, b := x / m, x % m;
    var d := a - q;
    assert d * m == a * m - q * m == r - b;
    Multiple(d, m);
  }

  lemma Multiple(d: int, m: int)
    requires 0 < m
    ensures d >= 1 ==> d * m >= m
    ensures d <= -1 ==> d * m <= -m
  {
    var e := if d >= 1 then d - 1 else -1 - d;
    assert (d - 1) * m == d * m - m && (-1 - d) * m == -m - d * m;
    assert e >= 0 ==> e * m >= 0;
  }
}

/** Facts about products, quotients and powers of two that the solver does not find by itself. */
module Arith {
  lemma MulMono(a: int, b: int, m: int)
    requires a <= b && 0 <= m
    ensures a * m <= b * m
  {
    assert (b - a) * m >= 0;
    assert (b - a) * m == b * m - a * m;
  }

  /** The quotient and the remainder are unique. */
  lemma DivModUnique(v: int, m: int, d: int, r: int)
    requires m > 0 && 0 <= r < m && v == d * m + r
    ensures v / m == d && v % m == r
  {
    var e, s := v / m, v % m;
    assert v == e * m + s;
    if d < e {
      assert (d + 1) * m == d * m + m;
      MulMono(d + 1, e, m);
    } else if e < d {
      assert (e + 1) * m == e * m + m;
      MulMono(e + 1, d, m);
    }
  }

  /** Splitting a number at a digit boundary: `v mod k*p` is its low digit above `p` and the part below. */
  lemma SplitMod(v: nat, k: nat, p: nat)
    requires p > 0 && k > 0
    ensures k * p > 0
    ensures v % (k * p) == v / p % k * p + v % p
    ensures v / (k * p) == v / p / k
  {
    var q, r := v / p, v % p;
    var d, c := q / k, q % k;
    MulMono(1, k, p);
    MulMono(c, k - 1, p);
    assert (k - 1) * p == k * p - p;
    assert q == d * k + c;
    assert q * p == d * k * p + c * p;
    assert d * k * p == d * (k * p);
    DivModUnique(v, k * p, d, c * p + r);
  }

  lemma QuotientNat(v: nat, m: nat)
    requires m > 0
    ensures v / m >= 0
  {
    if v / m < 0 {
      MulMono(v / m, -1, m);
    }
  }

  lemma Double(a: int, p: int)
    ensures a * (2 * p) == 2 * (a * p)
  {
  }

  lemma MulThree(a: int, b: int, c: int)
    ensures a * b * c == a * (b * c)
  {
  }

  lemma LastQuotient(k: int, p: int)
    requires k > 0 && p > 0
    ensures (k * p - 1) / p == k - 1
  {
    assert (k - 1) * p == k * p - p;
    MulMono(1, k, p);
    DivModUnique(k * p - 1, p, k - 1, p - 1);
  }

  lemma QuotientBelow(v: nat, k: nat, p: nat)
    requires p > 0 && v < k * p
    ensures v / p < k
  {
    if v / p >= k {
      MulMono(k, v / p, p);
    }
  }

  lemma ModAtMost(v: nat, m: nat)
    requires m > 0
    ensures v % m <= v
  {
    if v < m {
      DivModUnique(v, m, 0, v);
    }
  }

  lemma QuotientAtMost(v: nat, m: nat)
    requires m > 0
    ensures v / m <= v
  {
    if v / m > v {
      MulMono(v + 1, v / m, m);
      MulMono(1, m, v + 1);
    }
  }
}

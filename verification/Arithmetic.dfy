/** Quotients and remainders by a divisor that is not a constant. */
module Arithmetic {

  lemma AtLeastOnce(m: nat, d: int)
    requires d >= 1
    ensures m * d >= m
  {
    assert m * d == m + m * (d - 1);
    assert m * (d - 1) >= 0;
  }

  lemma ModUnique(v: int, m: nat, q: int, r: int)
    requires m > 0 && v == m * q + r && 0 <= r < m
    ensures v / m == q && v % m == r
  {
    var q', r' := v / m, v % m;
    assert v == m * q' + r';
    if q > q' {
      assert m * (q - q') == m * q - m * q';
      AtLeastOnce(m, q - q');
    } else if q < q' {
      assert m * (q' - q) == m * q' - m * q;
      AtLeastOnce(m, q' - q);
    }
  }

  /** Dividing by `k` and then by `p` is dividing by their product; the remainders are the digits. */
  lemma DivMod(v: int, k: nat, p: nat)
    requires k > 0 && p > 0
    ensures k * p > 0
    ensures v / k / p == v / (k * p)
    ensures v % (k * p) == v % k + k * (v / k % p)
  {
    var q, r := v / k, v % k;
    var a, b := q / p, q % p;
    Digits(k, p, a, b, r);
    assert v == k * q + r && q == p * a + b;
    ModUnique(v, k * p, a, r + k * b);
  }

  lemma Digits(k: nat, p: nat, a: int, b: nat, r: nat)
    requires r < k && b < p
    ensures 0 < k * p && 0 <= r + k * b < k * p
    ensures k * (p * a + b) + r == k * p * a + (r + k * b)
  {
    assert k * p == k * b + k * (p - b);
    AtLeastOnce(k, p - b);
    assert k * (p * a + b) == k * (p * a) + k * b;
    assert k * (p * a) == k * p * a;
  }
}

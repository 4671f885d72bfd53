/** Facts about products and quotients. */
module Division {

  lemma MulMonotone(a: nat, b: nat, k: nat)
    requires a <= b
    ensures a * k <= b * k
  {
    assert b * k == a * k + (b - a) * k;
  }

  lemma OneMore(k: nat, n: nat)
    ensures (k + 1) * n == k * n + n
  {}

  lemma MulGap(a: nat, b: nat, k: nat)
    requires a < b
    ensures a * k + k <= b * k
  {
    MulMonotone(a + 1, b, k);
    assert (a + 1) * k == a * k + k;
  }

  lemma QuotientUnique(a: nat, u: nat, r: nat, n: nat)
    requires n > 0 && a == u * n + r && r < n
    ensures a / n == u && a % n == r
  {
    var v := a / n;
    if u < v { MulGap(u, v, n); }
    if v < u { MulGap(v, u, n); }
  }

  lemma QuotientShift(d: nat, q: nat, n: nat)
    requires n > 0
    ensures (d * n + q) / n == d + q / n && (d * n + q) % n == q % n
  {
    var u, r := q / n, q % n;
    assert d * n + q == (d + u) * n + r;
    QuotientUnique(d * n + q, d + u, r, n);
  }

  lemma DivMonotone(a: nat, b: nat, d: nat)
    requires d > 0 && a <= b
    ensures a / d <= b / d
  {
    if b / d < a / d { MulGap(b / d, a / d, d); }
  }

  function Pow2(j: nat): (p: nat)
    ensures p > 0
  {
    if j == 0 then 1 else 2 * Pow2(j - 1)
  }

  lemma HalfQuotient(v: nat, p: nat)
    requires p > 0
    ensures v / (2 * p) == v / 2 / p
  {
    var h := v / 2;
    var q, r := h / p, h % p;
    assert v == q * (2 * p) + (2 * r + v % 2);
    QuotientUnique(v, q, 2 * r + v % 2, 2 * p);
  }

  lemma {:induction false} Pow2Sum(a: nat, b: nat)
    ensures Pow2(a + b) == Pow2(a) * Pow2(b)
  {
    if a > 0 {
      Pow2Sum(a - 1, b);
      assert Pow2(a) == 2 * Pow2(a - 1) && Pow2(a + b) == 2 * Pow2(a - 1 + b);
      hide Pow2;
      DoubleProduct(Pow2(a - 1), Pow2(b));
    } else {
      assert Pow2(0) == 1;
    }
  }

  lemma DoubleProduct(p: nat, q: nat)
    ensures 2 * (p * q) == (2 * p) * q
  {}
}

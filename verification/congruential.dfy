/** The congruential generator x -> 13 * x + c modulo a power of two visits every residue. */
module Congruential {
  import opened Pigeonhole
  import opened Division

  function Pow13(j: nat): (p: nat) {
    if j == 0 then 1 else 13 * Pow13(j - 1)
  }

  /** 1 + 13 + ... + 13^(d-1). */
  function Geometric(d: nat): (g: nat) {
    if d == 0 then 0 else Geometric(d - 1) + Pow13(d - 1)
  }

  /** The i-th value from 0 on. */
  function Visit(n: nat, c: nat, i: nat): (x: nat)
    requires n > 0
    ensures x < n
  {
    if i == 0 then 0 else (13 * Visit(n, c, i - 1) + c) % n
  }

  lemma {:induction false} Pow13Sum(i: nat, j: nat)
    ensures Pow13(i + j) == Pow13(i) * Pow13(j)
  {
    if j > 0 {
      Pow13Sum(i, j - 1);
      assert Pow13(i) * (13 * Pow13(j - 1)) == 13 * (Pow13(i) * Pow13(j - 1));
    }
  }

  lemma {:induction false} Pow13IsOneModuloFour(j: nat) returns (h: nat)
    ensures Pow13(j) == 4 * h + 1
  {
    if j == 0 {
      h := 0;
    } else {
      var h' := Pow13IsOneModuloFour(j - 1);
      h := 13 * h' + 3;
    }
  }

  lemma {:induction false} GeometricSum(i: nat, j: nat)
    ensures Geometric(i + j) == Geometric(i) + Pow13(i) * Geometric(j)
  {
    if j > 0 {
      GeometricSum(i, j - 1);
      Pow13Sum(i, j - 1);
      assert i + (j - 1) == (i + j) - 1;
      assert Pow13(i) * (Geometric(j - 1) + Pow13(j - 1)) == Pow13(i) * Geometric(j - 1) + Pow13(i) * Pow13(j - 1);
    }
  }

  lemma {:induction false} GeometricParity(d: nat)
    ensures Geometric(d) % 2 == d % 2
  {
    if d > 0 {
      GeometricParity(d - 1);
      var h := Pow13IsOneModuloFour(d - 1);
      hide Pow13;
      OddSummand(Geometric(d - 1), h, d);
    }
  }

  lemma OddSummand(g: nat, h: nat, d: nat)
    requires d > 0 && g % 2 == (d - 1) % 2
    ensures (g + (4 * h + 1)) % 2 == d % 2
  {
    var q, e := g / 2, (d - 1) / 2;
    if g % 2 == 0 {
      QuotientUnique(g + (4 * h + 1), q + 2 * h, 1, 2);
      QuotientUnique(d, e, 1, 2);
    } else {
      QuotientUnique(g + (4 * h + 1), q + 2 * h + 1, 0, 2);
      QuotientUnique(d, e + 1, 0, 2);
    }
  }

  lemma {:induction false} OddFactorCancels(m: nat, odd: nat, x: int, q: int) returns (r: int)
    requires odd % 2 == 1 && odd * x == q * Pow2(m)
    ensures x == r * Pow2(m)
  {
    if m == 0 {
      r := x;
    } else {
      var k := odd / 2;
      assert odd * x == 2 * (k * x) + x;
      assert q * Pow2(m) == 2 * (q * Pow2(m - 1));
      var y := x / 2;
      assert x == 2 * y;
      assert odd * (2 * y) == 2 * (odd * y);
      r := OddFactorCancels(m - 1, odd, y, q);
      assert 2 * (r * Pow2(m - 1)) == r * Pow2(m);
    }
  }

  /** 2^m divides 1 + 13 + ... + 13^(d-1) only when it divides d. */
  lemma {:induction false} GeometricMultiple(m: nat, d: nat, q: int) returns (r: int)
    requires Geometric(d) == q * Pow2(m)
    ensures d == r * Pow2(m)
    decreases m, 0
  {
    hide *;
    Pow2Step(m);
    if m == 0 {
      r := d;
    } else {
      r := HalfMultiple(m - 1, Pow2(m - 1), d, q);
      assert r * (2 * Pow2(m - 1)) == r * Pow2(m);
    }
  }

  lemma {:induction false} HalfMultiple(m: nat, half: nat, d: nat, q: int) returns (r: int)
    requires half == Pow2(m) && Geometric(d) == q * (2 * half)
    ensures d == r * (2 * half)
    decreases m, 1
  {
    hide *;
    EvenWhenGeometricIs(d, q, half);
    var e := d / 2;
    var h := Pow13IsOneModuloFour(e);
    GeometricSum(e, e);
    HalfOfDoubled(h, Geometric(e), q, half);
    var q' := OddFactorCancels(m, 2 * h + 1, Geometric(e), q);
    r := GeometricMultiple(m, e, q');
    Doubled(r, half, e);
  }

  lemma Pow2Step(m: nat)
    ensures Pow2(m) == if m == 0 then 1 else 2 * Pow2(m - 1)
  {}

  lemma Doubled(r: int, half: nat, e: nat)
    requires e == r * half
    ensures e + e == r * (2 * half)
  {}

  lemma EvenWhenGeometricIs(d: nat, q: int, half: nat)
    requires Geometric(d) == q * (2 * half)
    ensures d == d / 2 + d / 2
  {
    GeometricParity(d);
    hide Geometric;
    assert q * (2 * half) == 2 * (q * half);
  }

  lemma HalfOfDoubled(h: nat, g: nat, q: int, half: nat)
    requires g + (4 * h + 1) * g == q * (2 * half)
    ensures (2 * h + 1) * g == q * half
  {
    assert q * (2 * half) == 2 * (q * half);
    assert (4 * h + 1) * g + g == 2 * ((2 * h + 1) * g);
  }

  lemma {:induction false} VisitClosedForm(n: nat, c: nat, i: nat) returns (q: int)
    requires n > 0
    ensures c * Geometric(i) == Visit(n, c, i) + q * n
  {
    if i == 0 {
      q := 0;
    } else {
      var q' := VisitClosedForm(n, c, i - 1);
      GeometricSum(1, i - 1);
      assert Geometric(1) == 1 && Pow13(1) == 13;
      q := 13 * q' + (13 * Visit(n, c, i - 1) + c) / n;
      ClosedFormStep(n, c, Geometric(i - 1), Visit(n, c, i - 1), q');
    }
  }

  lemma ClosedFormStep(n: nat, c: nat, g: nat, x: nat, q: int)
    requires n > 0 && c * g == x + q * n
    ensures c * (1 + 13 * g) == (13 * x + c) % n + (13 * q + (13 * x + c) / n) * n
  {
    var y := 13 * x + c;
    assert c * (1 + 13 * g) == c + 13 * (c * g);
    assert (13 * q + y / n) * n == 13 * (q * n) + y / n * n;
  }

  lemma {:induction false} VisitsDiffer(m: nat, n: nat, c: nat, i: nat, j: nat)
    requires n == Pow2(m) && c % 2 == 1 && i < j < i + n
    ensures Visit(n, c, i) != Visit(n, c, j)
  {
    if Visit(n, c, i) == Visit(n, c, j) {
      SameVisit(m, n, c, i, j);
    }
  }

  lemma SameVisit(m: nat, n: nat, c: nat, i: nat, j: nat)
    requires n == Pow2(m) && c % 2 == 1 && i < j && Visit(n, c, i) == Visit(n, c, j)
    ensures j >= i + n
  {
    hide *;
    var d := j - i;
    var p := VisitClosedForm(n, c, i);
    var q := VisitClosedForm(n, c, j);
    GeometricSum(i, d);
    hide *;
    Difference(n, c, Geometric(i), Pow13(i) * Geometric(d), Visit(n, c, i), p, q);
    var s := OddFactorCancels(m, c, Pow13(i) * Geometric(d), q - p);
    var h := Pow13IsOneModuloFour(i);
    var t := OddFactorCancels(m, Pow13(i), Geometric(d), s);
    var r := GeometricMultiple(m, d, t);
    PositiveMultiple(r, n, d);
  }

  lemma Difference(n: nat, c: nat, g: nat, rest: nat, x: nat, p: int, q: int)
    requires c * g == x + p * n && c * (g + rest) == x + q * n
    ensures c * rest == (q - p) * n
  {}

  lemma PositiveMultiple(r: int, n: nat, d: nat)
    requires d == r * n && d > 0
    ensures d >= n
  {
    assert r >= 1;
    MulMonotone(1, r, n);
  }

  function Visits(n: nat, c: nat, count: nat): (s: seq<nat>)
    requires n > 0
    ensures |s| == count
  {
    seq(count, i requires 0 <= i => Visit(n, c, i))
  }

  /** Full period: the first n values are all residues, each of them once. */
  lemma FullPeriod(m: nat, n: nat, c: nat)
    requires n == Pow2(m) && c % 2 == 1
    ensures Injective(Visits(n, c, n))
    ensures forall v :: 0 <= v < n ==> v in Visits(n, c, n)
  {
    forall i, j | 0 <= i < j < n
      ensures Visits(n, c, n)[i] != Visits(n, c, n)[j]
    {
      VisitsDiffer(m, n, c, i, j);
    }
    forall v | 0 <= v < n
      ensures v in Visits(n, c, n)
    {
      InjectionCovers(Visits(n, c, n), v);
    }
  }
}

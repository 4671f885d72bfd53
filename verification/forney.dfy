/** Error magnitudes from the evaluator polynomial. */
module Forney {
  import opened Galois
  import opened Recurrence
  import opened Locator
  import opened PowerSums

  /** omega is lambda times s, cut off at n coefficients. */
  ghost predicate IsEvaluator(omega: seq<Byte>, lambda: seq<Byte>, s: seq<Byte>, n: nat) {
    forall i: nat :: Coef(omega, i) == if i < n then Dot(lambda, s, i, i + 1) else ZERO
  }

  /** The odd terms of p, reversed and evaluated at x: the sum over odd k <= 2h+1 of p_k x^(2h+1-k). */
  ghost function OddPart(p: seq<Byte>, x: Byte, h: nat): Byte {
    if h == 0 then Coef(p, 1) else Add(Coef(p, 2 * h + 1), Mul(x, Mul(x, OddPart(p, x, h - 1))))
  }

  /** The odd part of a multiple of 1 + x z, taken at its root, is the cofactor there. */
  lemma {:induction false} OddPartIsCofactor(p: seq<Byte>, q: seq<Byte>, x: Byte, h: nat)
    requires TimesLinear(p, q, x)
    ensures OddPart(p, x, h) == Quot(q, x, 2 * h + 1)
  {
    hide Add, Mul, Coef;
    if h > 0 {
      OddPartIsCofactor(p, q, x, h - 1);
      var l := 2 * h + 1;
      var b := Mul(x, Quot(q, x, l - 2));
      assert Quot(q, x, l - 1) == Add(Coef(q, l - 1), b);
      MulAddRight(x, Coef(q, l - 1), b);
      AddAssoc(Coef(q, l), Mul(x, Coef(q, l - 1)), Mul(x, b));
    }
  }

  /** The sum over t of ys_t times the cofactor of xs_t, reversed and evaluated at y. */
  ghost function Spread(p: seq<Byte>, xs: seq<Byte>, ys: seq<Byte>, m: nat, y: Byte, l: nat): Byte
    requires |xs| == |ys|
    decreases |xs|
  {
    if xs == [] then ZERO else
      Add(Mul(ys[0], Quot(Quotient(p, xs[0], m), y, l)), Spread(p, xs[1..], ys[1..], m, y, l))
  }

  lemma {:induction false} SpreadStep(p: seq<Byte>, xs: seq<Byte>, ys: seq<Byte>, m: nat, y: Byte, l: nat)
    requires |xs| == |ys| && l < m
    ensures Spread(p, xs, ys, m, y, l)
         == if l == 0 then PowerSum(xs, Weighted(p, xs, ys, 0), 0)
            else Add(PowerSum(xs, Weighted(p, xs, ys, l), 0), Mul(y, Spread(p, xs, ys, m, y, l - 1)))
    decreases |xs|
  {
    hide Add, Mul;
    if xs == [] {
      MulZero(y);
      AddZero(ZERO);
    } else {
      var xs', ys' := xs[1..], ys[1..];
      assert Weighted(p, xs, ys, l)[1..] == Weighted(p, xs', ys', l);
      SpreadStep(p, xs', ys', m, y, l);
      var q := Quotient(p, xs[0], m);
      var k := Coef(q, l);
      assert k == Quot(p, xs[0], l);
      MulOne(Mul(ys[0], k));
      if l > 0 {
        var a := Quot(q, y, l - 1);
        MulAddRight(ys[0], k, Mul(y, a));
        MulSwap(ys[0], y, a);
        var d, e := PowerSum(xs', Weighted(p, xs', ys', l), 0), Spread(p, xs', ys', m, y, l - 1);
        AddSwap(Mul(ys[0], k), Mul(y, Mul(ys[0], a)), d, Mul(y, e));
        MulAddRight(y, Mul(ys[0], a), e);
      }
    }
  }

  /** Every point of xs is a root of p. */
  ghost predicate Roots(p: seq<Byte>, xs: seq<Byte>, m: nat) {
    forall t :: 0 <= t < |xs| ==> Quot(p, xs[t], m) == ZERO
  }

  /** The cofactor of one root vanishes at every other root. */
  lemma CofactorVanishes(p: seq<Byte>, x: Byte, y: Byte, m: nat)
    requires DegreeAtMost(p, m) && m > 0 && x != y
    requires Quot(p, x, m) == ZERO && Quot(p, y, m) == ZERO
    ensures Quot(Quotient(p, x, m), y, m - 1) == ZERO
  {
    hide Add, Mul, Quot, Coef;
    var q := Quotient(p, x, m);
    QuotientTimes(p, x, m);
    QuotientDegree(p, x, m);
    QuotAtDegree(p, q, x, y, m);
    AddCancel(y, x);
    NoZeroDivisors(Add(y, x), Quot(q, y, m - 1));
  }

  /** At a root only that root's own term of the spread survives. */
  lemma {:induction false} SpreadAtRoot(p: seq<Byte>, xs: seq<Byte>, ys: seq<Byte>, m: nat, y: Byte)
    requires |xs| == |ys| && Points(xs) && Roots(p, xs, m)
    requires DegreeAtMost(p, m) && m > 0 && Quot(p, y, m) == ZERO
    ensures y !in xs ==> Spread(p, xs, ys, m, y, m - 1) == ZERO
    ensures forall t :: 0 <= t < |xs| && xs[t] == y ==>
              Spread(p, xs, ys, m, y, m - 1) == Mul(ys[t], Quot(Quotient(p, y, m), y, m - 1))
    decreases |xs|
  {
    hide Add, Mul, Quot, DegreeAtMost;
    if xs != [] {
      var xs', ys' := xs[1..], ys[1..];
      assert Roots(p, xs', m) by {
        forall t | 0 <= t < |xs'|
          ensures Quot(p, xs'[t], m) == ZERO
        {
          assert xs'[t] == xs[t + 1];
        }
      }
      SpreadAtRoot(p, xs', ys', m, y);
      if xs[0] == y {
        assert y !in xs';
        AddZero(Mul(ys[0], Quot(Quotient(p, y, m), y, m - 1)));
      } else {
        CofactorVanishes(p, xs[0], y, m);
        MulZero(ys[0]);
        AddZero(Spread(p, xs', ys', m, y, m - 1));
        forall t | 0 <= t < |xs| && xs[t] == y
          ensures Spread(p, xs, ys, m, y, m - 1) == Mul(ys[t], Quot(Quotient(p, y, m), y, m - 1))
        {
          assert xs'[t - 1] == y && ys'[t - 1] == ys[t];
        }
      }
    }
  }

  /** The evaluator polynomial is the spread. */
  lemma {:induction false} EvaluatorIsSpread(omega: seq<Byte>, lambda: seq<Byte>, s: seq<Byte>, xs: seq<Byte>,
                                             ys: seq<Byte>, n: nat, m: nat, y: Byte, l: nat)
    requires |xs| == |ys| && IsPowerSums(s, xs, ys, n) && IsEvaluator(omega, lambda, s, n)
    requires DegreeAtMost(lambda, |xs|) && Roots(lambda, xs, |xs|) && Points(xs) && |xs| <= n && l < m
    ensures Quot(omega, y, l) == Spread(lambda, xs, ys, m, y, l)
    decreases l
  {
    hide Add, Mul, Coef, PowerSum, Dot, Spread;
    SpreadStep(lambda, xs, ys, m, y, l);
    assert Coef(omega, l) == PowerSum(xs, Weighted(lambda, xs, ys, l), 0) by {
      if l < n {
        DotOfPowerSums(lambda, s, xs, ys, n, l, l);
      } else {
        forall t | 0 <= t < |xs|
          ensures Weighted(lambda, xs, ys, l)[t] == ZERO
        {
          QuotVanishesBeyond(lambda, xs[t], |xs|, l);
          MulZero(ys[t]);
        }
        PowerSumOfZeros(xs, Weighted(lambda, xs, ys, l), 0);
      }
    }
    if l > 0 {
      EvaluatorIsSpread(omega, lambda, s, xs, ys, n, m, y, l - 1);
    }
  }

  ghost function Without(xs: seq<Byte>, t: nat): (rest: seq<Byte>)
    requires t < |xs|
    ensures |rest| == |xs| - 1
    ensures forall u :: 0 <= u < |rest| ==> rest[u] == xs[if u < t then u else u + 1]
  {
    xs[..t] + xs[t + 1..]
  }

  lemma {:induction false} QuotCongruent(p: seq<Byte>, q: seq<Byte>, x: Byte, l: nat)
    requires forall i :: i >= 0 ==> Coef(p, i) == Coef(q, i)
    ensures Quot(p, x, l) == Quot(q, x, l)
  {
    hide Add, Mul, Coef;
    if l > 0 {
      QuotCongruent(p, q, x, l - 1);
    }
  }

  /** A root of the locator is simple: its cofactor does not vanish there. */
  lemma CofactorNonZero(lambda: seq<Byte>, xs: seq<Byte>, t: nat, m: nat)
    requires Points(xs) && t < |xs| <= m && Coef(lambda, 0) == ONE
    requires DegreeAtMost(lambda, |xs|) && Roots(lambda, xs, |xs|)
    ensures Quot(Quotient(lambda, xs[t], m), xs[t], m - 1) != ZERO
  {
    hide Add, Mul, Quot, LocatorOf;
    var e, x := |xs|, xs[t];
    var q, rest := Quotient(lambda, x, m), Without(xs, t);
    forall i | i > e - 1
      ensures Coef(q, i) == ZERO
    {
      if i < m { QuotVanishesBeyond(lambda, x, e, i); }
    }
    forall u | 0 <= u < |rest|
      ensures Quot(q, rest[u], |rest|) == ZERO
    {
      var v := if u < t then u else u + 1;
      QuotVanishesBeyond(lambda, x, e, m);
      QuotVanishesBeyond(lambda, xs[v], e, m);
      CofactorVanishes(lambda, x, xs[v], m);
      QuotVanishesBeyond(q, xs[v], e - 1, m - 1);
    }
    FactorThroughRoots(q, rest);
    QuotientDegree(lambda, x, m);
    forall i | i >= 0
      ensures Coef(q, i) == Coef(LocatorOf(rest), i)
    {
      MulOne(Coef(LocatorOf(rest), i));
    }
    QuotCongruent(q, LocatorOf(rest), x, e - 1);
    LocatorNonZero(rest, x);
    QuotVanishesBeyond(q, x, e - 1, m - 1);
  }

  /** Forney: the evaluator at an error position is the error times the odd part of the locator. */
  lemma ForneyFormula(lambda: seq<Byte>, omega: seq<Byte>, s: seq<Byte>, xs: seq<Byte>, ys: seq<Byte>, n: nat, h: nat,
                      t: nat)
    requires |xs| == |ys| && Points(xs) && IsPowerSums(s, xs, ys, n) && IsEvaluator(omega, lambda, s, n)
    requires |xs| <= n && t < |xs| <= 2 * h + 2
    requires Coef(lambda, 0) == ONE && DegreeAtMost(lambda, |xs|) && Roots(lambda, xs, |xs|)
    ensures Quot(omega, xs[t], 2 * h + 1) == Mul(ys[t], OddPart(lambda, xs[t], h))
    ensures OddPart(lambda, xs[t], h) != ZERO
  {
    hide Add, Mul, Quot, Coef, OddPart, Spread;
    var e, x, m := |xs|, xs[t], 2 * h + 2;
    forall u | 0 <= u < e
      ensures Quot(lambda, xs[u], m) == ZERO
    {
      QuotVanishesBeyond(lambda, xs[u], e, m);
    }
    EvaluatorIsSpread(omega, lambda, s, xs, ys, n, m, x, m - 1);
    SpreadAtRoot(lambda, xs, ys, m, x);
    QuotientTimes(lambda, x, m);
    OddPartIsCofactor(lambda, Quotient(lambda, x, m), x, h);
    CofactorNonZero(lambda, xs, t, m);
  }
}

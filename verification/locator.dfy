/** Error locators: polynomials known by their roots, and sums of powers at error positions. */
module Locator {
  import opened Galois
  import opened Recurrence

  ghost function Pow(x: Byte, n: nat): Byte {
    if n == 0 then ONE else Mul(x, Pow(x, n - 1))
  }

  /** p reversed and evaluated at x: the sum over k <= l of p_k x^(l-k).
      Also coefficient l of p divided by 1 + x z. */
  ghost function Quot(p: seq<Byte>, x: Byte, l: nat): Byte {
    if l == 0 then Coef(p, 0) else Add(Coef(p, l), Mul(x, Quot(p, x, l - 1)))
  }

  /** The first n coefficients of p divided by 1 + x z. */
  ghost function Quotient(p: seq<Byte>, x: Byte, n: nat): (q: seq<Byte>)
    ensures |q| == n
    ensures forall i :: 0 <= i < n ==> q[i] == Quot(p, x, i)
  {
    seq(n, i requires 0 <= i < n => Quot(p, x, i))
  }

  /** p is q times 1 + x z. */
  ghost predicate TimesLinear(p: seq<Byte>, q: seq<Byte>, x: Byte) {
    forall i :: i >= 0 ==> Coef(p, i) == Add(Coef(q, i), Mul(x, Coef(q, i - 1)))
  }

  ghost predicate DegreeAtMost(p: seq<Byte>, n: int) {
    forall i :: i > n ==> Coef(p, i) == ZERO
  }

  // --- division by 1 + x z ---

  lemma QuotientTimes(p: seq<Byte>, x: Byte, n: nat)
    requires DegreeAtMost(p, n) && Quot(p, x, n) == ZERO
    ensures TimesLinear(p, Quotient(p, x, n), x)
  {
    hide Add, Mul;
    var q := Quotient(p, x, n);
    forall i | i >= 0
      ensures Coef(p, i) == Add(Coef(q, i), Mul(x, Coef(q, i - 1)))
    {
      if i == 0 {
        MulZero(x);
        if n == 0 { AddZero(ZERO); } else { AddZero(Coef(p, 0)); }
      } else if i <= n {
        var y := Mul(x, Quot(p, x, i - 1));
        assert Quot(p, x, i) == Add(Coef(p, i), y);
        AddCancel(Coef(p, i), y);
      } else {
        MulZero(x);
        AddZero(ZERO);
      }
    }
  }

  /** Reversed evaluation of a product with a linear factor. */
  lemma {:induction false} QuotOfProduct(p: seq<Byte>, q: seq<Byte>, x: Byte, y: Byte, l: nat)
    requires TimesLinear(p, q, x)
    ensures l > 0 ==> Quot(p, y, l) == Add(Quot(q, y, l), Mul(x, Quot(q, y, l - 1)))
    ensures l == 0 ==> Quot(p, y, l) == Quot(q, y, l)
  {
    hide Add, Mul, Coef;
    if l == 0 {
      CoefNegative(q);
      MulZero(x);
      AddZero(Coef(q, 0));
    } else {
      QuotOfProduct(p, q, x, y, l - 1);
      var a, b := Quot(q, y, l - 1), if l == 1 then ZERO else Quot(q, y, l - 2);
      MulZero(x);
      MulZero(y);
      AddZero(a);
      AddZero(Coef(q, 0));
      assert Quot(p, y, l - 1) == Add(a, Mul(x, b));
      MulAddRight(y, a, Mul(x, b));
      MulSwap(y, x, b);
      AddSwap(Coef(q, l), Mul(x, Coef(q, l - 1)), Mul(y, a), Mul(x, Mul(y, b)));
      MulAddRight(x, Coef(q, l - 1), Mul(y, b));
    }
  }

  lemma CoefNegative(q: seq<Byte>)
    ensures Coef(q, -1) == ZERO
  {}

  lemma MulSwap(a: Byte, b: Byte, c: Byte)
    ensures Mul(a, Mul(b, c)) == Mul(b, Mul(a, c))
  {
    hide Mul;
    MulAssoc(a, b, c);
    MulAssoc(b, a, c);
    MulComm(a, b);
  }

  /** Past the degree of q, a linear factor with root 1/x multiplies by y + x. */
  lemma QuotAtDegree(p: seq<Byte>, q: seq<Byte>, x: Byte, y: Byte, n: nat)
    requires TimesLinear(p, q, x) && n > 0 && Coef(q, n) == ZERO
    ensures Quot(p, y, n) == Mul(Add(y, x), Quot(q, y, n - 1))
  {
    hide Add, Mul, Coef;
    QuotOfProduct(p, q, x, y, n);
    var a := Quot(q, y, n - 1);
    AddZero(Mul(y, a));
    MulAddLeft(y, x, a);
  }

  /** Reversed evaluation beyond the degree only multiplies by powers of x. */
  lemma {:induction false} QuotBeyond(p: seq<Byte>, x: Byte, n: nat, l: nat)
    requires DegreeAtMost(p, n) && n <= l
    ensures Quot(p, x, l) == Mul(Pow(x, l - n), Quot(p, x, n))
  {
    hide Add, Mul, Coef;
    if l == n {
      MulOne(Quot(p, x, n));
    } else {
      QuotBeyond(p, x, n, l - 1);
      assert Coef(p, l) == ZERO;
      AddZero(Mul(x, Quot(p, x, l - 1)));
      MulAssoc(x, Pow(x, l - 1 - n), Quot(p, x, n));
    }
  }

  lemma {:induction false} PowNonZero(x: Byte, n: nat)
    requires x != ZERO
    ensures Pow(x, n) != ZERO
  {
    hide Mul;
    if n > 0 {
      PowNonZero(x, n - 1);
      if Pow(x, n) == ZERO { NoZeroDivisors(x, Pow(x, n - 1)); }
    }
  }

  lemma QuotVanishesBeyond(p: seq<Byte>, x: Byte, n: nat, l: nat)
    requires DegreeAtMost(p, n) && n <= l && x != ZERO
    ensures Quot(p, x, l) == ZERO <==> Quot(p, x, n) == ZERO
  {
    hide Mul, Quot, DegreeAtMost;
    QuotBeyond(p, x, n, l);
    PowNonZero(x, l - n);
    MulZero(Pow(x, l - n));
    if Quot(p, x, l) == ZERO { NoZeroDivisors(Pow(x, l - n), Quot(p, x, n)); }
  }

  // --- the locator of a list of points ---

  ghost predicate Points(xs: seq<Byte>) {
    && (forall t :: 0 <= t < |xs| ==> xs[t] != ZERO)
    && (forall t, u :: 0 <= t < u < |xs| ==> xs[t] != xs[u])
  }

  /** The product of 1 + x z over the points x. */
  ghost function LocatorOf(xs: seq<Byte>): (p: seq<Byte>)
    ensures |p| == |xs| + 1
  {
    if xs == [] then [ONE] else
      var q := LocatorOf(xs[1..]);
      seq(|xs| + 1, i requires 0 <= i <= |xs| => Add(Coef(q, i), Mul(xs[0], Coef(q, i - 1))))
  }

  lemma LocatorUnfold(xs: seq<Byte>)
    requires xs != []
    ensures TimesLinear(LocatorOf(xs), LocatorOf(xs[1..]), xs[0])
  {
    hide Add, Mul;
    MulZero(xs[0]);
    AddZero(ZERO);
  }

  lemma {:induction false} LocatorStart(xs: seq<Byte>)
    ensures Coef(LocatorOf(xs), 0) == ONE
  {
    hide Add, Mul;
    if xs != [] {
      LocatorStart(xs[1..]);
      MulZero(xs[0]);
      AddZero(ONE);
    }
  }

  /** Every point is a root of the locator. */
  lemma {:induction false} LocatorVanishes(xs: seq<Byte>, t: nat)
    requires t < |xs|
    ensures Quot(LocatorOf(xs), xs[t], |xs|) == ZERO
  {
    hide Add, Mul, Quot, LocatorOf;
    LocatorUnfold(xs);
    var n := |xs|;
    var q := LocatorOf(xs[1..]);
    QuotAtDegree(LocatorOf(xs), q, xs[0], xs[t], n);
    if t == 0 {
      AddSelf(xs[0]);
      MulZero(Quot(q, xs[0], n - 1));
    } else {
      LocatorVanishes(xs[1..], t - 1);
      MulZero(Add(xs[t], xs[0]));
    }
  }

  /** Nothing else is. */
  lemma {:induction false} LocatorNonZero(xs: seq<Byte>, y: Byte)
    requires y !in xs
    ensures Quot(LocatorOf(xs), y, |xs|) != ZERO
  {
    hide Add, Mul;
    if xs != [] {
      hide Quot, LocatorOf;
      var n := |xs|;
      var q := LocatorOf(xs[1..]);
      LocatorUnfold(xs);
      QuotAtDegree(LocatorOf(xs), q, xs[0], y, n);
      assert forall z :: z in xs[1..] ==> z in xs;
      LocatorNonZero(xs[1..], y);
      AddCancel(y, xs[0]);
      if Quot(LocatorOf(xs), y, n) == ZERO {
        NoZeroDivisors(Add(y, xs[0]), Quot(q, y, n - 1));
      }
    }
  }

  /** A polynomial of degree at most the number of its roots is a multiple of their locator. */
  lemma {:induction false} FactorThroughRoots(p: seq<Byte>, xs: seq<Byte>)
    requires Points(xs) && DegreeAtMost(p, |xs|)
    requires forall t :: 0 <= t < |xs| ==> Quot(p, xs[t], |xs|) == ZERO
    ensures forall i :: i >= 0 ==> Coef(p, i) == Mul(Coef(p, 0), Coef(LocatorOf(xs), i))
    decreases |xs|
  {
    hide Add, Mul;
    var n := |xs|;
    if n == 0 {
      MulOne(Coef(p, 0));
      MulZero(Coef(p, 0));
    } else {
      hide Quot, LocatorOf, Coef;
      var x, rest := xs[0], xs[1..];
      var q := Quotient(p, x, n);
      QuotientTimes(p, x, n);
      QuotientDegree(p, x, n);
      forall t | 0 <= t < |rest|
        ensures Quot(q, rest[t], n - 1) == ZERO
      {
        QuotAtDegree(p, q, x, rest[t], n);
        assert rest[t] == xs[t + 1];
        AddCancel(rest[t], x);
        NoZeroDivisors(Add(rest[t], x), Quot(q, rest[t], n - 1));
      }
      FactorThroughRoots(q, rest);
      LocatorUnfold(xs);
      FactorStep(p, q, x, LocatorOf(xs), LocatorOf(rest));
    }
  }

  lemma QuotientDegree(p: seq<Byte>, x: Byte, n: nat)
    requires n > 0
    ensures DegreeAtMost(Quotient(p, x, n), n - 1) && Coef(Quotient(p, x, n), n) == ZERO
    ensures Coef(Quotient(p, x, n), 0) == Coef(p, 0)
  {}

  lemma FactorStep(p: seq<Byte>, q: seq<Byte>, x: Byte, l: seq<Byte>, m: seq<Byte>)
    requires TimesLinear(p, q, x) && TimesLinear(l, m, x) && Coef(q, 0) == Coef(p, 0)
    requires forall i :: i >= 0 ==> Coef(q, i) == Mul(Coef(q, 0), Coef(m, i))
    ensures forall i :: i >= 0 ==> Coef(p, i) == Mul(Coef(p, 0), Coef(l, i))
  {
    hide Add, Mul, Coef;
    var k := Coef(p, 0);
    CoefNegative(q);
    CoefNegative(m);
    MulZero(k);
    forall i | i >= 0
      ensures Coef(p, i) == Mul(k, Coef(l, i))
    {
      assert Coef(q, i - 1) == Mul(k, Coef(m, i - 1));
      MulSwap(x, k, Coef(m, i - 1));
      MulAddRight(k, Coef(m, i), Mul(x, Coef(m, i - 1)));
    }
  }
}

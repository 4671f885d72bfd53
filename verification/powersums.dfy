/** Syndromes as sums of powers: the Vandermonde argument and Forney's formula. */
module PowerSums {
  import opened Galois
  import opened Recurrence
  import opened Locator

  /** The sum over t of ys_t xs_t^j. */
  ghost function PowerSum(xs: seq<Byte>, ys: seq<Byte>, j: nat): Byte
    requires |xs| == |ys|
  {
    if xs == [] then ZERO else Add(Mul(ys[0], Pow(xs[0], j)), PowerSum(xs[1..], ys[1..], j))
  }

  ghost predicate AllZero(ys: seq<Byte>) {
    forall t :: 0 <= t < |ys| ==> ys[t] == ZERO
  }

  lemma {:induction false} PowerSumOfZeros(xs: seq<Byte>, ys: seq<Byte>, j: nat)
    requires |xs| == |ys| && AllZero(ys)
    ensures PowerSum(xs, ys, j) == ZERO
  {
    hide Add, Mul;
    if xs != [] {
      PowerSumOfZeros(xs[1..], ys[1..], j);
      MulZero(Pow(xs[0], j));
      AddZero(ZERO);
    }
  }

  // --- distinct points cannot cancel in as many consecutive power sums ---

  ghost function Eliminated(xs: seq<Byte>, ys: seq<Byte>, x: Byte): (zs: seq<Byte>)
    requires |xs| == |ys|
    ensures |zs| == |xs|
    ensures forall t :: 0 <= t < |xs| ==> zs[t] == Mul(ys[t], Add(xs[t], x))
  {
    seq(|xs|, t requires 0 <= t < |xs| => Mul(ys[t], Add(xs[t], x)))
  }

  lemma {:induction false} EliminatedSum(xs: seq<Byte>, ys: seq<Byte>, x: Byte, j: nat)
    requires |xs| == |ys|
    ensures PowerSum(xs, Eliminated(xs, ys, x), j) == Add(PowerSum(xs, ys, j + 1), Mul(x, PowerSum(xs, ys, j)))
  {
    hide Add, Mul;
    if xs == [] {
      MulZero(x);
      AddZero(ZERO);
    } else {
      var xs', ys' := xs[1..], ys[1..];
      assert Eliminated(xs, ys, x)[1..] == Eliminated(xs', ys', x);
      EliminatedSum(xs', ys', x, j);
      var u, y, p := xs[0], ys[0], Pow(xs[0], j);
      MulAssoc(y, Add(u, x), p);
      MulAddLeft(u, x, p);
      MulAddRight(y, Mul(u, p), Mul(x, p));
      MulSwap(y, x, p);
      AddSwap(Mul(y, Mul(u, p)), Mul(x, Mul(y, p)), PowerSum(xs', ys', j + 1), Mul(x, PowerSum(xs', ys', j)));
      MulAddRight(x, Mul(y, p), PowerSum(xs', ys', j));
    }
  }

  lemma {:induction false} Vandermonde(xs: seq<Byte>, ys: seq<Byte>)
    requires |xs| == |ys| && Points(xs)
    requires forall j: nat :: j < |xs| ==> PowerSum(xs, ys, j) == ZERO
    ensures AllZero(ys)
    decreases |xs|
  {
    hide Add, Mul, PowerSum;
    if xs != [] {
      var xs', ys' := xs[1..], ys[1..];
      var zs := Eliminated(xs, ys, xs[0]);
      forall j: nat | j < |xs'|
        ensures PowerSum(xs', zs[1..], j) == ZERO
      {
        EliminatedSum(xs, ys, xs[0], j);
        AddSelf(xs[0]);
        MulZero(ys[0]);
        MulZero(xs[0]);
        AddZero(ZERO);
        PowerSumHead(xs, zs, j);
      }
      Vandermonde(xs', zs[1..]);
      forall t | 0 <= t < |ys'|
        ensures ys'[t] == ZERO
      {
        assert zs[1..][t] == zs[t + 1] == ZERO;
        NoZeroDivisors(ys[t + 1], Add(xs[t + 1], xs[0]));
        AddCancel(xs[t + 1], xs[0]);
      }
      PowerSumOfZeros(xs', ys', 0);
      OneTerm(xs, ys);
    }
  }

  lemma PowerSumHead(xs: seq<Byte>, zs: seq<Byte>, j: nat)
    requires |xs| == |zs| && xs != [] && zs[0] == ZERO
    ensures PowerSum(xs, zs, j) == PowerSum(xs[1..], zs[1..], j)
  {
    hide Add, Mul;
    MulZero(Pow(xs[0], j));
    AddZero(PowerSum(xs[1..], zs[1..], j));
  }

  lemma OneTerm(xs: seq<Byte>, ys: seq<Byte>)
    requires |xs| == |ys| && xs != []
    requires PowerSum(xs[1..], ys[1..], 0) == ZERO && PowerSum(xs, ys, 0) == ZERO
    ensures ys[0] == ZERO
  {
    hide Add, Mul;
    MulOne(ys[0]);
    AddZero(ys[0]);
  }

  // --- convolving a polynomial with power sums ---

  /** Each ys_t weighted by the reversed value of c at xs_t. */
  ghost function Weighted(c: seq<Byte>, xs: seq<Byte>, ys: seq<Byte>, l: nat): (ws: seq<Byte>)
    requires |xs| == |ys|
    ensures |ws| == |xs|
    ensures forall t :: 0 <= t < |xs| ==> ws[t] == Mul(ys[t], Quot(c, xs[t], l))
  {
    seq(|xs|, t requires 0 <= t < |xs| => Mul(ys[t], Quot(c, xs[t], l)))
  }

  lemma {:induction false} WeightedStep(c: seq<Byte>, xs: seq<Byte>, ys: seq<Byte>, l: nat, j: nat)
    requires |xs| == |ys| && l > 0
    ensures PowerSum(xs, Weighted(c, xs, ys, l), j)
         == Add(PowerSum(xs, Weighted(c, xs, ys, l - 1), j + 1), Mul(Coef(c, l), PowerSum(xs, ys, j)))
    decreases |xs|
  {
    hide Add, Mul, Coef;
    if xs == [] {
      MulZero(Coef(c, l));
      AddZero(ZERO);
    } else {
      var xs', ys' := xs[1..], ys[1..];
      assert Weighted(c, xs, ys, l)[1..] == Weighted(c, xs', ys', l);
      assert Weighted(c, xs, ys, l - 1)[1..] == Weighted(c, xs', ys', l - 1);
      WeightedStep(c, xs', ys', l, j);
      WeightedTerm(c, xs[0], ys[0], l, j);
      var k := Coef(c, l);
      var a, b := Mul(Mul(ys[0], Quot(c, xs[0], l - 1)), Pow(xs[0], j + 1)), Mul(k, Mul(ys[0], Pow(xs[0], j)));
      var d, e := PowerSum(xs', Weighted(c, xs', ys', l - 1), j + 1), PowerSum(xs', ys', j);
      AddSwap(a, b, d, Mul(k, e));
      MulAddRight(k, Mul(ys[0], Pow(xs[0], j)), e);
    }
  }

  lemma WeightedTerm(c: seq<Byte>, x: Byte, y: Byte, l: nat, j: nat)
    requires l > 0
    ensures Mul(Mul(y, Quot(c, x, l)), Pow(x, j))
         == Add(Mul(Mul(y, Quot(c, x, l - 1)), Pow(x, j + 1)), Mul(Coef(c, l), Mul(y, Pow(x, j))))
  {
    hide Add, Mul, Coef;
    var k, q, p := Coef(c, l), Quot(c, x, l - 1), Pow(x, j);
    MulAddRight(y, k, Mul(x, q));
    MulAddLeft(Mul(y, k), Mul(y, Mul(x, q)), p);
    MulComm(y, k);
    MulAssoc(k, y, p);
    MulComm(x, q);
    MulAssoc(y, q, x);
    MulAssoc(Mul(y, q), x, p);
    AddComm(Mul(k, Mul(y, p)), Mul(Mul(y, q), Mul(x, p)));
  }

  /** s starts with n power sums. */
  ghost predicate IsPowerSums(s: seq<Byte>, xs: seq<Byte>, ys: seq<Byte>, n: nat)
    requires |xs| == |ys|
  {
    forall j: nat :: j < n ==> Coef(s, j) == PowerSum(xs, ys, j)
  }

  lemma {:induction false} DotOfPowerSums(c: seq<Byte>, s: seq<Byte>, xs: seq<Byte>, ys: seq<Byte>, n: nat, l: nat,
                                          j: nat)
    requires |xs| == |ys| && IsPowerSums(s, xs, ys, n) && l <= j < n
    ensures Dot(c, s, j, l + 1) == PowerSum(xs, Weighted(c, xs, ys, l), j - l)
    decreases l
  {
    hide Add, Mul, Coef, PowerSum, Quot;
    assert Coef(s, j - l) == PowerSum(xs, ys, j - l);
    if l == 0 {
      assert Dot(c, s, j, 0) == ZERO;
      AddZero(Mul(Coef(c, 0), Coef(s, j)));
      WeightedZero(c, xs, ys, j);
    } else {
      DotOfPowerSums(c, s, xs, ys, n, l - 1, j);
      WeightedStep(c, xs, ys, l, j - l);
    }
  }

  lemma {:induction false} WeightedZero(c: seq<Byte>, xs: seq<Byte>, ys: seq<Byte>, j: nat)
    requires |xs| == |ys|
    ensures PowerSum(xs, Weighted(c, xs, ys, 0), j) == Mul(Coef(c, 0), PowerSum(xs, ys, j))
    decreases |xs|
  {
    hide Add, Mul, Coef;
    var k := Coef(c, 0);
    if xs == [] {
      MulZero(k);
    } else {
      var xs', ys' := xs[1..], ys[1..];
      assert Weighted(c, xs, ys, 0)[1..] == Weighted(c, xs', ys', 0);
      WeightedZero(c, xs', ys', j);
      MulComm(ys[0], k);
      MulAssoc(k, ys[0], Pow(xs[0], j));
      MulAddRight(k, Mul(ys[0], Pow(xs[0], j)), PowerSum(xs', ys', j));
    }
  }

  // --- the recurrence found is the locator of the points ---

  /** The locator of the points is a recurrence for their power sums. */
  lemma LocatorGenerates(xs: seq<Byte>, ys: seq<Byte>, s: seq<Byte>, n: nat)
    requires |xs| == |ys| && IsPowerSums(s, xs, ys, n)
    ensures Generates(LocatorOf(xs), |xs|, s, n)
  {
    hide Add, Mul, PowerSum, Quot, Dot, LocatorOf;
    var e, c := |xs|, LocatorOf(xs);
    LocatorStart(xs);
    forall j | e <= j < n
      ensures Discrepancy(c, e, s, j) == ZERO
    {
      DotOfPowerSums(c, s, xs, ys, n, e, j);
      forall t | 0 <= t < e
        ensures Weighted(c, xs, ys, e)[t] == ZERO
      {
        LocatorVanishes(xs, t);
        MulZero(ys[t]);
      }
      PowerSumOfZeros(xs, Weighted(c, xs, ys, e), j - e);
    }
  }

  ghost predicate NonZeroAll(ys: seq<Byte>) {
    forall t :: 0 <= t < |ys| ==> ys[t] != ZERO
  }

  /** With twice as many power sums as points, the shortest recurrence is the locator. */
  lemma ShortestIsLocator(c: seq<Byte>, len: nat, xs: seq<Byte>, ys: seq<Byte>, s: seq<Byte>, n: nat)
    requires |xs| == |ys| && Points(xs) && NonZeroAll(ys) && IsPowerSums(s, xs, ys, n)
    requires 2 * |xs| <= n
    requires Generates(c, len, s, n) && Shortest(len, s, n)
    ensures DegreeAtMost(c, |xs|)
    ensures forall i :: i >= 0 ==> Coef(c, i) == Coef(LocatorOf(xs), i)
  {
    hide Add, Mul, PowerSum, Quot, Dot, LocatorOf, Coef;
    var e := |xs|;
    LocatorGenerates(xs, ys, s, n);
    assert len <= e;
    var ws := Weighted(c, xs, ys, len);
    forall j: nat | j < e
      ensures PowerSum(xs, ws, j) == ZERO
    {
      assert Discrepancy(c, len, s, j + len) == ZERO;
      DotOfPowerSums(c, s, xs, ys, n, len, j + len);
    }
    Vandermonde(xs, ws);
    forall t | 0 <= t < e
      ensures Quot(c, xs[t], e) == ZERO
    {
      assert ws[t] == ZERO;
      NoZeroDivisors(ys[t], Quot(c, xs[t], len));
      QuotVanishesBeyond(c, xs[t], len, e);
    }
    FactorThroughRoots(c, xs);
    forall i | i >= 0
      ensures Coef(c, i) == Coef(LocatorOf(xs), i)
    {
      MulOne(Coef(LocatorOf(xs), i));
    }
  }
}

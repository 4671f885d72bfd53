/** Erasures: known locations folded into the locator, and out of the syndromes. */
module Erasures {
  import opened Galois
  import opened Recurrence
  import opened Locator
  import opened PowerSums

  /** q times 1 + x z. */
  ghost function Linear(q: seq<Byte>, x: Byte): (p: seq<Byte>)
    ensures |p| == |q| + 1
  {
    seq(|q| + 1, i requires 0 <= i <= |q| => Add(Coef(q, i), Mul(x, Coef(q, i - 1))))
  }

  lemma LinearCoefs(q: seq<Byte>, x: Byte)
    ensures TimesLinear(Linear(q, x), q, x)
  {
    hide Add, Mul;
    var p := Linear(q, x);
    MulZero(x);
    AddZero(ZERO);
    forall i | i >= 0
      ensures Coef(p, i) == Add(Coef(q, i), Mul(x, Coef(q, i - 1)))
    {
      if i > |q| {
        assert Coef(p, i) == ZERO && Coef(q, i) == ZERO && Coef(q, i - 1) == ZERO;
      }
    }
  }

  /** q times 1 + x z for every x of xs. */
  ghost function TimesLocator(q: seq<Byte>, xs: seq<Byte>): (p: seq<Byte>)
    ensures |p| == |q| + |xs|
  {
    if xs == [] then q else Linear(TimesLocator(q, xs[1..]), xs[0])
  }

  lemma TimesLocatorUnfold(q: seq<Byte>, xs: seq<Byte>)
    requires xs != []
    ensures TimesLinear(TimesLocator(q, xs), TimesLocator(q, xs[1..]), xs[0])
  {
    hide Linear;
    LinearCoefs(TimesLocator(q, xs[1..]), xs[0]);
  }

  lemma {:induction false} TimesLocatorDegree(q: seq<Byte>, xs: seq<Byte>, n: nat)
    requires DegreeAtMost(q, n)
    ensures DegreeAtMost(TimesLocator(q, xs), n + |xs|)
  {
    hide Add, Mul, Coef;
    if xs != [] {
      var p, r := TimesLocator(q, xs), TimesLocator(q, xs[1..]);
      TimesLocatorDegree(q, xs[1..], n);
      TimesLocatorUnfold(q, xs);
      MulZero(xs[0]);
      AddZero(ZERO);
      forall i | i > n + |xs|
        ensures Coef(p, i) == ZERO
      {
        assert Coef(r, i) == ZERO && Coef(r, i - 1) == ZERO;
      }
    }
  }

  // --- the product is linear in its first factor ---

  lemma LinearCombined(e: seq<Byte>, c: seq<Byte>, k: Byte, d: seq<Byte>, x: Byte)
    requires Combined(e, c, k, d)
    ensures Combined(Linear(e, x), Linear(c, x), k, Linear(d, x))
  {
    hide Add, Mul, Coef, Linear;
    var e', c', d' := Linear(e, x), Linear(c, x), Linear(d, x);
    LinearCoefs(e, x);
    LinearCoefs(c, x);
    LinearCoefs(d, x);
    forall i
      ensures Coef(e', i) == Add(Coef(c', i), Mul(k, Coef(d', i)))
    {
      if i >= 0 {
        LinearTerm(Coef(c, i), Coef(c, i - 1), Coef(d, i), Coef(d, i - 1), k, x);
      } else {
        NegativeCoef(e', i);
        NegativeCoef(c', i);
        NegativeCoef(d', i);
        MulZero(k);
        AddZero(ZERO);
      }
    }
  }

  lemma NegativeCoef(p: seq<Byte>, i: int)
    requires i < 0
    ensures Coef(p, i) == ZERO
  {}

  lemma LinearTerm(c1: Byte, c0: Byte, d1: Byte, d0: Byte, k: Byte, x: Byte)
    ensures Add(Add(c1, Mul(k, d1)), Mul(x, Add(c0, Mul(k, d0)))) ==
              Add(Add(c1, Mul(x, c0)), Mul(k, Add(d1, Mul(x, d0))))
  {
    hide Add, Mul;
    MulAddRight(x, c0, Mul(k, d0));
    MulSwap(x, k, d0);
    MulAddRight(k, d1, Mul(x, d0));
    AddSwap(c1, Mul(k, d1), Mul(x, c0), Mul(k, Mul(x, d0)));
  }

  lemma {:induction false} TimesLocatorCombined(e: seq<Byte>, c: seq<Byte>, k: Byte, d: seq<Byte>, xs: seq<Byte>)
    requires Combined(e, c, k, d)
    ensures Combined(TimesLocator(e, xs), TimesLocator(c, xs), k, TimesLocator(d, xs))
  {
    hide Combined, Linear;
    if xs != [] {
      TimesLocatorCombined(e, c, k, d, xs[1..]);
      LinearCombined(TimesLocator(e, xs[1..]), TimesLocator(c, xs[1..]), k, TimesLocator(d, xs[1..]), xs[0]);
    }
  }

  lemma LinearShifted(q: seq<Byte>, k: Byte, p: seq<Byte>, x: Byte)
    requires ShiftedScaled(q, k, p)
    ensures ShiftedScaled(Linear(q, x), k, Linear(p, x))
  {
    hide Add, Mul, Coef, Linear;
    var q', p' := Linear(q, x), Linear(p, x);
    LinearCoefs(q, x);
    LinearCoefs(p, x);
    MulZero(x);
    MulZero(k);
    AddZero(ZERO);
    CoefNegative(q);
    CoefNegative(p);
    forall i | i > 0
      ensures Coef(q', i) == Mul(k, Coef(p', i - 1))
    {
      MulSwap(x, k, Coef(p, i - 2));
      MulAddRight(k, Coef(p, i - 1), Mul(x, Coef(p, i - 2)));
      assert i == 1 || Coef(q, i - 1) == Mul(k, Coef(p, i - 2));
    }
  }

  lemma {:induction false} TimesLocatorShifted(q: seq<Byte>, k: Byte, p: seq<Byte>, xs: seq<Byte>)
    requires ShiftedScaled(q, k, p)
    ensures ShiftedScaled(TimesLocator(q, xs), k, TimesLocator(p, xs))
  {
    hide ShiftedScaled, Linear;
    if xs != [] {
      TimesLocatorShifted(q, k, p, xs[1..]);
      LinearShifted(TimesLocator(q, xs[1..]), k, TimesLocator(p, xs[1..]), xs[0]);
    }
  }

  // --- moving the erasures from the locator into the syndromes ---

  /** s with the point x taken out. */
  ghost function Stepped(s: seq<Byte>, x: Byte): (t: seq<Byte>)
    requires s != []
    ensures |t| == |s| - 1
  {
    seq(|s| - 1, m requires 0 <= m < |s| - 1 => Add(s[m + 1], Mul(x, s[m])))
  }

  /** s with every point of xs taken out. */
  ghost function Reduced(s: seq<Byte>, xs: seq<Byte>): (t: seq<Byte>)
    requires |xs| <= |s|
    ensures |t| == |s| - |xs|
    decreases |xs|
  {
    if xs == [] then s else Reduced(Stepped(s, xs[0]), xs[1..])
  }

  /** Convolving a multiple of 1 + x z with s is convolving the cofactor with s without x. */
  lemma {:induction false} DotOfLinear(p: seq<Byte>, q: seq<Byte>, x: Byte, s: seq<Byte>, n: nat, l: nat)
    requires TimesLinear(p, q, x) && l <= n < |s| - 1
    ensures Dot(p, s, n + 1, l + 1) == Add(Dot(q, Stepped(s, x), n, l), Mul(Coef(q, l), Coef(s, n + 1 - l)))
  {
    hide Add, Mul;
    if l == 0 {
      CoefNegative(q);
      MulZero(x);
      AddZero(Coef(q, 0));
      assert Dot(p, s, n + 1, 0) == ZERO && Dot(q, Stepped(s, x), n, 0) == ZERO;
    } else {
      DotOfLinear(p, q, x, s, n, l - 1);
      var a, b := Coef(q, l - 1), Coef(q, l);
      var u, v := Coef(s, n + 2 - l), Coef(s, n + 1 - l);
      assert Coef(Stepped(s, x), n - (l - 1)) == Add(u, Mul(x, v));
      DotOfLinearStep(Dot(q, Stepped(s, x), n, l - 1), a, b, u, v, x);
    }
  }

  lemma DotOfLinearStep(t: Byte, a: Byte, b: Byte, u: Byte, v: Byte, x: Byte)
    ensures Add(Add(t, Mul(a, u)), Mul(Add(b, Mul(x, a)), v)) == Add(Add(t, Mul(a, Add(u, Mul(x, v)))), Mul(b, v))
  {
    hide Add, Mul;
    MulAddLeft(b, Mul(x, a), v);
    MulAssoc(x, a, v);
    MulAddRight(a, u, Mul(x, v));
    MulSwap(a, x, v);
    AddRotate(t, Mul(a, u), Mul(b, v), Mul(x, Mul(a, v)));
  }

  lemma AddRotate(t: Byte, a: Byte, b: Byte, c: Byte)
    ensures Add(Add(t, a), Add(b, c)) == Add(Add(t, Add(a, c)), b)
  {
    assert Xor(Xor(t, a), Xor(b, c)) == Xor(Xor(t, Xor(a, c)), b);
  }

  /** The discrepancy of the product with the syndromes is that of the cofactor with the reduced syndromes. */
  lemma {:induction false} DotThroughLocator(q: seq<Byte>, s: seq<Byte>, xs: seq<Byte>, n: nat, l: nat)
    requires DegreeAtMost(q, l) && l <= n && n + |xs| < |s|
    ensures Dot(TimesLocator(q, xs), s, n + |xs|, l + |xs| + 1) == Dot(q, Reduced(s, xs), n, l + 1)
    decreases |xs|
  {
    hide Add, Mul, Coef, Stepped;
    if xs != [] {
      hide Dot;
      var rest := xs[1..];
      var p, r := TimesLocator(q, xs), TimesLocator(q, rest);
      var m, k := n + |rest|, l + |rest|;
      TimesLocatorUnfold(q, xs);
      TimesLocatorDegree(q, rest, l);
      DotThroughLocator(q, Stepped(s, xs[0]), rest, n, l);
      WholeLinear(p, r, xs[0], s, m, k);
    }
  }

  lemma WholeLinear(p: seq<Byte>, r: seq<Byte>, x: Byte, s: seq<Byte>, m: nat, k: nat)
    requires TimesLinear(p, r, x) && DegreeAtMost(r, k) && k <= m < |s| - 1
    ensures Dot(p, s, m + 1, k + 2) == Dot(r, Stepped(s, x), m, k + 1)
  {
    hide Add, Mul;
    DotOfLinear(p, r, x, s, m, k);
    var t, b, u, v := Dot(r, Stepped(s, x), m, k), Coef(r, k), Coef(s, m + 1 - k), Coef(s, m - k);
    assert Coef(Stepped(s, x), m - k) == Add(u, Mul(x, v));
    assert Coef(r, k + 1) == ZERO;
    AddZero(Mul(x, b));
    MulAssoc(x, b, v);
    MulSwap(x, b, v);
    MulAddRight(b, u, Mul(x, v));
    AddAssoc(t, Mul(b, u), Mul(b, Mul(x, v)));
  }

  // --- reduced syndromes are power sums over the remaining errors ---

  /** The values left at the points once every point of zs is taken out. */
  ghost function Remaining(xs: seq<Byte>, ys: seq<Byte>, zs: seq<Byte>): (ws: seq<Byte>)
    requires |xs| == |ys|
    ensures |ws| == |xs|
    decreases |zs|
  {
    if zs == [] then ys else Remaining(xs, Eliminated(xs, ys, zs[0]), zs[1..])
  }

  lemma {:induction false} RemainingZero(xs: seq<Byte>, ys: seq<Byte>, zs: seq<Byte>, t: nat)
    requires |xs| == |ys| && t < |xs|
    ensures Remaining(xs, ys, zs)[t] == ZERO <==> ys[t] == ZERO || xs[t] in zs
    decreases |zs|
  {
    hide Add, Mul;
    if zs != [] {
      var es := Eliminated(xs, ys, zs[0]);
      RemainingZero(xs, es, zs[1..], t);
      assert xs[t] in zs <==> xs[t] == zs[0] || xs[t] in zs[1..];
      var d := Add(xs[t], zs[0]);
      AddCancel(xs[t], zs[0]);
      AddSelf(xs[t]);
      MulZero(ys[t]);
      MulZero(d);
      if es[t] == ZERO { NoZeroDivisors(ys[t], d); }
    }
  }

  lemma {:induction false} ReducedPowerSums(s: seq<Byte>, xs: seq<Byte>, ys: seq<Byte>, zs: seq<Byte>, n: nat)
    requires |xs| == |ys| && |zs| <= n <= |s| && IsPowerSums(s, xs, ys, n)
    ensures IsPowerSums(Reduced(s, zs), xs, Remaining(xs, ys, zs), n - |zs|)
    decreases |zs|
  {
    hide Add, Mul, PowerSum, Eliminated;
    if zs != [] {
      var s', es := Stepped(s, zs[0]), Eliminated(xs, ys, zs[0]);
      forall j: nat | j < n - 1
        ensures Coef(s', j) == PowerSum(xs, es, j)
      {
        EliminatedSum(xs, ys, zs[0], j);
        assert Coef(s, j) == PowerSum(xs, ys, j);
        var j' := j + 1;
        assert Coef(s, j') == PowerSum(xs, ys, j');
      }
      ReducedPowerSums(s', xs, es, zs[1..], n - 1);
    }
  }

  /** The points with non-zero values. */
  ghost function KeptPoints(xs: seq<Byte>, ys: seq<Byte>): (ps: seq<Byte>)
    requires |xs| == |ys|
    ensures |ps| <= |xs| && forall p :: p in ps ==> p in xs
  {
    if xs == [] then [] else
      var rest := KeptPoints(xs[1..], ys[1..]);
      if ys[0] == ZERO then rest else [xs[0]] + rest
  }

  ghost function KeptValues(xs: seq<Byte>, ys: seq<Byte>): (vs: seq<Byte>)
    requires |xs| == |ys|
    ensures |vs| == |KeptPoints(xs, ys)| && forall t :: 0 <= t < |vs| ==> vs[t] != ZERO
  {
    if xs == [] then [] else
      var rest := KeptValues(xs[1..], ys[1..]);
      if ys[0] == ZERO then rest else [ys[0]] + rest
  }

  lemma {:induction false} KeptSum(xs: seq<Byte>, ys: seq<Byte>, j: nat)
    requires |xs| == |ys|
    ensures PowerSum(KeptPoints(xs, ys), KeptValues(xs, ys), j) == PowerSum(xs, ys, j)
  {
    hide Add, Mul;
    if xs != [] {
      KeptSum(xs[1..], ys[1..], j);
      var ps, vs := KeptPoints(xs[1..], ys[1..]), KeptValues(xs[1..], ys[1..]);
      if ys[0] == ZERO {
        MulZero(Pow(xs[0], j));
        AddZero(PowerSum(ps, vs, j));
      } else {
        assert ([xs[0]] + ps)[1..] == ps && ([ys[0]] + vs)[1..] == vs;
      }
    }
  }

  lemma {:induction false} KeptPointsDistinct(xs: seq<Byte>, ys: seq<Byte>)
    requires |xs| == |ys| && Points(xs)
    ensures Points(KeptPoints(xs, ys))
  {
    if xs != [] {
      KeptPointsDistinct(xs[1..], ys[1..]);
      var rest := KeptPoints(xs[1..], ys[1..]);
      if ys[0] != ZERO {
        var ps := [xs[0]] + rest;
        forall t | 0 < t < |ps|
          ensures ps[t] != xs[0]
        {
          assert rest[t - 1] in rest;
        }
      }
    }
  }

  /** Multiplying the locator of some points by further factors gives the locator of all of them. */
  lemma {:induction false} LocatorOfAll(q: seq<Byte>, ps: seq<Byte>, zs: seq<Byte>)
    requires forall i :: i >= 0 ==> Coef(q, i) == Coef(LocatorOf(ps), i)
    ensures forall i :: i >= 0 ==> Coef(TimesLocator(q, zs), i) == Coef(LocatorOf(zs + ps), i)
    decreases |zs|
  {
    hide Add, Mul, Coef, LocatorOf;
    if zs == [] {
      assert zs + ps == ps;
    } else {
      var all := zs + ps;
      assert all[1..] == zs[1..] + ps && all[0] == zs[0];
      LocatorOfAll(q, ps, zs[1..]);
      TimesLocatorUnfold(q, zs);
      LocatorUnfold(all);
      CoefNegative(TimesLocator(q, zs[1..]));
      CoefNegative(LocatorOf(all[1..]));
      forall i | i >= 0
        ensures Coef(TimesLocator(q, zs), i) == Coef(LocatorOf(all), i)
      {
        assert i == 0 || Coef(TimesLocator(q, zs[1..]), i - 1) == Coef(LocatorOf(all[1..]), i - 1);
      }
    }
  }
}

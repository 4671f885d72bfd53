/** Bounded-distance correction: what the decoder's polynomials say about a word with few errors. */
module Correction {
  import opened Galois
  import opened Recurrence
  import opened Locator
  import opened PowerSums
  import opened Forney
  import opened Codeword
  import opened Erasures
  import opened Pigeonhole

  /** The inverse as the table gives it: zero is sent to one. */
  ghost function TableInverse(a: Byte): Byte {
    if a == ZERO then ONE else Inv(a)
  }

  /** The correction the decoder applies at location i. */
  ghost function Magnitude(lambda: seq<Byte>, omega: seq<Byte>, i: nat): Byte
    requires i < 255
  {
    Mul(PointEval(omega, 255 - i, MAXDEG), TableInverse(OddEval(lambda, 255 - i, NPAR)))
  }

  /** Location i is a root found by the search. */
  ghost predicate IsRoot(lambda: seq<Byte>, i: nat)
    requires i < 255
  {
    PointEval(lambda, 255 - i, NPAR + 1) == ZERO
  }

  ghost predicate SyndromesOf(s: seq<Byte>, r: seq<Byte>) {
    forall j: nat :: j < NPAR ==> Coef(s, j) == Syndrome(r, j)
  }

  lemma PointsAreDistinct(locs: seq<nat>)
    requires forall t :: 0 <= t < |locs| ==> locs[t] < 255
    requires forall t, u :: 0 <= t < u < |locs| ==> locs[t] > locs[u]
    ensures Points(PointsAt(locs))
    ensures forall i: nat :: i < 255 ==> (Exp(i) in PointsAt(locs) <==> i in locs)
  {
    hide Exp;
    var xs := PointsAt(locs);
    forall t | 0 <= t < |xs|
      ensures xs[t] != ZERO
    {
      ExpNonZero(locs[t]);
    }
    forall t, u | 0 <= t < u < |xs|
      ensures xs[t] != xs[u]
    {
      ExpInjective(locs[u], locs[t]);
    }
    forall i: nat | i < 255 && Exp(i) in xs
      ensures i in locs
    {
      var t :| 0 <= t < |xs| && xs[t] == Exp(i);
      if locs[t] < i { ExpInjective(locs[t], i); }
      if i < locs[t] { ExpInjective(i, locs[t]); }
    }
    forall i: nat | i < 255 && i in locs
      ensures Exp(i) in xs
    {
      var t :| 0 <= t < |locs| && locs[t] == i;
      assert xs[t] == Exp(i);
    }
  }

  // --- flagged locations ---

  /** The points of the flagged locations, the last one first. */
  ghost function FlaggedPoints(flagged: seq<nat>): (zs: seq<Byte>)
    ensures |zs| == |flagged|
  {
    if flagged == [] then [] else [Exp(flagged[|flagged| - 1])] + FlaggedPoints(flagged[..|flagged| - 1])
  }

  lemma {:induction false} FlaggedMember(flagged: seq<nat>, i: nat)
    requires i < 255 && forall t :: 0 <= t < |flagged| ==> flagged[t] < 255
    ensures Exp(i) in FlaggedPoints(flagged) <==> i in flagged
  {
    hide Exp;
    if flagged != [] {
      var last := flagged[|flagged| - 1];
      var init := flagged[..|flagged| - 1];
      FlaggedMember(init, i);
      assert i in flagged <==> i == last || i in init;
      if i < last { ExpInjective(i, last); }
      if last < i { ExpInjective(last, i); }
    }
  }

  ghost predicate Flags(flagged: seq<nat>, n: nat) {
    Injective(flagged) && forall t :: 0 <= t < |flagged| ==> flagged[t] < n
  }

  /** c is the codeword the decoder finds in r: an unflagged error costs two parity bytes, a flagged location one. */
  ghost predicate Correctable(c: seq<Byte>, r: seq<Byte>, flagged: seq<nat>) {
    && |c| == |r| && IsCodeword(c) && Flags(flagged, |c|)
    && 2 * |UnflaggedErrors(c, r, flagged)| + |flagged| <= NPAR
  }

  /** The errata are the flagged locations and the unflagged errors. */
  lemma ErrataCount(c: seq<Byte>, r: seq<Byte>, flagged: seq<nat>)
    requires |c| == |r| && Flags(flagged, |c|)
    ensures |ErrataLocations(c, r, flagged)| == |flagged| + |UnflaggedErrors(c, r, flagged)|
  {
    var locs, rest := ErrataLocations(c, r, flagged), UnflaggedErrors(c, r, flagged);
    var all: seq<int> := flagged + rest;
    InjectiveSize(locs);
    forall k, l | 0 <= k < l < |all|
      ensures all[k] != all[l]
    {
      if k < |flagged| <= l {
        assert all[k] in flagged && all[l] in rest;
      }
    }
    InjectiveSize(all);
    SameLocations(c, r, flagged);
  }

  lemma SameLocations(c: seq<Byte>, r: seq<Byte>, flagged: seq<nat>)
    requires |c| == |r| && Flags(flagged, |c|)
    ensures Elements(flagged + UnflaggedErrors(c, r, flagged)) == Elements(ErrataLocations(c, r, flagged))
  {
    var locs, rest := ErrataLocations(c, r, flagged), UnflaggedErrors(c, r, flagged);
    forall i: int
      ensures i in flagged + rest <==> i in locs
    {
      if i in flagged + rest || i in locs {
        assert 0 <= i < |c|;
      }
    }
  }

  /** The syndromes of a word near a codeword are the power sums of its errata. */
  lemma ErrataGivePowerSums(c: seq<Byte>, r: seq<Byte>, flagged: seq<nat>, s: seq<Byte>)
    requires |c| == |r| && IsCodeword(c) && SyndromesOf(s, r)
    ensures var locs := ErrataLocations(c, r, flagged);
            IsPowerSums(s, PointsAt(locs), ValuesAt(c, r, locs), NPAR)
  {
    hide Syndrome, PowerSum;
    var locs := ErrataLocations(c, r, flagged);
    var ys := ValuesAt(c, r, locs);
    hide Add;
    forall j: nat | j < NPAR
      ensures Coef(s, j) == PowerSum(PointsAt(locs), ys, j)
    {
      SyndromeOfDifference(c, r, flagged, j);
      AddZero(Syndrome(r, j));
    }
  }

  /** Location i is not an unflagged error. */
  ghost predicate Clean(c: seq<Byte>, r: seq<Byte>, flagged: seq<nat>, i: nat)
    requires |c| == |r| && i < |c|
  {
    c[|c| - 1 - i] == r[|c| - 1 - i] || i in flagged
  }

  /** ws is zero at exactly the errata that are not unflagged errors. */
  ghost predicate ZeroWhenClean(c: seq<Byte>, r: seq<Byte>, flagged: seq<nat>, ws: seq<Byte>)
    requires |c| == |r|
  {
    var locs := ErrataLocations(c, r, flagged);
    |ws| == |locs| && forall t :: 0 <= t < |locs| ==> (ws[t] == ZERO <==> Clean(c, r, flagged, locs[t]))
  }

  /** Taking the flagged points out leaves values at exactly the unflagged errors. */
  lemma {:induction false} KeptAreUnflagged(c: seq<Byte>, r: seq<Byte>, flagged: seq<nat>, ws: seq<Byte>)
    requires |c| == |r| && ZeroWhenClean(c, r, flagged, ws)
    ensures KeptPoints(PointsAt(ErrataLocations(c, r, flagged)), ws) == PointsAt(UnflaggedErrors(c, r, flagged))
  {
    hide Exp, PointsAt, ZeroWhenClean, KeptPoints;
    if c == [] {
      NoneKept(c, r, flagged, ws);
    } else {
      var c', r', n := c[1..], r[1..], |c| - 1;
      CleanTail(c, r, flagged, ws);
      if c[0] == r[0] && n !in flagged {
        KeptAreUnflagged(c', r', flagged, ws);
      } else {
        KeptAreUnflagged(c', r', flagged, ws[1..]);
        OnePoint(n, ErrataLocations(c', r', flagged), ws);
        OnePointAt(n, UnflaggedErrors(c', r', flagged));
      }
    }
  }

  lemma NoneKept(c: seq<Byte>, r: seq<Byte>, flagged: seq<nat>, ws: seq<Byte>)
    requires c == r == [] && ZeroWhenClean(c, r, flagged, ws)
    ensures |ws| == |PointsAt(ErrataLocations(c, r, flagged))|
    ensures KeptPoints(PointsAt(ErrataLocations(c, r, flagged)), ws) == PointsAt(UnflaggedErrors(c, r, flagged))
  {}

  lemma CleanTail(c: seq<Byte>, r: seq<Byte>, flagged: seq<nat>, ws: seq<Byte>)
    requires |c| == |r| && c != [] && ZeroWhenClean(c, r, flagged, ws)
    ensures |ws| == |ErrataLocations(c, r, flagged)|
    ensures if c[0] == r[0] && |c| - 1 !in flagged then ZeroWhenClean(c[1..], r[1..], flagged, ws)
            else
              && ws != [] && ZeroWhenClean(c[1..], r[1..], flagged, ws[1..])
              && (ws[0] == ZERO <==> c[0] == r[0] || |c| - 1 in flagged)
  {
    var n := |c| - 1;
    var locs, rest := ErrataLocations(c, r, flagged), ErrataLocations(c[1..], r[1..], flagged);
    hide ErrataLocations;
    forall t | 0 <= t < |rest|
      ensures Clean(c[1..], r[1..], flagged, rest[t]) == Clean(c, r, flagged, rest[t])
    {}
    if c[0] != r[0] || n in flagged {
      assert locs == [n] + rest;
      assert forall t :: 0 <= t < |rest| ==> locs[t + 1] == rest[t];
      assert locs[0] == n && (ws[0] == ZERO <==> Clean(c, r, flagged, n));
    }
  }

  lemma OnePoint(n: nat, rest: seq<nat>, ws: seq<Byte>)
    requires |ws| == |rest| + 1
    ensures KeptPoints(PointsAt([n] + rest), ws)
         == (if ws[0] == ZERO then [] else [Exp(n)]) + KeptPoints(PointsAt(rest), ws[1..])
  {
    OnePointAt(n, rest);
    hide Exp, PointsAt;
    KeptUnfold(Exp(n), PointsAt(rest), ws);
  }

  lemma KeptUnfold(x: Byte, xs: seq<Byte>, ws: seq<Byte>)
    requires |ws| == |xs| + 1
    ensures KeptPoints([x] + xs, ws) == (if ws[0] == ZERO then [] else [x]) + KeptPoints(xs, ws[1..])
  {
    assert ([x] + xs)[1..] == xs;
  }

  lemma OnePointAt(n: nat, rest: seq<nat>)
    ensures PointsAt([n] + rest) == [Exp(n)] + PointsAt(rest)
  {
    hide Exp;
  }

  /** What the search leaves behind: sigma is a shortest recurrence for the reduced syndromes, and lambda is sigma
      times the locator of the flagged points. */
  ghost predicate Searched(lambda: seq<Byte>, sigma: seq<Byte>, len: nat, s: seq<Byte>, zs: seq<Byte>) {
    && |zs| <= NPAR <= |s|
    && (forall i :: i >= 0 ==> Coef(lambda, i) == Coef(TimesLocator(sigma, zs), i))
    && Generates(sigma, len, Reduced(s, zs), NPAR - |zs|) && Shortest(len, Reduced(s, zs), NPAR - |zs|)
  }

  /** The recurrence found for the reduced syndromes is the locator of the unflagged errors. */
  lemma SigmaFound(c: seq<Byte>, r: seq<Byte>, flagged: seq<nat>, s: seq<Byte>, lambda: seq<Byte>, sigma: seq<Byte>,
                   len: nat)
    requires Correctable(c, r, flagged) && SyndromesOf(s, r) && Searched(lambda, sigma, len, s, FlaggedPoints(flagged))
    ensures forall i :: i >= 0 ==> Coef(sigma, i) == Coef(LocatorOf(PointsAt(UnflaggedErrors(c, r, flagged))), i)
  {
    hide Exp, Quot, Coef, LocatorOf, Syndrome, Generates, Shortest, SyndromesOf, PowerSum, TimesLocator, PointsAt,
         ValuesAt, ErrataLocations, UnflaggedErrors, Remaining, KeptPoints, KeptValues, Reduced, FlaggedPoints,
           IsCodeword, IsPowerSums, ZeroWhenClean;
    CodewordLength(c);
    var locs := ErrataLocations(c, r, flagged);
    var xs, ys, zs := PointsAt(locs), ValuesAt(c, r, locs), FlaggedPoints(flagged);
    var ws := Remaining(xs, ys, zs);
    ErrataGivePowerSums(c, r, flagged, s);
    ReducedPowerSums(s, xs, ys, zs, NPAR);
    RemainingAtErrors(c, r, flagged);
    KeptAreUnflagged(c, r, flagged, ws);
    PointsAreDistinct(locs);
    KeptPointsDistinct(xs, ws);
    KeptPowerSums(Reduced(s, zs), xs, ws, NPAR - |zs|);
    ShortestIsLocator(sigma, len, KeptPoints(xs, ws), KeptValues(xs, ws), Reduced(s, zs), NPAR - |zs|);
  }

  lemma KeptPowerSums(t: seq<Byte>, xs: seq<Byte>, ws: seq<Byte>, m: nat)
    requires |xs| == |ws| && IsPowerSums(t, xs, ws, m)
    ensures IsPowerSums(t, KeptPoints(xs, ws), KeptValues(xs, ws), m) && NonZeroAll(KeptValues(xs, ws))
  {
    hide PowerSum, KeptPoints, KeptValues, Coef;
    forall j: nat | j < m
      ensures Coef(t, j) == PowerSum(KeptPoints(xs, ws), KeptValues(xs, ws), j)
    {
      KeptSum(xs, ws, j);
      assert Coef(t, j) == PowerSum(xs, ws, j);
    }
  }

  lemma RemainingAtErrors(c: seq<Byte>, r: seq<Byte>, flagged: seq<nat>)
    requires |c| == |r| <= 255 && Flags(flagged, |c|)
    ensures var locs := ErrataLocations(c, r, flagged);
            ZeroWhenClean(c, r, flagged, Remaining(PointsAt(locs), ValuesAt(c, r, locs), FlaggedPoints(flagged)))
  {
    hide Exp, Add, Remaining, FlaggedPoints;
    var locs := ErrataLocations(c, r, flagged);
    var xs, ys, zs := PointsAt(locs), ValuesAt(c, r, locs), FlaggedPoints(flagged);
    forall t | 0 <= t < |locs|
      ensures Remaining(xs, ys, zs)[t] == ZERO <==> Clean(c, r, flagged, locs[t])
    {
      RemainingZero(xs, ys, zs, t);
      FlaggedMember(flagged, locs[t]);
      AddCancel(c[|c| - 1 - locs[t]], r[|c| - 1 - locs[t]]);
      AddSelf(c[|c| - 1 - locs[t]]);
    }
  }

  /** The locator found has exactly the errata as roots. */
  lemma LocatorFound(c: seq<Byte>, r: seq<Byte>, flagged: seq<nat>, s: seq<Byte>, lambda: seq<Byte>, sigma: seq<Byte>,
                     len: nat)
    requires Correctable(c, r, flagged) && SyndromesOf(s, r) && Searched(lambda, sigma, len, s, FlaggedPoints(flagged))
    ensures var xs := PointsAt(ErrataLocations(c, r, flagged));
            && |xs| <= NPAR && Points(xs) && Coef(lambda, 0) == ONE && DegreeAtMost(lambda, |xs|) &&
                 Roots(lambda, xs, |xs|)
            && (forall i: nat ::
                i < 255 ==> (Quot(lambda, Exp(i), |xs|) == ZERO <==> i in ErrataLocations(c, r, flagged)))
  {
    hide Exp, Quot, Coef, LocatorOf, Syndrome, Generates, Shortest, SyndromesOf, PointsAt, TimesLocator, FlaggedPoints;
    var locs := ErrataLocations(c, r, flagged);
    var xs, ps, zs := PointsAt(locs), PointsAt(UnflaggedErrors(c, r, flagged)), FlaggedPoints(flagged);
    var all := zs + ps;
    SigmaFound(c, r, flagged, s, lambda, sigma, len);
    LocatorOfAll(sigma, ps, zs);
    ErrataCount(c, r, flagged);
    PointsAreDistinct(locs);
    PointsAreDistinct(UnflaggedErrors(c, r, flagged));
    assert |xs| == |all|;
    forall i: nat | i < 255
      ensures Quot(lambda, Exp(i), |xs|) == ZERO <==> i in locs
    {
      FlaggedMember(flagged, i);
      assert Exp(i) in all <==> Exp(i) in zs || Exp(i) in ps;
      assert Exp(i) in all <==> i in locs;
      RootOfLocator(lambda, all, Exp(i));
    }
    forall t | 0 <= t < |xs|
      ensures Quot(lambda, xs[t], |xs|) == ZERO
    {
      assert xs[t] == Exp(locs[t]) && locs[t] in locs;
    }
    LocatorStart(all);
    LocatorLength(lambda, all);
  }

  lemma RootOfLocator(lambda: seq<Byte>, xs: seq<Byte>, y: Byte)
    requires forall i :: i >= 0 ==> Coef(lambda, i) == Coef(LocatorOf(xs), i)
    ensures Quot(lambda, y, |xs|) == ZERO <==> y in xs
  {
    hide Quot, Coef, LocatorOf;
    QuotCongruent(lambda, LocatorOf(xs), y, |xs|);
    if y in xs {
      var t :| 0 <= t < |xs| && xs[t] == y;
      LocatorVanishes(xs, t);
    } else {
      LocatorNonZero(xs, y);
    }
  }

  lemma LocatorLength(lambda: seq<Byte>, xs: seq<Byte>)
    requires forall i :: i >= 0 ==> Coef(lambda, i) == Coef(LocatorOf(xs), i)
    ensures DegreeAtMost(lambda, |xs|)
  {
    hide LocatorOf;
  }

  lemma CodewordLength(c: seq<Byte>)
    requires IsCodeword(c)
    ensures |c| <= 255
  {}

  /** Chien: the roots the search finds are exactly the errata. */
  lemma RootsAreErrata(c: seq<Byte>, r: seq<Byte>, flagged: seq<nat>, s: seq<Byte>, lambda: seq<Byte>, sigma: seq<Byte>,
                       len: nat)
    requires Correctable(c, r, flagged) && SyndromesOf(s, r) && Searched(lambda, sigma, len, s, FlaggedPoints(flagged))
    ensures forall i: nat :: i < 255 ==> (IsRoot(lambda, i) <==> i in ErrataLocations(c, r, flagged))
  {
    hide Exp, Mul, Quot, Coef, Syndrome, Searched, Correctable, SyndromesOf, PointEval, Pow;
    LocatorFound(c, r, flagged, s, lambda, sigma, len);
    assert |c| == |r| by { SameLength(c, r, flagged); }
    var e := |ErrataLocations(c, r, flagged)|;
    forall i: nat | i < 255
      ensures IsRoot(lambda, i) <==> i in ErrataLocations(c, r, flagged)
    {
      var x, v := Exp(i), PointEval(lambda, 255 - i, NPAR + 1);
      ExpNonZero(i);
      PointEvalIsQuot(lambda, i, NPAR);
      PowNonZero(x, NPAR);
      MulZero(Pow(x, NPAR));
      if Quot(lambda, x, NPAR) == ZERO { NoZeroDivisors(Pow(x, NPAR), v); }
      QuotVanishesBeyond(lambda, x, e, NPAR);
    }
  }

  lemma SameLength(c: seq<Byte>, r: seq<Byte>, flagged: seq<nat>)
    requires Correctable(c, r, flagged)
    ensures |c| == |r| <= 255
  {}

  /** Forney: the correction applied at an erratum is the difference there. */
  lemma MagnitudesAreErrors(c: seq<Byte>, r: seq<Byte>, flagged: seq<nat>, s: seq<Byte>, lambda: seq<Byte>,
                            sigma: seq<Byte>, len: nat, omega: seq<Byte>, i: nat)
    requires Correctable(c, r, flagged) && SyndromesOf(s, r) && Searched(lambda, sigma, len, s, FlaggedPoints(flagged))
    requires IsEvaluator(omega, lambda, s, NPAR) && i < |c| && i in ErrataLocations(c, r, flagged)
    ensures i < 255 && Magnitude(lambda, omega, i) == Add(c[|c| - 1 - i], r[|c| - 1 - i])
  {
    hide *;
    SameLength(c, r, flagged);
    var locs := ErrataLocations(c, r, flagged);
    var t :| 0 <= t < |locs| && locs[t] == i;
    MagnitudeAt(c, r, flagged, s, lambda, sigma, len, omega, t);
  }

  lemma MagnitudeAt(c: seq<Byte>, r: seq<Byte>, flagged: seq<nat>, s: seq<Byte>, lambda: seq<Byte>, sigma: seq<Byte>,
                    len: nat, omega: seq<Byte>, t: nat)
    requires |c| == |r| <= 255 && Correctable(c, r, flagged) && SyndromesOf(s, r)
    requires Searched(lambda, sigma, len, s, FlaggedPoints(flagged)) && IsEvaluator(omega, lambda, s, NPAR)
    requires t < |ErrataLocations(c, r, flagged)|
    ensures var locs := ErrataLocations(c, r, flagged);
            Magnitude(lambda, omega, locs[t]) == ValuesAt(c, r, locs)[t]
  {
    hide *;
    var locs := ErrataLocations(c, r, flagged);
    var xs, ys := PointsAt(locs), ValuesAt(c, r, locs);
    var n, h := HalfSizes();
    LocatorFound(c, r, flagged, s, lambda, sigma, len);
    IsACodeword(c, r, flagged);
    ErrataGivePowerSums(c, r, flagged, s);
    ForneyFormula(lambda, omega, s, xs, ys, n, h, t);
    MagnitudeFromQuots(lambda, omega, locs[t], ys[t], h);
  }

  lemma IsACodeword(c: seq<Byte>, r: seq<Byte>, flagged: seq<nat>)
    requires Correctable(c, r, flagged)
    ensures IsCodeword(c)
  {}

  lemma HalfSizes() returns (n: nat, h: nat)
    ensures n == NPAR && h == n - 1 && 2 * n == MAXDEG
  {
    n, h := NPAR, NPAR - 1;
  }

  lemma MagnitudeFromQuots(lambda: seq<Byte>, omega: seq<Byte>, i: nat, y: Byte, h: nat)
    requires i < 255 && h == NPAR - 1 && OddPart(lambda, Exp(i), h) != ZERO
    requires Quot(omega, Exp(i), 2 * h + 1) == Mul(y, OddPart(lambda, Exp(i), h))
    ensures Magnitude(lambda, omega, i) == y
  {
    hide Exp, Add, Mul, Quot, Coef, PointEval, OddEval, OddPart, Pow;
    PointEvalIsQuot(omega, i, 2 * h + 1);
    OddEvalIsOddPart(lambda, i, h);
    ExpNonZero(i);
    PowNonZero(Exp(i), 2 * h + 1);
    CancelCommon(Pow(Exp(i), 2 * h + 1), PointEval(omega, 255 - i, MAXDEG), y, OddEval(lambda, 255 - i, NPAR));
  }

  /** If k a = y (k b) with k and k b non-zero then a / b = y. */
  lemma CancelCommon(k: Byte, a: Byte, y: Byte, b: Byte)
    requires k != ZERO && Mul(k, b) != ZERO
    requires Mul(k, a) == Mul(y, Mul(k, b))
    ensures b != ZERO && Mul(a, Inv(b)) == y
  {
    hide Add, Mul, Inv;
    MulZero(k);
    MulSwap(y, k, b);
    MulAddRight(k, a, Mul(y, b));
    AddSelf(Mul(k, a));
    NoZeroDivisors(k, Add(a, Mul(y, b)));
    AddCancel(a, Mul(y, b));
    MulAssoc(y, b, Inv(b));
    MulInv(b);
    MulOne(y);
  }
}

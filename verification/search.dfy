/** The state of the Berlekamp-Massey search, and its simulation by polynomials that carry the flagged locations. */
module Search {
  import opened Galois
  import opened Recurrence
  import opened Locator
  import opened Erasures
  import opened Codeword
  import opened Correction

  /** After one step of the search, the length Massey's rule gives. */
  ghost function NextLength(len: nat, n: nat, failed: bool): nat
    requires len <= n
  {
    if failed && 2 * len <= n then n + 1 - len else len
  }

  lemma ShiftIsScaled(p: seq<Byte>, q: seq<Byte>)
    requires |p| == |q| == MAXDEG && q == [ZERO] + p[..MAXDEG - 1] && p[MAXDEG - 1] == ZERO
    ensures ShiftedScaled(q, ONE, p)
  {
    hide Mul;
    forall i | i > 0
      ensures Coef(q, i) == Mul(ONE, Coef(p, i - 1))
    {
      MulOne(Coef(p, i - 1));
    }
  }

  lemma ScaledShift(p: seq<Byte>, k: Byte, q: seq<Byte>)
    requires |p| == |q| == MAXDEG && q[0] == ZERO && p[MAXDEG - 1] == ZERO
    requires forall i :: 0 < i < MAXDEG ==> q[i] == Mul(p[i - 1], k)
    ensures ShiftedScaled(q, k, p)
  {
    hide Mul;
    MulZero(k);
    forall i | i > 0
      ensures Coef(q, i) == Mul(k, Coef(p, i - 1))
    {
      if i < MAXDEG { MulComm(k, p[i - 1]); }
    }
  }

  lemma SumIsCombined(e: seq<Byte>, c: seq<Byte>, k: Byte, d: seq<Byte>)
    requires |e| == |c| == |d| == MAXDEG
    requires forall i :: 0 <= i < MAXDEG ==> e[i] == Add(c[i], Mul(k, d[i]))
    ensures Combined(e, c, k, d)
  {
    hide Add, Mul;
    MulZero(k);
    AddZero(ZERO);
  }

  /** Where the search stands before position n. */
  ghost predicate SearchState(psi: seq<Byte>, d: seq<Byte>, len: nat, s: seq<Byte>, n: nat) {
    && |psi| == |d| == MAXDEG && len <= n
    && Generates(psi, len, s, n) && Shortest(len, s, n) && Companion(d, len, s, n)
  }

  lemma SearchStart(psi: seq<Byte>, d: seq<Byte>, s: seq<Byte>)
    requires |psi| == |d| == MAXDEG
    requires psi[0] == ONE && forall i :: 0 < i < MAXDEG ==> psi[i] == ZERO
    requires d[0] == ZERO && forall i :: 1 < i < MAXDEG ==> d[i] == ZERO
    ensures SearchState(psi, d, 0, s, 0)
  {}

  /** The position passes: only the companion moves on. */
  lemma SearchPasses(psi: seq<Byte>, d: seq<Byte>, q: seq<Byte>, len: nat, s: seq<Byte>, n: nat)
    requires SearchState(psi, d, len, s, n) && Discrepancy(psi, len, s, n) == ZERO
    requires |q| == MAXDEG && ShiftedScaled(q, ONE, d)
    ensures SearchState(psi, q, len, s, n + 1)
  {
    hide Discrepancy, Coef, Shortest, ShiftedScaled;
    CompanionShifts(d, q, len, s, n);
    ShortestGrows(len, s, n);
  }

  /** The position fails and the recurrence is long enough: it is repaired in place. */
  lemma SearchRepairs(psi: seq<Byte>, d: seq<Byte>, e: seq<Byte>, q: seq<Byte>, len: nat, s: seq<Byte>, n: nat)
    requires SearchState(psi, d, len, s, n) && 2 * len > n
    requires |e| == |q| == MAXDEG && ShiftedScaled(q, ONE, d) && Combined(e, psi, Discrepancy(psi, len, s, n), d)
    ensures SearchState(e, q, len, s, n + 1)
  {
    hide Discrepancy, Coef, Shortest, ShiftedScaled, Combined, Generates, Companion;
    CompanionShifts(d, q, len, s, n);
    ShortestGrows(len, s, n);
    Repaired(psi, d, e, len, s, n);
  }

  /** The position fails and the recurrence is too short: it grows, and its old self becomes the companion. */
  lemma SearchGrows(psi: seq<Byte>, d: seq<Byte>, e: seq<Byte>, q: seq<Byte>, len: nat, s: seq<Byte>, n: nat)
    requires SearchState(psi, d, len, s, n) && 2 * len <= n && Discrepancy(psi, len, s, n) != ZERO
    requires |e| == |q| == MAXDEG && Combined(e, psi, Discrepancy(psi, len, s, n), d)
    requires ShiftedScaled(q, Inv(Discrepancy(psi, len, s, n)), psi)
    ensures SearchState(e, q, n + 1 - len, s, n + 1)
  {
    hide Discrepancy, Coef, Shortest, ShiftedScaled, Combined, Generates, Companion, Inv;
    CompanionReplaced(psi, q, len, s, n);
    ShortestAfterFailure(psi, len, s, n);
    Repaired(psi, d, e, len, s, n);
  }

  /** Nothing reaches the top coefficient during the NPAR steps. */
  lemma TopIsClear(psi: seq<Byte>, d: seq<Byte>, len: nat, s: seq<Byte>, n: nat)
    requires SearchState(psi, d, len, s, n) && n < NPAR
    ensures psi[MAXDEG - 1] == ZERO && d[MAXDEG - 1] == ZERO
  {
    hide Discrepancy, Shortest;
    assert Coef(psi, MAXDEG - 1) == ZERO && Coef(d, MAXDEG - 1) == ZERO;
  }

  // --- with flagged locations ---

  /** p is q times the locator of zs. */
  ghost predicate Tracks(p: seq<Byte>, q: seq<Byte>, zs: seq<Byte>) {
    forall i :: i >= 0 ==> Coef(p, i) == Coef(TimesLocator(q, zs), i)
  }

  /** The arrays carry a search on the reduced syndromes t, multiplied by the locator of the flagged points. */
  ghost predicate Simulation(psi: seq<Byte>, d: seq<Byte>, sigma: seq<Byte>, delta: seq<Byte>, zs: seq<Byte>, len: nat,
                             t: seq<Byte>, n: nat) {
    && |psi| == |d| == MAXDEG && n + |zs| <= NPAR
    && SearchState(sigma, delta, len, t, n) && Tracks(psi, sigma, zs) && Tracks(d, delta, zs)
  }

  lemma TracksCombined(p2: seq<Byte>, p: seq<Byte>, k: Byte, d: seq<Byte>, s2: seq<Byte>, s: seq<Byte>, e: seq<Byte>,
                       zs: seq<Byte>)
    requires Combined(p2, p, k, d) && Combined(s2, s, k, e) && Tracks(p, s, zs) && Tracks(d, e, zs)
    ensures Tracks(p2, s2, zs)
  {
    hide Add, Mul, Coef, TimesLocator;
    TimesLocatorCombined(s2, s, k, e, zs);
  }

  lemma TracksShifted(p2: seq<Byte>, k: Byte, p: seq<Byte>, s2: seq<Byte>, s: seq<Byte>, zs: seq<Byte>)
    requires ShiftedScaled(p2, k, p) && ShiftedScaled(s2, k, s) && Tracks(p, s, zs)
    ensures Tracks(p2, s2, zs)
  {
    hide Mul, Coef, TimesLocator;
    TimesLocatorShifted(s2, k, s, zs);
    forall i | i >= 0
      ensures Coef(p2, i) == Coef(TimesLocator(s2, zs), i)
    {
      if i > 0 { assert Coef(p, i - 1) == Coef(TimesLocator(s, zs), i - 1); }
    }
  }

  ghost function CombinedSeq(c: seq<Byte>, k: Byte, d: seq<Byte>): (e: seq<Byte>)
    requires |c| == |d| == MAXDEG
    ensures |e| == MAXDEG && Combined(e, c, k, d)
  {
    var e := seq(MAXDEG, i requires 0 <= i < MAXDEG => Add(c[i], Mul(k, d[i])));
    SumIsCombined(e, c, k, d);
    e
  }

  ghost function ShiftedSeq(k: Byte, p: seq<Byte>): (q: seq<Byte>)
    requires |p| == MAXDEG && p[MAXDEG - 1] == ZERO
    ensures |q| == MAXDEG && ShiftedScaled(q, k, p)
  {
    var q := seq(MAXDEG, i requires 0 <= i < MAXDEG => if i == 0 then ZERO else Mul(p[i - 1], k));
    ScaledShift(p, k, q);
    q
  }

  /** The discrepancy the arrays show is that of the search. */
  lemma SameDiscrepancy(psi: seq<Byte>, d: seq<Byte>, sigma: seq<Byte>, delta: seq<Byte>, zs: seq<Byte>, len: nat,
                        s: seq<Byte>, n: nat)
    requires |zs| <= |s| && Simulation(psi, d, sigma, delta, zs, len, Reduced(s, zs), n) && n + |zs| < |s|
    ensures Discrepancy(psi, len + |zs|, s, n + |zs|) == Discrepancy(sigma, len, Reduced(s, zs), n)
  {
    hide Simulation, SearchState, Tracks, DegreeAtMost, Discrepancy, Dot, Reduced, TimesLocator, Coef;
    SimulationDegree(psi, d, sigma, delta, zs, len, Reduced(s, zs), n);
    SimulationTracks(psi, d, sigma, delta, zs, len, Reduced(s, zs), n);
    TrackedDiscrepancy(psi, sigma, zs, len, s, n, len + |zs|, n + |zs|);
  }

  lemma TrackedDiscrepancy(psi: seq<Byte>, sigma: seq<Byte>, zs: seq<Byte>, len: nat, s: seq<Byte>, n: nat, len': nat,
                           n': nat)
    requires Tracks(psi, sigma, zs) && DegreeAtMost(sigma, len) && len <= n && n' < |s|
    requires len' == len + |zs| && n' == n + |zs|
    ensures Discrepancy(psi, len', s, n') == Discrepancy(sigma, len, Reduced(s, zs), n)
  {
    hide *;
    DotThroughLocator(sigma, s, zs, n, len);
    TracksDot(psi, sigma, zs, s, n', len' + 1);
    DiscrepancyIs(psi, len', s, n');
    DiscrepancyIs(sigma, len, Reduced(s, zs), n);
  }

  lemma SimulationDegree(psi: seq<Byte>, d: seq<Byte>, sigma: seq<Byte>, delta: seq<Byte>, zs: seq<Byte>, len: nat,
                         t: seq<Byte>, n: nat)
    requires Simulation(psi, d, sigma, delta, zs, len, t, n)
    ensures DegreeAtMost(sigma, len) && len <= n
  {
    hide Tracks, SearchState, DegreeAtMost;
    SearchDegree(sigma, delta, len, t, n);
  }

  lemma SimulationTracks(psi: seq<Byte>, d: seq<Byte>, sigma: seq<Byte>, delta: seq<Byte>, zs: seq<Byte>, len: nat,
                         t: seq<Byte>, n: nat)
    requires Simulation(psi, d, sigma, delta, zs, len, t, n)
    ensures Tracks(psi, sigma, zs)
  {
    hide Tracks, SearchState;
  }

  lemma TracksDot(p: seq<Byte>, q: seq<Byte>, zs: seq<Byte>, s: seq<Byte>, n: int, l: nat)
    requires Tracks(p, q, zs)
    ensures Dot(p, s, n, l) == Dot(TimesLocator(q, zs), s, n, l)
  {
    hide Coef, Dot, TimesLocator;
    DotCongruent(p, TimesLocator(q, zs), s, n, l);
  }

  lemma DiscrepancyIs(c: seq<Byte>, len: nat, s: seq<Byte>, n: int)
    ensures Discrepancy(c, len, s, n) == Dot(c, s, n, len + 1)
  {
    hide Dot;
  }

  lemma SearchDegree(sigma: seq<Byte>, delta: seq<Byte>, len: nat, t: seq<Byte>, n: nat)
    requires SearchState(sigma, delta, len, t, n)
    ensures DegreeAtMost(sigma, len) && len <= n
  {
    hide Discrepancy, Coef, Shortest, Companion;
  }

  lemma {:induction false} DotCongruent(p: seq<Byte>, q: seq<Byte>, s: seq<Byte>, n: int, l: nat)
    requires forall i :: i >= 0 ==> Coef(p, i) == Coef(q, i)
    ensures Dot(p, s, n, l) == Dot(q, s, n, l)
  {
    hide Add, Mul, Coef;
    if l > 0 { DotCongruent(p, q, s, n, l - 1); }
  }

  /** The polynomial one. */
  ghost function StartSeq(): (q: seq<Byte>)
    ensures |q| == MAXDEG && q[0] == ONE && forall i :: 0 < i < MAXDEG ==> q[i] == ZERO
  {
    seq(MAXDEG, i requires 0 <= i < MAXDEG => if i == 0 then ONE else ZERO)
  }

  lemma StartDegree()
    ensures DegreeAtMost(StartSeq(), 0)
  {}

  lemma SimulationStart(psi: seq<Byte>, d: seq<Byte>, zs: seq<Byte>, t: seq<Byte>) returns (delta: seq<Byte>)
    requires |psi| == |d| == MAXDEG && |zs| <= NPAR && Tracks(psi, StartSeq(), zs)
    requires d == [ZERO] + psi[..MAXDEG - 1] && psi[MAXDEG - 1] == ZERO
    ensures Simulation(psi, d, StartSeq(), delta, zs, 0, t, 0)
  {
    hide Mul, Tracks, ShiftedScaled, SearchState, StartSeq;
    var sigma := StartSeq();
    delta := [ZERO] + sigma[..MAXDEG - 1];
    ShiftIsScaled(sigma, delta);
    SearchStart(sigma, delta, t);
    ShiftIsScaled(psi, d);
    TracksShifted(d, ONE, psi, delta, sigma, zs);
  }

  /** Tracked polynomials leave the top coefficients of the arrays clear. */
  lemma TopsAreClear(psi: seq<Byte>, d: seq<Byte>, sigma: seq<Byte>, delta: seq<Byte>, zs: seq<Byte>, len: nat,
                     t: seq<Byte>, n: nat)
    requires Simulation(psi, d, sigma, delta, zs, len, t, n) && n + |zs| < NPAR
    ensures psi[MAXDEG - 1] == ZERO && d[MAXDEG - 1] == ZERO && sigma[MAXDEG - 1] == ZERO && delta[MAXDEG - 1] == ZERO
  {
    hide Discrepancy, Shortest, TimesLocator;
    TopIsClear(sigma, delta, len, t, n);
    TimesLocatorDegree(sigma, zs, len);
    TimesLocatorDegree(delta, zs, n + 1 - len);
    assert Coef(psi, MAXDEG - 1) == Coef(TimesLocator(sigma, zs), MAXDEG - 1);
    assert Coef(d, MAXDEG - 1) == Coef(TimesLocator(delta, zs), MAXDEG - 1);
  }

  /** The three outcomes of a step, on the arrays. */
  lemma SimulationPasses(psi: seq<Byte>, d: seq<Byte>, q: seq<Byte>, sigma: seq<Byte>, delta: seq<Byte>, zs: seq<Byte>,
                         len: nat, t: seq<Byte>, n: nat) returns (delta': seq<Byte>)
    requires Simulation(psi, d, sigma, delta, zs, len, t, n) && n + |zs| < NPAR && Discrepancy(sigma, len, t, n) == ZERO
    requires |q| == MAXDEG && ShiftedScaled(q, ONE, d)
    ensures Simulation(psi, q, sigma, delta', zs, len, t, n + 1)
  {
    TopsAreClear(psi, d, sigma, delta, zs, len, t, n);
    hide Discrepancy, ShiftedScaled, SearchState, Tracks, Mul;
    delta' := ShiftedSeq(ONE, delta);
    assert |sigma| == |delta| == MAXDEG;
    SearchPasses(sigma, delta, delta', len, t, n);
    TracksShifted(q, ONE, d, delta', delta, zs);
  }

  lemma SimulationRepairs(psi: seq<Byte>, d: seq<Byte>, e: seq<Byte>, q: seq<Byte>, sigma: seq<Byte>, delta: seq<Byte>,
                          zs: seq<Byte>, len: nat, t: seq<Byte>, n: nat) returns (sigma': seq<Byte>, delta': seq<Byte>)
    requires Simulation(psi, d, sigma, delta, zs, len, t, n) && n + |zs| < NPAR && 2 * len > n
    requires |e| == |q| == MAXDEG && ShiftedScaled(q, ONE, d) && Combined(e, psi, Discrepancy(sigma, len, t, n), d)
    ensures Simulation(e, q, sigma', delta', zs, len, t, n + 1)
  {
    TopsAreClear(psi, d, sigma, delta, zs, len, t, n);
    hide Discrepancy, ShiftedScaled, SearchState, Tracks, Mul, Combined;
    delta' := ShiftedSeq(ONE, delta);
    sigma' := CombinedSeq(sigma, Discrepancy(sigma, len, t, n), delta);
    SearchRepairs(sigma, delta, sigma', delta', len, t, n);
    TracksShifted(q, ONE, d, delta', delta, zs);
    TracksCombined(e, psi, Discrepancy(sigma, len, t, n), d, sigma', sigma, delta, zs);
  }

  lemma SimulationGrows(psi: seq<Byte>, d: seq<Byte>, e: seq<Byte>, q: seq<Byte>, sigma: seq<Byte>, delta: seq<Byte>,
                        zs: seq<Byte>, len: nat, t: seq<Byte>, n: nat) returns (sigma': seq<Byte>, delta': seq<Byte>)
    requires Simulation(psi, d, sigma, delta, zs, len, t, n) && n + |zs| < NPAR && 2 * len <= n
    requires Discrepancy(sigma, len, t, n) != ZERO
    requires |e| == |q| == MAXDEG && Combined(e, psi, Discrepancy(sigma, len, t, n), d)
    requires ShiftedScaled(q, Inv(Discrepancy(sigma, len, t, n)), psi)
    ensures Simulation(e, q, sigma', delta', zs, n + 1 - len, t, n + 1)
  {
    TopsAreClear(psi, d, sigma, delta, zs, len, t, n);
    hide Discrepancy, ShiftedScaled, SearchState, Tracks, Mul, Combined, Inv;
    var k := Discrepancy(sigma, len, t, n);
    delta' := ShiftedSeq(Inv(k), sigma);
    sigma' := CombinedSeq(sigma, k, delta);
    SearchGrows(sigma, delta, sigma', delta', len, t, n);
    TracksShifted(q, Inv(k), psi, delta', sigma, zs);
    TracksCombined(e, psi, k, d, sigma', sigma, delta, zs);
  }

  lemma SimulationEnds(psi: seq<Byte>, d: seq<Byte>, sigma: seq<Byte>, delta: seq<Byte>, zs: seq<Byte>, len: nat,
                       s: seq<Byte>, n: nat)
    requires |zs| <= NPAR <= |s| && n == NPAR - |zs| && Simulation(psi, d, sigma, delta, zs, len, Reduced(s, zs), n)
    ensures Searched(psi, sigma, len, s, zs)
  {
    hide Generates, Shortest, TimesLocator, Reduced, Companion;
  }

  /** One more flagged point in the locator: gamma + x z gamma. */
  lemma TracksMore(g: seq<Byte>, g': seq<Byte>, x: Byte, q: seq<Byte>, zs: seq<Byte>)
    requires |g| == |g'| == MAXDEG && Tracks(g, q, zs) && DegreeAtMost(q, 0) && |zs| < NPAR
    requires forall i :: 0 <= i < MAXDEG ==> g'[i] == Add(g[i], Mul(x, Coef(g, i - 1)))
    ensures Tracks(g', q, [x] + zs)
  {
    hide Add, Mul, TimesLocator;
    var ys := [x] + zs;
    assert ys[1..] == zs;
    TimesLocatorUnfold(q, ys);
    TimesLocatorDegree(q, ys, 0);
    CoefNegative(TimesLocator(q, zs));
    forall i | i >= 0
      ensures Coef(g', i) == Coef(TimesLocator(q, ys), i)
    {
      if i < MAXDEG {
        assert i == 0 || Coef(g, i - 1) == Coef(TimesLocator(q, zs), i - 1);
        assert Coef(g, i) == Coef(TimesLocator(q, zs), i);
      }
    }
  }

  lemma TrackedTop(g: seq<Byte>, q: seq<Byte>, zs: seq<Byte>)
    requires |g| == MAXDEG && Tracks(g, q, zs) && DegreeAtMost(q, 0) && |zs| <= NPAR
    ensures g[MAXDEG - 1] == ZERO
  {
    hide TimesLocator;
    TimesLocatorDegree(q, zs, 0);
    assert Coef(g, MAXDEG - 1) == Coef(TimesLocator(q, zs), MAXDEG - 1);
  }
}

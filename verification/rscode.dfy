/** The Reed-Solomon codec: encoder, syndromes, Berlekamp-Massey, root search and correction. */
module RsCode {
  import opened Galois
  import opened GaloisTables
  import opened Recurrence
  import opened Locator
  import opened Forney
  import opened Codeword
  import opened Correction
  import opened Generator
  import opened PolyArrays
  import opened Erasures
  import opened Search

  /** Terms of a convolution that would read before the start of s add nothing. */
  lemma {:induction false} DotIgnoresBefore(c: seq<Byte>, s: seq<Byte>, n: int, l: nat, m: nat)
    requires n < l <= m
    ensures Dot(c, s, n, m) == Dot(c, s, n, l)
  {
    hide Add, Mul;
    if l < m {
      DotIgnoresBefore(c, s, n, l, m - 1);
      MulZero(Coef(c, m - 1));
      AddZero(Dot(c, s, n, l));
    }
  }

  lemma GenPolyStart()
    ensures GenPoly(0) == [ONE]
  {}

  /** Multiplying by x + alpha^n with the general product gives the next generator polynomial. */
  lemma FactorProduct(f: seq<Byte>, g: seq<Byte>, n: nat, h: seq<Byte>)
    requires |f| == |g| == MAXDEG && |h| == 2 * MAXDEG && n + 1 < MAXDEG
    requires f[0] == Exp(n) && f[1] == ONE && forall k :: 2 <= k < MAXDEG ==> f[k] == ZERO
    requires forall k :: 0 <= k < MAXDEG ==> g[k] == Coef(GenPoly(n), k)
    requires forall k :: 0 <= k < 2 * MAXDEG ==> h[k] == Dot(f, g, k, MAXDEG)
    ensures forall k :: 0 <= k < 2 * MAXDEG ==> h[k] == Coef(GenPoly(n + 1), k)
  {
    hide Add, Mul, Exp, GenPoly;
    forall k | 0 <= k < 2 * MAXDEG
      ensures h[k] == Coef(GenPoly(n + 1), k)
    {
      DotExtend(f, g, k, 2, MAXDEG);
      TwoTerms(f, g, k);
      GenPolyCoef(n + 1, k);
      MulOne(Coef(g, k - 1));
    }
  }

  lemma TwoTerms(f: seq<Byte>, g: seq<Byte>, k: int)
    ensures Dot(f, g, k, 2) == Add(Mul(Coef(f, 0), Coef(g, k)), Mul(Coef(f, 1), Coef(g, k - 1)))
  {
    hide Add, Mul, Coef;
    assert Dot(f, g, k, 0) == ZERO;
    AddZero(Mul(Coef(f, 0), Coef(g, k)));
  }

  /** The register holds the remainder of the message so far: equal values at every root of the generator. */
  ghost predicate RegisterHolds(l: seq<Byte>, word: seq<Byte>, m: nat) {
    forall j: nat :: j < m ==> Eval(l, Exp(j), m) == Mul(Pow(Exp(j), m), Syndrome(word, j))
  }

  lemma {:induction false} EvalOfZeros(l: seq<Byte>, z: Byte, n: nat)
    requires forall k :: 0 <= k < |l| ==> l[k] == ZERO
    ensures Eval(l, z, n) == ZERO
  {
    hide Add, Mul;
    if n > 0 {
      EvalOfZeros(l, z, n - 1);
      MulZero(Pow(z, n - 1));
      AddZero(ZERO);
    }
  }

  lemma RegisterEmpty(l: seq<Byte>, m: nat)
    requires forall k :: 0 <= k < |l| ==> l[k] == ZERO
    ensures RegisterHolds(l, [], m)
  {
    hide Eval, Exp, Mul, Pow;
    forall j: nat | j < m
      ensures Eval(l, Exp(j), m) == Mul(Pow(Exp(j), m), Syndrome([], j))
    {
      EvalOfZeros(l, Exp(j), m);
      MulZero(Pow(Exp(j), m));
    }
  }

  lemma RegisterAdvances(l: seq<Byte>, l': seq<Byte>, word: seq<Byte>, b: Byte, m: nat)
    requires RegisterHolds(l, word, m) && m > 0 && RegisterStep(l, GenPoly(m), Add(b, Coef(l, m - 1)), l', m)
    ensures RegisterHolds(l', word + [b], m)
  {
    hide Add, Mul, Exp, Eval, Pow, GenPoly, RegisterStep;
    assert (word + [b])[..|word|] == word;
    forall j: nat | j < m
      ensures Eval(l', Exp(j), m) == Mul(Pow(Exp(j), m), Syndrome(word + [b], j))
    {
      var z, p := Exp(j), Pow(Exp(j), m);
      RegisterFollows(l, l', b, j, m);
      MulAddRight(p, b, Mul(z, Syndrome(word, j)));
      MulSwap(p, z, Syndrome(word, j));
      MulComm(p, b);
      AddComm(Mul(b, p), Mul(z, Mul(p, Syndrome(word, j))));
    }
  }

  lemma RegisterCompletes(l: seq<Byte>, word: seq<Byte>, m: nat)
    requires m == NPAR && RegisterHolds(l, word, m)
    ensures ZeroSyndromes(word + Parity(l, m, m))
  {
    hide Eval, Exp, Mul, Pow, ZeroSyndromes;
    ParityCompletes(word, l, m);
  }

  // --- what correction does to the word ---

  /** after is before with the decoder's correction added at each listed location. */
  ghost predicate Applied(after: seq<Byte>, before: seq<Byte>, locs: seq<nat>, lambda: seq<Byte>, omega: seq<Byte>) {
    && |after| == |before| <= 255
    && forall k :: 0 <= k < |before| ==>
         after[k] ==
           if |before| - 1 - k in locs then Add(before[k], Magnitude(lambda, omega, |before| - 1 - k)) else before[k]
  }

  lemma NothingApplied(before: seq<Byte>, lambda: seq<Byte>, omega: seq<Byte>)
    requires |before| <= 255
    ensures Applied(before, before, [], lambda, omega)
  {}

  lemma OneMoreApplied(after: seq<Byte>, mid: seq<Byte>, before: seq<Byte>, locs: seq<nat>, r: nat,
                       lambda: seq<Byte>, omega: seq<Byte>)
    requires r < |locs| && Descending(locs) && locs[r] < |before| && Applied(mid, before, locs[..r], lambda, omega)
    requires after == mid[|before| - 1 - locs[r] := Add(mid[|before| - 1 - locs[r]], Magnitude(lambda, omega, locs[r]))]
    ensures Applied(after, before, locs[..r + 1], lambda, omega)
  {
    hide Add, Magnitude;
    assert locs[..r + 1] == locs[..r] + [locs[r]] && locs[r] !in locs[..r];
  }

  ghost predicate Descending(locs: seq<nat>) {
    forall t, u :: 0 <= t < u < |locs| ==> locs[t] > locs[u]
  }

  lemma {:induction false} SameDescending(a: seq<nat>, b: seq<nat>)
    requires Descending(a) && Descending(b)
    requires forall i :: i in a <==> i in b
    ensures a == b
  {
    assert a != [] ==> a[0] in a;
    assert b != [] ==> b[0] in b;
    if a != [] && b != [] {
      assert a[0] == b[0];
      forall i
        ensures i in a[1..] <==> i in b[1..]
      {
        if i in a[1..] { assert i in a && i != a[0]; }
        if i in b[1..] { assert i in b && i != b[0]; }
      }
      SameDescending(a[1..], b[1..]);
    }
  }

  /** The roots found are the errata, and applying the corrections there gives the codeword. */
  lemma Decoded(c: seq<Byte>, r: seq<Byte>, flagged: seq<nat>, s: seq<Byte>, lambda: seq<Byte>, sigma: seq<Byte>,
                len: nat, omega: seq<Byte>, locs: seq<nat>, after: seq<Byte>)
    requires Correctable(c, r, flagged) && SyndromesOf(s, r) && Searched(lambda, sigma, len, s, FlaggedPoints(flagged))
    requires IsEvaluator(omega, lambda, s, NPAR)
    requires Descending(locs) && forall t :: 0 <= t < |locs| ==> locs[t] < 255
    requires forall i: nat :: i < 255 ==> (i in locs <==> IsRoot(lambda, i))
    ensures |c| == |r| && locs == ErrataLocations(c, r, flagged) && |locs| <= NPAR
    ensures Applied(after, r, locs, lambda, omega) ==> after == c
    ensures locs == [] ==> r == c
  {
    hide Searched, IsEvaluator, SyndromesOf, IsRoot, Add, Magnitude, Correctable, FlaggedPoints, Applied;
    SameLength(c, r, flagged);
    RootsAreErrata(c, r, flagged, s, lambda, sigma, len);
    FewErrata(c, r, flagged);
    var errata := ErrataLocations(c, r, flagged);
    assert locs == errata by {
      forall i
        ensures i in locs <==> i in errata
      {
        if i in errata { assert i < |c|; }
      }
      SameDescending(locs, errata);
    }
    if locs == [] { NoErrataNoDifference(c, r, flagged); }
    if Applied(after, r, locs, lambda, omega) {
      AppliedIsCodeword(c, r, flagged, s, lambda, sigma, len, omega, after);
    }
  }

  lemma FewErrata(c: seq<Byte>, r: seq<Byte>, flagged: seq<nat>)
    requires Correctable(c, r, flagged)
    ensures |ErrataLocations(c, r, flagged)| <= NPAR
  {
    ErrataCount(c, r, flagged);
  }

  lemma NoErrataNoDifference(c: seq<Byte>, r: seq<Byte>, flagged: seq<nat>)
    requires |c| == |r| && ErrataLocations(c, r, flagged) == []
    ensures r == c
  {
    forall k | 0 <= k < |c|
      ensures c[k] == r[k]
    {
      var i: nat := |c| - 1 - k;
      assert i !in ErrataLocations(c, r, flagged);
    }
  }

  lemma AppliedIsCodeword(c: seq<Byte>, r: seq<Byte>, flagged: seq<nat>, s: seq<Byte>, lambda: seq<Byte>,
                          sigma: seq<Byte>, len: nat, omega: seq<Byte>, after: seq<Byte>)
    requires |c| == |r| && Correctable(c, r, flagged) && SyndromesOf(s, r) &&
              Searched(lambda, sigma, len, s, FlaggedPoints(flagged))
    requires IsEvaluator(omega, lambda, s, NPAR) && Applied(after, r, ErrataLocations(c, r, flagged), lambda, omega)
    ensures after == c
  {
    hide Searched, IsEvaluator, SyndromesOf, Add, Magnitude, Correctable, FlaggedPoints;
    var errata := ErrataLocations(c, r, flagged);
    forall i: nat | i < |c| && i in errata
      ensures i < 255 && Magnitude(lambda, omega, i) == Add(c[|c| - 1 - i], r[|c| - 1 - i])
    {
      MagnitudesAreErrors(c, r, flagged, s, lambda, sigma, len, omega, i);
    }
    CorrectedEverywhere(c, r, errata, lambda, omega, after);
  }

  lemma CorrectedEverywhere(c: seq<Byte>, r: seq<Byte>, locs: seq<nat>, lambda: seq<Byte>, omega: seq<Byte>,
                            after: seq<Byte>)
    requires |c| == |r| && Applied(after, r, locs, lambda, omega)
    requires forall i: nat ::
              i < |c| && i in locs ==> i < 255 && Magnitude(lambda, omega, i) == Add(c[|c| - 1 - i], r[|c| - 1 - i])
    requires forall i: nat :: i < |c| && i !in locs ==> c[|c| - 1 - i] == r[|c| - 1 - i]
    ensures after == c
  {
    assert |after| == |c|;
    hide Add, Magnitude, Applied;
    forall k | 0 <= k < |c|
      ensures after[k] == c[k]
    {
      CorrectedAt(c, r, locs, lambda, omega, after, |c| - 1 - k);
    }
  }

  lemma CorrectedAt(c: seq<Byte>, r: seq<Byte>, locs: seq<nat>, lambda: seq<Byte>, omega: seq<Byte>, after: seq<Byte>,
                    i: nat)
    requires i < |c| == |r| && Applied(after, r, locs, lambda, omega)
    requires i in locs ==> i < 255 && Magnitude(lambda, omega, i) == Add(c[|c| - 1 - i], r[|c| - 1 - i])
    requires i !in locs ==> c[|c| - 1 - i] == r[|c| - 1 - i]
    ensures after[|c| - 1 - i] == c[|c| - 1 - i]
  {
    hide Add, Magnitude;
    var k := |c| - 1 - i;
    assert after[k] == if |r| - 1 - k in locs then Add(r[k], Magnitude(lambda, omega, |r| - 1 - k)) else r[k];
    AddComm(c[k], r[k]);
    AddUndo(r[k], c[k]);
  }

  /** Decoded, for every codeword near enough at once. */
  lemma AllDecoded(r: seq<Byte>, after: seq<Byte>, flagged: seq<nat>, s: seq<Byte>, lambda: seq<Byte>, sigma: seq<Byte>,
                   len: nat, omega: seq<Byte>, locs: seq<nat>, applied: bool)
    requires |r| <= 255 && SyndromesOf(s, r)
    requires |flagged| <= NPAR ==> Searched(lambda, sigma, len, s, FlaggedPoints(flagged))
    requires IsEvaluator(omega, lambda, s, NPAR)
    requires Descending(locs) && forall t :: 0 <= t < |locs| ==> locs[t] < 255
    requires forall i: nat :: i < 255 ==> (i in locs <==> IsRoot(lambda, i))
    requires applied ==> Applied(after, r, locs, lambda, omega)
    requires !applied ==> after == r && (locs == [] || |locs| > NPAR || exists t :: 0 <= t < |locs| && locs[t] >= |r|)
    ensures forall c: seq<Byte> :: Correctable(c, r, flagged) ==>
              after == c && |c| == |r| && |ErrataLocations(c, r, flagged)| == if applied then |locs| else 0
  {
    hide Searched, IsEvaluator, SyndromesOf, IsRoot, Add, Magnitude, Correctable, Applied, FlaggedPoints;
    forall c: seq<Byte> | Correctable(c, r, flagged)
      ensures after == c && |c| == |r| && |ErrataLocations(c, r, flagged)| == if applied then |locs| else 0
    {
      FewFlags(c, r, flagged);
      Decoded(c, r, flagged, s, lambda, sigma, len, omega, locs, after);
    }
  }

  lemma FewFlags(c: seq<Byte>, r: seq<Byte>, flagged: seq<nat>)
    requires Correctable(c, r, flagged)
    ensures |flagged| <= NPAR
  {}

  lemma GammaStart(g: seq<Byte>, none: seq<nat>)
    requires |g| == MAXDEG && g[0] == ONE && (forall i :: 0 < i < MAXDEG ==> g[i] == ZERO) && none == []
    ensures Tracks(g, StartSeq(), FlaggedPoints(none))
  {
    assert g == StartSeq();
  }

  lemma FlaggedStep(flagged: seq<nat>, i: nat)
    ensures FlaggedPoints(flagged + [i]) == [Exp(i)] + FlaggedPoints(flagged)
  {
    hide Exp;
    assert (flagged + [i])[..|flagged|] == flagged;
  }

  lemma GammaStep(g: seq<Byte>, g': seq<Byte>, flagged: seq<nat>, i: nat, x: Byte)
    requires |g| == |g'| == MAXDEG && |flagged| < NPAR && x == Exp(i)
    requires Tracks(g, StartSeq(), FlaggedPoints(flagged))
    requires g'[0] == Add(g[0], ZERO) && forall j :: 1 <= j < MAXDEG ==> g'[j] == Add(g[j], Mul(x, g[j - 1]))
    ensures Tracks(g', StartSeq(), FlaggedPoints(flagged + [i]))
  {
    hide Add, Mul, Exp, Tracks, StartSeq, DegreeAtMost;
    StartDegree();
    MulZero(x);
    FlaggedStep(flagged, i);
    hide FlaggedPoints;
    forall j | 0 <= j < MAXDEG
      ensures g'[j] == Add(g[j], Mul(x, Coef(g, j - 1)))
    {
      if j > 0 {
        assert Coef(g, j - 1) == g[j - 1];
      }
    }
    TracksMore(g, g', x, StartSeq(), FlaggedPoints(flagged));
  }

  /** The codec's global tables and working arrays. */
  class RsCode {
    const tables: Tables
    const synBytes: array<Byte>
    const lambda: array<Byte>
    const omega: array<Byte>
    const pBytes: array<Byte>
    const genPoly: array<Byte>
    const errorLocs: array<nat>
    const erasureLocs: array<nat>
    var nErrors: nat
    var nErasures: nat

    ghost predicate Valid() {
      && tables.Valid()
      && synBytes.Length == lambda.Length == omega.Length == pBytes.Length == MAXDEG
      && genPoly.Length == 2 * MAXDEG && errorLocs.Length == erasureLocs.Length == 256 && errorLocs != erasureLocs
      && synBytes != lambda && synBytes != omega && lambda != omega
      && pBytes != synBytes && pBytes != lambda && pBytes != omega
    }

    ghost predicate Foreign(a: array<Byte>) {
      a != synBytes && a != lambda && a != omega && a != pBytes && a != genPoly
    }

    /** The encoder's generator polynomial has been computed. */
    ghost predicate Ready()
      reads genPoly
    {
      genPoly.Length == 2 * MAXDEG && forall k :: 0 <= k < 2 * MAXDEG ==> genPoly[k] == Coef(GenPoly(NPAR), k)
    }

    constructor ()
      ensures Valid() && Ready()
      ensures fresh(synBytes) && fresh(lambda) && fresh(omega) && fresh(pBytes) && fresh(genPoly) && fresh(errorLocs) &&
                fresh(erasureLocs)
    {
      var t := InitGaloisTables();
      var g := new Byte[2 * MAXDEG](_ => ZERO);
      ComputeGenpoly(t, NPAR, g);
      tables := t;
      genPoly := g;
      synBytes := new Byte[MAXDEG](_ => ZERO);
      lambda := new Byte[MAXDEG](_ => ZERO);
      omega := new Byte[MAXDEG](_ => ZERO);
      pBytes := new Byte[MAXDEG](_ => ZERO);
      errorLocs := new nat[256](_ => 0);
      erasureLocs := new nat[256](_ => 0);
      nErrors, nErasures := 0, 0;
    }

    // --- rs.c: generator polynomial and encoder ---

    /** The product of x + alpha^i for i < nbytes, one factor at a time. */
    static method ComputeGenpoly(t: Tables, nbytes: nat, genpoly: array<Byte>)
      requires t.Valid() && genpoly.Length == 2 * MAXDEG && 0 < nbytes < MAXDEG
      modifies genpoly
      ensures forall k :: 0 <= k < 2 * MAXDEG ==> genpoly[k] == Coef(GenPoly(nbytes), k)
    {
      hide Add, Mul, Exp, GenPoly;
      var tp, tp1 := new Byte[256](_ => ZERO), new Byte[256](_ => ZERO);
      ZeroPoly(tp1);
      tp1[0] := ONE;
      GenPolyStart();
      for i := 0 to nbytes
        invariant fresh(tp) && fresh(tp1) && tp != tp1
        invariant forall k :: 0 <= k < MAXDEG ==> tp1[k] == Coef(GenPoly(i), k)
        invariant i > 0 ==> forall k :: 0 <= k < 2 * MAXDEG ==> genpoly[k] == Coef(GenPoly(i), k)
      {
        ZeroPoly(tp);
        tp[0] := t.gexp[i];
        tp[1] := ONE;
        MultPolys(t, genpoly, tp, tp1);
        FactorProduct(tp[..MAXDEG], tp1[..MAXDEG], i, genpoly[..]);
        CopyPoly(tp1, genpoly);
      }
    }

    /** The shift register divides the message by the generator. */
    method RunRegister(msg: array<Byte>, nbytes: nat) returns (lfsr: array<Byte>, ghost quotient: seq<Byte>)
      requires Valid() && Ready() && nbytes <= msg.Length
      ensures fresh(lfsr) && lfsr.Length == NPAR + 1 && RegisterHolds(lfsr[..], msg[..nbytes], NPAR)
      ensures |quotient| == nbytes && DividesWith(quotient, lfsr[..], msg[..nbytes], NPAR)
    {
      hide Add, Mul, Exp, Eval, Syndrome, GenPoly, RegisterStep, RegisterHolds, DividesWith;
      lfsr := new Byte[NPAR + 1](_ => ZERO);
      quotient := [];
      RegisterEmpty(lfsr[..], NPAR);
      NothingDivided(lfsr[..], NPAR);
      for i := 0 to nbytes
        invariant fresh(lfsr) && lfsr.Length == NPAR + 1 && Ready()
        invariant RegisterHolds(lfsr[..], msg[..i], NPAR)
        invariant |quotient| == i && DividesWith(quotient, lfsr[..], msg[..i], NPAR)
      {
        ghost var before := lfsr[..];
        var dbyte := Xor(msg[i], lfsr[NPAR - 1]);
        ClockRegister(lfsr, dbyte);
        RegisterAdvances(before, lfsr[..], msg[..i], msg[i], NPAR);
        DivisionAdvances(quotient, before, lfsr[..], msg[..i], msg[i], NPAR);
        quotient := [dbyte] + quotient;
        assert msg[..i] + [msg[i]] == msg[..i + 1];
      }
    }

    /** The codeword is the message followed by the parity, and has no syndromes. */
    method EncodeData(msg: array<Byte>, nbytes: nat, dst: array<Byte>)
      requires Valid() && Ready() && Foreign(msg) && Foreign(dst)
      requires nbytes <= msg.Length && nbytes + NPAR <= dst.Length
      modifies pBytes, dst
      ensures dst[..nbytes] == old(msg[..nbytes])
      ensures ZeroSyndromes(dst[..nbytes + NPAR])
      ensures forall k :: nbytes + NPAR <= k < dst.Length ==> dst[k] == old(dst[k])
    {
      hide ZeroSyndromes, RegisterHolds;
      ghost var word := msg[..nbytes];
      var lfsr, _ := RunRegister(msg, nbytes);
      ghost var l := lfsr[..];
      for i := 0 to NPAR
        invariant forall k :: 0 <= k < i ==> pBytes[k] == l[k]
        invariant lfsr[..] == l && msg[..nbytes] == word && dst[..] == old(dst[..])
      {
        pBytes[i] := lfsr[i];
      }
      RegisterCompletes(l, word, NPAR);
      assert Parity(pBytes[..], NPAR, NPAR) == Parity(l, NPAR, NPAR);
      BuildCodeword(msg, nbytes, dst);
    }

    /** One byte into the shift register. */
    method ClockRegister(lfsr: array<Byte>, dbyte: Byte)
      requires Valid() && Ready() && Foreign(lfsr) && lfsr.Length == NPAR + 1
      modifies lfsr
      ensures RegisterStep(old(lfsr[..]), GenPoly(NPAR), dbyte, lfsr[..], NPAR)
    {
      hide Add, Mul, GenPoly;
      ghost var was := lfsr[..];
      var j := NPAR - 1;
      while j > 0
        invariant 0 <= j < NPAR
        invariant forall k :: j < k < NPAR ==> lfsr[k] == Add(was[k - 1], Mul(Coef(GenPoly(NPAR), k), dbyte))
        invariant forall k :: 0 <= k <= j ==> lfsr[k] == was[k]
      {
        lfsr[j] := Xor(lfsr[j - 1], tables.Gmult(genPoly[j], dbyte));
        j := j - 1;
      }
      lfsr[0] := tables.Gmult(genPoly[0], dbyte);
    }

    /** Append the parity bytes, highest first. */
    method BuildCodeword(msg: array<Byte>, nbytes: nat, dst: array<Byte>)
      requires Valid() && Foreign(dst) && nbytes <= msg.Length && nbytes + NPAR <= dst.Length
      modifies dst
      ensures dst[..nbytes + NPAR] == old(msg[..nbytes]) + Parity(pBytes[..], NPAR, NPAR)
      ensures forall k :: nbytes + NPAR <= k < dst.Length ==> dst[k] == old(dst[k])
    {
      ghost var word, parity := msg[..nbytes], Parity(pBytes[..], NPAR, NPAR);
      for i := 0 to nbytes
        invariant msg[..nbytes] == word && dst[..i] == word[..i]
        invariant forall k :: nbytes <= k < dst.Length ==> dst[k] == old(dst[k])
      {
        dst[i] := msg[i];
      }
      for i := 0 to NPAR
        invariant dst[..nbytes] == word
        invariant forall k :: nbytes <= k < nbytes + i ==> dst[k] == parity[k - nbytes]
        invariant forall k :: nbytes + i <= k < dst.Length ==> dst[k] == old(dst[k])
      {
        dst[i + nbytes] := pBytes[NPAR - 1 - i];
      }
    }

    // --- rs.c: syndromes ---

    /** Horner's rule over the word at each of the NPAR powers of alpha. */
    method DecodeData(data: array<Byte>, nbytes: nat)
      requires Valid() && Foreign(data) && nbytes <= data.Length
      modifies synBytes
      ensures SyndromesOf(synBytes[..], data[..nbytes])
    {
      hide Add, Mul, Exp;
      for j := 0 to NPAR
        invariant forall m: nat :: m < j ==> synBytes[m] == Syndrome(data[..nbytes], m)
      {
        var sum := ZERO;
        for i := 0 to nbytes
          invariant sum == Syndrome(data[..i], j)
        {
          assert data[..i + 1][..i] == data[..i];
          sum := Xor(data[i], tables.Gmult(tables.gexp[j], sum));
        }
        synBytes[j] := sum;
      }
    }

    method CheckSyndrome() returns (nz: bool)
      requires Valid()
      ensures nz <==> exists i :: 0 <= i < NPAR && synBytes[i] != ZERO
    {
      nz := false;
      for i := 0 to NPAR
        invariant !nz && forall k :: 0 <= k < i ==> synBytes[k] == ZERO
      {
        if synBytes[i] != ZERO {
          nz := true;
          break;
        }
      }
    }

    // --- berlekamp.c ---

    method ComputeDiscrepancy(psi: array<Byte>, len: nat, n: nat) returns (sum: Byte)
      requires Valid() && psi.Length == MAXDEG && len <= n < NPAR
      ensures sum == Discrepancy(psi[..], len, synBytes[..], n)
    {
      hide Add, Mul;
      sum := ZERO;
      for i := 0 to len + 1
        invariant sum == Dot(psi[..], synBytes[..], n, i)
      {
        sum := Xor(sum, tables.Gmult(psi[i], synBytes[n - i]));
      }
    }

    /** One position of the search: test, repair, and move the companion on. The arrays carry the search on the
        syndromes without the flagged points, multiplied by the locator of those points. */
    method SearchStep(psi: array<Byte>, psi2: array<Byte>, d: array<Byte>, len: nat, k: int, n: nat,
                      ghost zs: seq<Byte>, ghost sigma: seq<Byte>, ghost delta: seq<Byte>)
      returns (len': nat, k': int, ghost sigma': seq<Byte>, ghost delta': seq<Byte>)
      requires Valid() && psi.Length == psi2.Length == d.Length == MAXDEG && psi != psi2 && psi != d && psi2 != d
      requires Foreign(psi) && Foreign(psi2) && Foreign(d)
      requires |zs| <= len <= n < NPAR && k == len - |zs| - 1
      requires Simulation(psi[..], d[..], sigma, delta, zs, len - |zs|, Reduced(synBytes[..], zs), n - |zs|)
      modifies psi, psi2, d
      ensures |zs| <= len' <= n + 1 && k' == len' - |zs| - 1
      ensures Simulation(psi[..], d[..], sigma', delta', zs, len' - |zs|, Reduced(synBytes[..], zs), n + 1 - |zs|)
      ensures len' - |zs| == NextLength(len - |zs|, n - |zs|, old(Discrepancy(psi[..], len, synBytes[..], n)) != ZERO)
    {
      hide Add, Mul, Discrepancy, Inv, ShiftedScaled, Combined, Simulation, Reduced;
      ghost var s, t, p0, d0 := synBytes[..], Reduced(synBytes[..], zs), psi[..], d[..];
      ghost var m, l := n - |zs|, len - |zs|;
      len', k', sigma', delta' := len, k, sigma, delta;
      var disc := ComputeDiscrepancy(psi, len, n);
      SameDiscrepancy(p0, d0, sigma, delta, zs, l, s, m);
      TopsAreClear(p0, d0, sigma, delta, zs, l, t, m);
      if disc != ZERO {
        Repair(psi, psi2, d, disc, len < n - k);
        if len < n - k {
          k' := n - len;
          len' := n - k;
        }
      }
      ghost var d1 := d[..];
      MulZPoly(d);
      assert d[..] == [ZERO] + d1[..MAXDEG - 1];
      if disc == ZERO {
        ShiftIsScaled(d0, d[..]);
        delta' := SimulationPasses(p0, d0, d[..], sigma, delta, zs, l, t, m);
      } else if len < n - k {
        ScaledShift(p0, Inv(disc), d[..]);
        sigma', delta' := SimulationGrows(p0, d0, psi[..], d[..], sigma, delta, zs, l, t, m);
      } else {
        ShiftIsScaled(d0, d[..]);
        sigma', delta' := SimulationRepairs(p0, d0, psi[..], d[..], sigma, delta, zs, l, t, m);
      }
    }

    /** psi becomes psi + disc d; a companion that is to be replaced becomes the old psi over disc. */
    method Repair(psi: array<Byte>, psi2: array<Byte>, d: array<Byte>, disc: Byte, replace: bool)
      requires Valid() && psi.Length == psi2.Length == d.Length == MAXDEG && psi != psi2 && psi != d && psi2 != d
      requires disc != ZERO
      modifies psi, psi2, d
      ensures Combined(psi[..], old(psi[..]), disc, old(d[..]))
      ensures replace ==> forall i :: 0 <= i < MAXDEG ==> d[i] == Mul(old(psi[i]), Inv(disc))
      ensures !replace ==> d[..] == old(d[..])
    {
      hide Add, Mul, Inv, Combined;
      ghost var p0, d0 := psi[..], d[..];
      AddScaled(tables, disc, d, psi2, psi);
      SumIsCombined(psi2[..], p0, disc, d0);
      if replace {
        ScaleInto(tables, d, psi, tables.Ginv(disc));
      }
      CopyPoly(psi, psi2);
      assert psi[..] == psi2[..];
    }

    /** omega becomes lambda times the syndromes, cut off at NPAR coefficients. */
    method ComputeModifiedOmega()
      requires Valid()
      modifies omega
      ensures IsEvaluator(omega[..], lambda[..], synBytes[..], NPAR)
    {
      hide Add, Mul;
      var product := new Byte[2 * MAXDEG](_ => ZERO);
      ghost var lam, syn := lambda[..], synBytes[..];
      assert lambda[..MAXDEG] == lam && synBytes[..MAXDEG] == syn;
      MultPolys(tables, product, lambda, synBytes);
      ZeroPoly(omega);
      for i := 0 to NPAR
        invariant forall m :: 0 <= m < NPAR ==> product[m] == Dot(lam, syn, m, MAXDEG)
        invariant forall m :: 0 <= m < i ==> omega[m] == product[m]
        invariant forall m :: i <= m < MAXDEG ==> omega[m] == ZERO
      {
        omega[i] := product[i];
      }
      assert lambda[..] == lam && synBytes[..] == syn;
      forall i: nat
        ensures Coef(omega[..], i) == if i < NPAR then Dot(lam, syn, i, i + 1) else ZERO
      {
        if i < NPAR { DotIgnoresBefore(lam, syn, i, i + 1, MAXDEG); }
      }
    }

    /** gamma becomes the product of 1 + alpha^i z over the flagged locations i. */
    method InitGamma(gamma: array<Byte>)
      requires Valid() && Foreign(gamma) && gamma.Length == MAXDEG && FlagsReadable()
      modifies gamma
      ensures nErasures <= NPAR ==> Tracks(gamma[..], StartSeq(), FlaggedPoints(erasureLocs[..nErasures]))
    {
      hide Add, Mul, Exp, Tracks, StartSeq, FlaggedPoints;
      var tmp := new Byte[MAXDEG](_ => ZERO);
      ZeroPoly(gamma);
      gamma[0] := ONE;
      GammaStart(gamma[..], erasureLocs[..0]);
      for e := 0 to nErasures
        invariant fresh(tmp) && tmp.Length == MAXDEG && FlagsReadable()
        invariant e <= NPAR ==> Tracks(gamma[..], StartSeq(), FlaggedPoints(erasureLocs[..e]))
      {
        ghost var g := gamma[..];
        CopyPoly(tmp, gamma);
        ScalePoly(tables, tables.gexp[erasureLocs[e]], tmp);
        MulZPoly(tmp);
        AddInto(gamma, tmp);
        if e < NPAR {
          GammaStep(g, gamma[..], erasureLocs[..e], erasureLocs[e], tables.gexp[erasureLocs[e]]);
          assert erasureLocs[..e + 1] == erasureLocs[..e] + [erasureLocs[e]];
        }
      }
    }

    /** The flagged locations are within reach of the exponent table. */
    ghost predicate FlagsReadable()
      reads this, erasureLocs
    {
      nErasures <= erasureLocs.Length && forall t :: 0 <= t < nErasures ==> erasureLocs[t] < 511
    }

    /** Berlekamp-Massey: without the flagged points the syndromes have a shortest recurrence, and lambda is that
        recurrence times the locator of the flagged points. */
    method ModifiedBerlekampMassey() returns (ghost sigma: seq<Byte>, ghost len: nat)
      requires Valid() && FlagsReadable()
      modifies lambda, omega
      ensures nErasures <= NPAR ==>
                Searched(lambda[..], sigma, len, synBytes[..], FlaggedPoints(erasureLocs[..nErasures]))
      ensures IsEvaluator(omega[..], lambda[..], synBytes[..], NPAR)
    {
      hide Add, Mul, Exp, Simulation, Tracks, StartSeq, Searched, IsEvaluator, FlaggedPoints, Reduced, Discrepancy;
      ghost var s := synBytes[..];
      var psi, psi2, d := new Byte[MAXDEG](_ => ZERO), new Byte[MAXDEG](_ => ZERO), new Byte[MAXDEG](_ => ZERO);
      var gamma := new Byte[MAXDEG](_ => ZERO);
      InitGamma(gamma);
      CopyPoly(d, gamma);
      assert d[..] == gamma[..];
      MulZPoly(d);
      assert d[..] == [ZERO] + gamma[..MAXDEG - 1];
      CopyPoly(psi, gamma);
      assert psi[..] == gamma[..];
      if nErasures < NPAR {
        sigma, len := SearchAll(psi, psi2, d);
      } else if nErasures == NPAR {
        ghost var zs := FlaggedPoints(erasureLocs[..nErasures]);
        sigma, len := StartSeq(), 0;
        StartDegree();
        TrackedTop(psi[..], StartSeq(), zs);
        ghost var delta := SimulationStart(psi[..], d[..], zs, Reduced(s, zs));
        SimulationEnds(psi[..], d[..], sigma, delta, zs, 0, s, 0);
      } else {
        sigma, len := [], 0;
      }
      CopyPoly(lambda, psi);
      assert lambda[..] == psi[..];
      ComputeModifiedOmega();
    }

    /** The search over the positions left to it. */
    method SearchAll(psi: array<Byte>, psi2: array<Byte>, d: array<Byte>)
      returns (ghost sigma: seq<Byte>, ghost len: nat)
      requires Valid() && FlagsReadable() && nErasures < NPAR
      requires psi.Length == psi2.Length == d.Length == MAXDEG && psi != psi2 && psi != d && psi2 != d
      requires Foreign(psi) && Foreign(psi2) && Foreign(d)
      requires d[..] == [ZERO] + psi[..MAXDEG - 1]
      requires Tracks(psi[..], StartSeq(), FlaggedPoints(erasureLocs[..nErasures]))
      modifies psi, psi2, d
      ensures Searched(psi[..], sigma, len, synBytes[..], FlaggedPoints(erasureLocs[..nErasures]))
    {
      hide Add, Mul, Exp, Simulation, Tracks, StartSeq, Searched, FlaggedPoints, Reduced, Discrepancy;
      ghost var s := synBytes[..];
      ghost var zs := FlaggedPoints(erasureLocs[..nErasures]);
      var k := -1;
      var L := nErasures;
      StartDegree();
      TrackedTop(psi[..], StartSeq(), zs);
      sigma := StartSeq();
      ghost var delta := SimulationStart(psi[..], d[..], zs, Reduced(s, zs));
      for n := nErasures to NPAR
        invariant synBytes[..] == s && |zs| == nErasures
        invariant |zs| <= L <= n && k == L - |zs| - 1
        invariant Simulation(psi[..], d[..], sigma, delta, zs, L - |zs|, Reduced(s, zs), n - |zs|)
      {
        L, k, sigma, delta := SearchStep(psi, psi2, d, L, k, n, zs, sigma, delta);
      }
      len := L - |zs|;
      SimulationEnds(psi[..], d[..], sigma, delta, zs, len, s, NPAR - |zs|);
    }

    /** Chien search: the locations of all roots of lambda, highest location first. */
    method FindRoots()
      requires Valid()
      modifies this`nErrors, errorLocs
      ensures nErrors <= 255
      ensures forall t :: 0 <= t < nErrors ==> errorLocs[t] < 255
      ensures forall t, u :: 0 <= t < u < nErrors ==> errorLocs[t] > errorLocs[u]
      ensures forall i: nat :: i < 255 ==> (i in errorLocs[..nErrors] <==> IsRoot(lambda[..], i))
    {
      hide Add, Mul, Exp, PointEval;
      nErrors := 0;
      for r := 1 to 256
        invariant nErrors < r
        invariant forall t :: 0 <= t < nErrors ==> 255 - r < errorLocs[t] < 255
        invariant forall t, u :: 0 <= t < u < nErrors ==> errorLocs[t] > errorLocs[u]
        invariant forall i: nat :: 255 - r < i < 255 ==> (i in errorLocs[..nErrors] <==> IsRoot(lambda[..], i))
      {
        var sum := EvalLambda(r);
        ghost var before := errorLocs[..nErrors];
        if sum == ZERO {
          errorLocs[nErrors] := 255 - r;
          nErrors := nErrors + 1;
          assert errorLocs[..nErrors] == before + [255 - r];
        }
      }
    }

    method EvalLambda(r: nat) returns (sum: Byte)
      requires Valid()
      ensures sum == PointEval(lambda[..], r, NPAR + 1)
    {
      hide Add, Mul, Exp;
      sum := ZERO;
      for k := 0 to NPAR + 1
        invariant sum == PointEval(lambda[..], r, k)
      {
        sum := Xor(sum, tables.Gmult(tables.gexp[(k * r) % 255], lambda[k]));
      }
    }

    /** The evaluator over the odd part of the locator, both at the inverse of location i. */
    method ErrorMagnitude(i: nat) returns (err: Byte)
      requires Valid() && i < 255
      ensures err == Magnitude(lambda[..], omega[..], i)
    {
      hide Add, Mul, Exp, Inv, PointEval, OddEval;
      var num := EvalOmega(255 - i);
      var denom := EvalOddLambda(255 - i);
      err := tables.Gmult(num, tables.Ginv(denom));
    }

    method EvalOmega(r: nat) returns (num: Byte)
      requires Valid()
      ensures num == PointEval(omega[..], r, MAXDEG)
    {
      hide Add, Mul, Exp;
      num := ZERO;
      for j := 0 to MAXDEG
        invariant num == PointEval(omega[..], r, j)
      {
        MulComm(omega[j], Exp((r * j) % 255));
        num := Xor(num, tables.Gmult(omega[j], tables.gexp[(r * j) % 255]));
      }
    }

    method EvalOddLambda(r: nat) returns (denom: Byte)
      requires Valid()
      ensures denom == OddEval(lambda[..], r, NPAR)
    {
      hide Add, Mul, Exp;
      denom := ZERO;
      var j := 1;
      ghost var h := 0;
      while j < MAXDEG
        invariant j == 2 * h + 1 && h <= NPAR
        invariant denom == OddEval(lambda[..], r, h)
      {
        denom := Xor(denom, tables.Gmult(lambda[j], tables.gexp[(r * j) % 255]));
        j := j + 2;
        h := h + 1;
      }
    }

    /** Locate the errata, and add the magnitude at each unless a location lies outside the word: any e unflagged errors
        and f flagged locations with 2 e + f at most NPAR are undone. */
    method CorrectErrorsErasures(codeword: array<Byte>, csize: nat, erasures: seq<nat>) returns (r: nat)
      requires Valid() && Foreign(codeword) && csize <= codeword.Length && csize <= 255
      requires |erasures| <= 256 && forall t :: 0 <= t < |erasures| ==> erasures[t] < 511
      requires SyndromesOf(synBytes[..], codeword[..csize])
      modifies this`nErrors, this`nErasures, lambda, omega, errorLocs, erasureLocs, codeword
      ensures forall c: seq<Byte> :: Correctable(c, old(codeword[..csize]), erasures) ==>
                codeword[..csize] == c && |c| == csize && r == |ErrataLocations(c, old(codeword[..csize]), erasures)|
      ensures r == 0 ==> codeword[..] == old(codeword[..])
      ensures r > 0 ==>
                r == nErrors <= NPAR &&
                  Applied(codeword[..csize], old(codeword[..csize]), errorLocs[..r], lambda[..], omega[..])
      ensures forall k :: csize <= k < codeword.Length ==> codeword[k] == old(codeword[k])
    {
      hide Searched, IsEvaluator, SyndromesOf, IsRoot, Add, Magnitude, Correctable, FlaggedPoints, ErrataLocations;
      ghost var word, s := codeword[..csize], synBytes[..];
      SetErasures(erasures);
      ghost var sigma, len := ModifiedBerlekampMassey();
      FindRoots();
      ghost var lam, om, locs := lambda[..], omega[..], errorLocs[..nErrors];
      if 0 < nErrors <= NPAR {
        var inside := LocationsInside(csize);
        if !inside {
          AllDecoded(word, word, erasures, s, lam, sigma, len, om, locs, false);
          return 0;
        }
        ApplyCorrections(codeword, csize);
        AllDecoded(word, codeword[..csize], erasures, s, lam, sigma, len, om, locs, true);
        return nErrors;
      } else {
        AllDecoded(word, word, erasures, s, lam, sigma, len, om, locs, false);
        return 0;
      }
    }

    method SetErasures(erasures: seq<nat>)
      requires Valid() && |erasures| <= 256 && forall t :: 0 <= t < |erasures| ==> erasures[t] < 511
      modifies this`nErasures, erasureLocs
      ensures FlagsReadable() && nErasures == |erasures| && erasureLocs[..nErasures] == erasures
    {
      nErasures := |erasures|;
      for i := 0 to nErasures
        invariant nErasures == |erasures| && forall t :: 0 <= t < i ==> erasureLocs[t] == erasures[t]
      {
        erasureLocs[i] := erasures[i];
      }
    }

    /** No error location lies outside a word of csize bytes. */
    method LocationsInside(csize: nat) returns (inside: bool)
      requires Valid() && nErrors <= 255
      ensures inside <==> forall t :: 0 <= t < nErrors ==> errorLocs[t] < csize
    {
      inside := true;
      for r := 0 to nErrors
        invariant inside && forall t :: 0 <= t < r ==> errorLocs[t] < csize
      {
        if errorLocs[r] >= csize {
          inside := false;
          break;
        }
      }
    }

    method ApplyCorrections(codeword: array<Byte>, csize: nat)
      requires Valid() && Foreign(codeword) && csize <= codeword.Length && csize <= 255 && nErrors <= 255
      requires Descending(errorLocs[..nErrors]) && forall t :: 0 <= t < nErrors ==> errorLocs[t] < csize
      modifies codeword
      ensures Applied(codeword[..csize], old(codeword[..csize]), errorLocs[..nErrors], lambda[..], omega[..])
      ensures forall k :: csize <= k < codeword.Length ==> codeword[k] == old(codeword[k])
    {
      hide Add, Magnitude, Applied, Descending;
      ghost var locs := errorLocs[..nErrors];
      ghost var lam, om := lambda[..], omega[..];
      NothingApplied(codeword[..csize], lam, om);
      for r := 0 to nErrors
        invariant lambda[..] == lam && omega[..] == om
        invariant Applied(codeword[..csize], old(codeword[..csize]), locs[..r], lam, om)
        invariant forall k :: csize <= k < codeword.Length ==> codeword[k] == old(codeword[k])
      {
        var i := errorLocs[r];
        var err := ErrorMagnitude(i);
        ghost var before := codeword[..csize];
        codeword[csize - i - 1] := Xor(codeword[csize - i - 1], err);
        OneMoreApplied(codeword[..csize], before, old(codeword[..csize]), locs, r, lam, om);
      }
      assert locs[..nErrors] == locs;
    }
  }
}

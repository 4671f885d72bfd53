/** Codewords, error patterns and what the decoder's tables of numbers say about them. */
module Codeword {
  import opened Galois
  import opened Recurrence
  import opened Locator
  import opened PowerSums
  import opened Forney

  const NPAR := 10
  const MAXDEG := 20

  /** The word, first byte as highest coefficient, evaluated at alpha^j. */
  ghost function Syndrome(word: seq<Byte>, j: nat): Byte {
    if word == [] then ZERO else
      var last := |word| - 1;
      Add(word[last], Mul(Exp(j), Syndrome(word[..last], j)))
  }

  ghost predicate IsCodeword(word: seq<Byte>) {
    |word| <= 255 && forall j: nat :: j < NPAR ==> Syndrome(word, j) == ZERO
  }

  /** Where two words differ or a byte is flagged as erased, highest location first; the last byte has location 0. */
  ghost function ErrataLocations(c: seq<Byte>, r: seq<Byte>, flagged: seq<nat>): (locs: seq<nat>)
    requires |c| == |r|
    ensures |locs| <= |c|
    ensures forall t :: 0 <= t < |locs| ==> locs[t] < |c|
    ensures forall t, u :: 0 <= t < u < |locs| ==> locs[t] > locs[u]
    ensures forall i: nat :: i < |c| ==> (i in locs <==> c[|c| - 1 - i] != r[|c| - 1 - i] || i in flagged)
  {
    if c == [] then [] else
      var rest := ErrataLocations(c[1..], r[1..], flagged);
      if c[0] == r[0] && |c| - 1 !in flagged then rest else [|c| - 1] + rest
  }

  /** The locations where two words differ. */
  ghost function ErrorLocations(c: seq<Byte>, r: seq<Byte>): (locs: seq<nat>)
    requires |c| == |r|
    ensures |locs| <= |c|
    ensures forall t :: 0 <= t < |locs| ==> locs[t] < |c|
    ensures forall t, u :: 0 <= t < u < |locs| ==> locs[t] > locs[u]
    ensures forall i: nat :: i < |c| ==> (i in locs <==> c[|c| - 1 - i] != r[|c| - 1 - i])
  {
    ErrataLocations(c, r, [])
  }

  ghost function Distance(c: seq<Byte>, r: seq<Byte>): nat
    requires |c| == |r|
  {
    |ErrorLocations(c, r)|
  }

  /** The errors at locations that are not flagged. */
  ghost function UnflaggedErrors(c: seq<Byte>, r: seq<Byte>, flagged: seq<nat>): (locs: seq<nat>)
    requires |c| == |r|
    ensures forall t :: 0 <= t < |locs| ==> locs[t] < |c|
    ensures forall t, u :: 0 <= t < u < |locs| ==> locs[t] > locs[u]
    ensures forall i: nat :: i < |c| ==> (i in locs <==> c[|c| - 1 - i] != r[|c| - 1 - i] && i !in flagged)
  {
    if c == [] then [] else
      var rest := UnflaggedErrors(c[1..], r[1..], flagged);
      if c[0] == r[0] || |c| - 1 in flagged then rest else [|c| - 1] + rest
  }

  /** Without flags every error counts. */
  lemma {:induction false} NoFlags(c: seq<Byte>, r: seq<Byte>)
    requires |c| == |r|
    ensures UnflaggedErrors(c, r, []) == ErrorLocations(c, r)
  {
    if c != [] { NoFlags(c[1..], r[1..]); }
  }

  /** The point of the field at a location. */
  ghost function PointsAt(locs: seq<nat>): (xs: seq<Byte>)
    ensures |xs| == |locs|
    ensures forall t :: 0 <= t < |locs| ==> xs[t] == Exp(locs[t])
  {
    seq(|locs|, t requires 0 <= t < |locs| => Exp(locs[t]))
  }

  /** The differences of the two words at the given locations. */
  ghost function ValuesAt(c: seq<Byte>, r: seq<Byte>, locs: seq<nat>): (ys: seq<Byte>)
    requires |c| == |r| && forall t :: 0 <= t < |locs| ==> locs[t] < |c|
    ensures |ys| == |locs|
    ensures forall t :: 0 <= t < |locs| ==> ys[t] == Add(c[|c| - 1 - locs[t]], r[|c| - 1 - locs[t]])
  {
    seq(|locs|, t requires 0 <= t < |locs| => Add(c[|c| - 1 - locs[t]], r[|c| - 1 - locs[t]]))
  }

  // --- syndromes of the received word are power sums over the errors ---

  lemma {:induction false} SyndromeFront(word: seq<Byte>, j: nat)
    requires word != []
    ensures Syndrome(word, j) == Add(Mul(word[0], Pow(Exp(j), |word| - 1)), Syndrome(word[1..], j))
  {
    hide Add, Mul, Exp;
    var last := |word| - 1;
    if last == 0 {
      MulZero(Exp(j));
      AddZero(word[0]);
      MulOne(word[0]);
    } else {
      var init := word[..last];
      SyndromeFront(init, j);
      assert init[1..] == word[1..][..last - 1];
      var z := Exp(j);
      var a, b := Mul(word[0], Pow(z, last - 1)), Syndrome(init[1..], j);
      MulAddRight(z, a, b);
      MulSwap(z, word[0], Pow(z, last - 1));
      AddSwap3(word[last], Mul(z, a), Mul(z, b));
    }
  }

  lemma AddSwap3(a: Byte, b: Byte, c: Byte)
    ensures Add(a, Add(b, c)) == Add(b, Add(a, c))
  {
    assert Xor(a, Xor(b, c)) == Xor(b, Xor(a, c));
  }

  lemma {:induction false} PowOfPower(i: nat, j: nat)
    ensures Pow(Exp(i), j) == Exp(i * j)
  {
    hide Mul, Exp;
    if j == 0 {
      ExpZero();
    } else {
      PowOfPower(i, j - 1);
      assert i + i * (j - 1) == i * j;
      ExpAdd(i, i * (j - 1));
    }
  }

  /** The errata of a word are those of its tail, with the first byte's in front if it differs or is flagged. */
  lemma LocationsUnfold(c: seq<Byte>, r: seq<Byte>, flagged: seq<nat>)
    requires |c| == |r| && c != []
    ensures var locs, rest := ErrataLocations(c, r, flagged), ErrataLocations(c[1..], r[1..], flagged);
            var xs, ys := PointsAt(rest), ValuesAt(c[1..], r[1..], rest);
            if c[0] == r[0] && |c| - 1 !in flagged then PointsAt(locs) == xs && ValuesAt(c, r, locs) == ys
            else PointsAt(locs) == [Exp(|c| - 1)] + xs && ValuesAt(c, r, locs) == [Add(c[0], r[0])] + ys
  {
    var rest := ErrataLocations(c[1..], r[1..], flagged);
    ValuesOfTail(c, r, rest);
    ErrataUnfold(c, r, flagged);
    hide Add, Exp, ErrataLocations;
    if c[0] != r[0] || |c| - 1 in flagged {
      FrontLocation(c, r, rest);
    }
  }

  lemma ErrataUnfold(c: seq<Byte>, r: seq<Byte>, flagged: seq<nat>)
    requires |c| == |r| && c != []
    ensures ErrataLocations(c, r, flagged)
         == (if c[0] == r[0] && |c| - 1 !in flagged then [] else [|c| - 1]) + ErrataLocations(c[1..], r[1..], flagged)
  {}

  lemma ValuesOfTail(c: seq<Byte>, r: seq<Byte>, rest: seq<nat>)
    requires |c| == |r| && c != [] && forall t :: 0 <= t < |rest| ==> rest[t] < |c| - 1
    ensures ValuesAt(c[1..], r[1..], rest) == ValuesAt(c, r, rest)
  {
    hide Add;
  }

  lemma FrontLocation(c: seq<Byte>, r: seq<Byte>, rest: seq<nat>)
    requires |c| == |r| && c != [] && forall t :: 0 <= t < |rest| ==> rest[t] < |c| - 1
    ensures PointsAt([|c| - 1] + rest) == [Exp(|c| - 1)] + PointsAt(rest)
    ensures ValuesAt(c, r, [|c| - 1] + rest) == [Add(c[0], r[0])] + ValuesAt(c, r, rest)
  {
    hide Add, Exp;
  }

  lemma {:induction false} SyndromeOfDifference(c: seq<Byte>, r: seq<Byte>, flagged: seq<nat>, j: nat)
    requires |c| == |r|
    ensures var locs := ErrataLocations(c, r, flagged);
            Add(Syndrome(c, j), Syndrome(r, j)) == PowerSum(PointsAt(locs), ValuesAt(c, r, locs), j)
  {
    hide Add, Mul, Exp, Syndrome, PointsAt, ValuesAt;
    if c == [] {
      SyndromeEmpty(j);
      AddZero(ZERO);
    } else {
      hide ErrataLocations;
      var c', r', n := c[1..], r[1..], |c| - 1;
      SyndromeOfDifference(c', r', flagged, j);
      LocationsUnfold(c, r, flagged);
      DifferenceStep(c, r, j);
      if c[0] == r[0] && n !in flagged {
        AddSelf(c[0]);
        MulZero(Pow(Exp(j), n));
        AddZero(Add(Syndrome(c', j), Syndrome(r', j)));
      } else {
        var rest := ErrataLocations(c', r', flagged);
        var xs, ys := PointsAt(rest), ValuesAt(c', r', rest);
        PowOfPower(j, n);
        PowOfPower(n, j);
        assert ([Exp(n)] + xs)[1..] == xs && ([Add(c[0], r[0])] + ys)[1..] == ys;
      }
    }
  }

  lemma DifferenceStep(c: seq<Byte>, r: seq<Byte>, j: nat)
    requires |c| == |r| && c != []
    ensures Add(Syndrome(c, j), Syndrome(r, j))
         == Add(Mul(Add(c[0], r[0]), Pow(Exp(j), |c| - 1)), Add(Syndrome(c[1..], j), Syndrome(r[1..], j)))
  {
    hide Add, Mul, Exp, Syndrome, Pow;
    var p := Pow(Exp(j), |c| - 1);
    SyndromeFront(c, j);
    SyndromeFront(r, j);
    AddSwap(Mul(c[0], p), Syndrome(c[1..], j), Mul(r[0], p), Syndrome(r[1..], j));
    MulAddLeft(c[0], r[0], p);
  }

  lemma SyndromeEmpty(j: nat)
    ensures Syndrome([], j) == ZERO
  {}

  // --- evaluating a polynomial as the decoder does, through the exponent table ---

  /** The sum over k < l of p_k alpha^(k r), exponents reduced as in the C code. */
  ghost function PointEval(p: seq<Byte>, r: nat, l: nat): Byte {
    if l == 0 then ZERO else Add(PointEval(p, r, l - 1), Mul(Exp(((l - 1) * r) % 255), Coef(p, l - 1)))
  }

  /** The odd terms of the same sum: p_k alpha^(k r) for odd k < 2h. */
  ghost function OddEval(p: seq<Byte>, r: nat, h: nat): Byte {
    if h == 0 then ZERO else Add(OddEval(p, r, h - 1), Mul(Coef(p, 2 * h - 1), Exp((r * (2 * h - 1)) % 255)))
  }

  lemma {:induction false} ExpMod(n: nat)
    ensures Exp(n % 255) == Exp(n)
  {
    hide Exp, Mul;
    if n >= 255 {
      ExpMod(n - 255);
      FullCycle(255);
      ExpAdd(n - 255, 255);
      MulOne(Exp(n - 255));
    }
  }

  /** alpha^(i k) undoes alpha^((255 - i) k). */
  lemma PowUndone(i: nat, k: nat, n: nat)
    requires i < 255 && n == k * (255 - i)
    ensures Mul(Pow(Exp(i), k), Exp(n % 255)) == ONE
  {
    hide Exp, Mul, Pow;
    PowOfPower(i, k);
    ExpMod(n);
    ExpAdd(i * k, n);
    assert i * k + n == 255 * k;
    FullCycle(255);
    ExpMultiple(255, k);
  }

  lemma {:induction false} PointEvalIsQuot(p: seq<Byte>, i: nat, l: nat)
    requires i < 255
    ensures Mul(Pow(Exp(i), l), PointEval(p, 255 - i, l + 1)) == Quot(p, Exp(i), l)
  {
    hide Add, Mul, Exp, Coef;
    var r, x := 255 - i, Exp(i);
    var t := Exp((l * r) % 255);
    PowUndone(i, l, l * r);
    MulAssoc(Pow(x, l), t, Coef(p, l));
    MulOne(Coef(p, l));
    if l == 0 {
      AddZero(Mul(t, Coef(p, 0)));
      assert PointEval(p, r, 0) == ZERO;
    } else {
      PointEvalIsQuot(p, i, l - 1);
      var e := PointEval(p, r, l);
      MulAddRight(Pow(x, l), e, Mul(t, Coef(p, l)));
      MulAssoc(x, Pow(x, l - 1), e);
      AddComm(Mul(x, Quot(p, x, l - 1)), Coef(p, l));
    }
  }

  lemma {:induction false} OddEvalIsOddPart(p: seq<Byte>, i: nat, h: nat)
    requires i < 255
    ensures Mul(Pow(Exp(i), 2 * h + 1), OddEval(p, 255 - i, h + 1)) == OddPart(p, Exp(i), h)
  {
    hide Add, Mul, Exp, Coef;
    var r, x, l := 255 - i, Exp(i), 2 * h + 1;
    var t := Exp((r * l) % 255);
    PowUndone(i, l, r * l);
    MulComm(Coef(p, l), t);
    MulAssoc(Pow(x, l), t, Coef(p, l));
    MulOne(Coef(p, l));
    if h == 0 {
      AddZero(Mul(Coef(p, 1), t));
      assert OddEval(p, r, 0) == ZERO;
    } else {
      OddEvalIsOddPart(p, i, h - 1);
      var e := OddEval(p, r, h);
      MulAddRight(Pow(x, l), e, Mul(Coef(p, l), t));
      assert Pow(x, l) == Mul(x, Mul(x, Pow(x, l - 2)));
      MulAssoc(x, Mul(x, Pow(x, l - 2)), e);
      MulAssoc(x, Pow(x, l - 2), e);
      AddComm(Mul(x, Mul(x, OddPart(p, x, h - 1))), Coef(p, l));
    }
  }
}

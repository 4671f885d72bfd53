/** The generator polynomial and the systematic encoding it gives. */
module Generator {
  import opened Galois
  import opened Recurrence
  import opened Locator
  import opened PowerSums
  import opened Codeword

  /** The product of x + alpha^i for i < n, lowest coefficient first. */
  ghost function GenPoly(n: nat): (g: seq<Byte>)
    ensures |g| == n + 1
  {
    if n == 0 then [ONE] else
      var g := GenPoly(n - 1);
      seq(n + 1, k requires 0 <= k <= n => Add(Mul(Exp(n - 1), Coef(g, k)), Coef(g, k - 1)))
  }

  /** The first l terms of p evaluated at z. */
  ghost function Eval(p: seq<Byte>, z: Byte, l: nat): Byte {
    if l == 0 then ZERO else Add(Eval(p, z, l - 1), Mul(Coef(p, l - 1), Pow(z, l - 1)))
  }

  lemma {:induction false} GenPolyMonic(n: nat)
    ensures Coef(GenPoly(n), n) == ONE
  {
    hide Add, Mul, Exp;
    if n > 0 {
      GenPolyMonic(n - 1);
      MulZero(Exp(n - 1));
      AddZero(ONE);
    }
  }

  lemma GenPolyEntry(n: nat, k: nat)
    requires 0 < n && k <= n
    ensures GenPoly(n)[k] == Add(Mul(Exp(n - 1), Coef(GenPoly(n - 1), k)), Coef(GenPoly(n - 1), k - 1))
  {
    hide Add, Mul, Exp, Coef;
  }

  lemma GenPolyCoef(n: nat, k: int)
    requires n > 0 && k >= 0
    ensures Coef(GenPoly(n), k) == Add(Mul(Exp(n - 1), Coef(GenPoly(n - 1), k)), Coef(GenPoly(n - 1), k - 1))
  {
    hide Add, Mul, Exp;
    if k <= n {
      GenPolyEntry(n, k);
    } else {
      var g := GenPoly(n - 1);
      hide GenPoly;
      assert Coef(g, k) == ZERO && Coef(g, k - 1) == ZERO && Coef(GenPoly(n), k) == ZERO;
      MulZero(Exp(n - 1));
      AddZero(ZERO);
    }
  }

  /** Multiplying by x + a multiplies the value at z by z + a, once the top coefficient is out of the way. */
  lemma {:induction false} EvalOfGenPoly(n: nat, z: Byte, l: nat)
    requires n > 0
    ensures Add(Eval(GenPoly(n), z, l), if l == 0 then ZERO else Mul(Coef(GenPoly(n - 1), l - 1), Pow(z, l)))
         == Mul(Add(z, Exp(n - 1)), Eval(GenPoly(n - 1), z, l))
  {
    hide Add, Mul, Exp, Coef, GenPoly;
    var g, h, a := GenPoly(n - 1), GenPoly(n), Exp(n - 1);
    if l == 0 {
      MulZero(Add(z, a));
      AddZero(ZERO);
    } else {
      EvalOfGenPoly(n, z, l - 1);
      GenPolyCoef(n, l - 1);
      var p := Pow(z, l - 1);
      var c, c' := Coef(g, l - 1), Coef(g, l - 2);
      MulAddLeft(Mul(a, c), c', p);
      MulAssoc(a, c, p);
      MulSwap(z, c, p);
      MulAddLeft(z, a, Mul(c, p));
      MulAddRight(Add(z, a), Eval(g, z, l - 1), Mul(c, p));
      if l == 1 {
        CoefNegative(g);
        MulZero(p);
        AddZero(Mul(a, Mul(c, p)));
      }
      Regroup(Eval(h, z, l - 1), Mul(a, Mul(c, p)), Mul(c', p), Mul(c, Mul(z, p)));
      AddComm(Mul(c, Mul(z, p)), Mul(a, Mul(c, p)));
      AddZero(Eval(h, z, l - 1));
    }
  }

  lemma Regroup(e: Byte, x: Byte, y: Byte, w: Byte)
    ensures Add(Add(e, Add(x, y)), w) == Add(Add(e, y), Add(w, x))
  {
    hide *;
    AddComm(x, y);
    AddAssoc(e, y, x);
    AddAssoc(Add(e, y), x, w);
    AddComm(x, w);
  }

  /** alpha^0 .. alpha^(n-1) are roots of the generator polynomial. */
  lemma {:induction false} GenPolyRoots(n: nat, j: nat)
    requires j < n
    ensures Eval(GenPoly(n), Exp(j), n + 1) == ZERO
  {
    hide Add, Mul, Exp, GenPoly;
    var z := Exp(j);
    EvalOfGenPoly(n, z, n + 1);
    assert Coef(GenPoly(n - 1), n) == ZERO;
    MulZero(Pow(z, n + 1));
    AddZero(Eval(GenPoly(n), z, n + 1));
    var top := Eval(GenPoly(n - 1), z, n);
    MulZero(Pow(z, n));
    AddZero(top);
    if j == n - 1 {
      AddSelf(z);
      MulZero(top);
    } else {
      GenPolyRoots(n - 1, j);
      MulZero(Add(z, Exp(n - 1)));
    }
  }

  // --- the shift register ---

  /** What one byte does to the register contents. */
  ghost predicate RegisterStep(l: seq<Byte>, g: seq<Byte>, d: Byte, l': seq<Byte>, m: nat) {
    && Coef(l', 0) == Mul(Coef(g, 0), d)
    && forall k :: 0 < k < m ==> Coef(l', k) == Add(Coef(l, k - 1), Mul(Coef(g, k), d))
  }

  lemma {:induction false} RegisterEval(l: seq<Byte>, g: seq<Byte>, d: Byte, l': seq<Byte>, z: Byte, m: nat, n: nat)
    requires RegisterStep(l, g, d, l', m) && 0 < n <= m
    ensures Eval(l', z, n) == Add(Mul(d, Eval(g, z, n)), Mul(z, Eval(l, z, n - 1)))
  {
    hide Add, Mul, Coef;
    var c, p := Coef(g, n - 1), Pow(z, n - 1);
    MulComm(c, d);
    MulAssoc(d, c, p);
    if n == 1 {
      EvalOne(g, z);
      EvalOne(l', z);
      assert Eval(l, z, 0) == ZERO;
      MulZero(z);
      AddZero(Mul(d, Mul(c, p)));
    } else {
      RegisterEval(l, g, d, l', z, m, n - 1);
      var b := Coef(l, n - 2);
      MulAddLeft(b, Mul(c, d), p);
      MulSwap(z, b, Pow(z, n - 2));
      MulAddRight(d, Eval(g, z, n - 1), Mul(c, p));
      MulAddRight(z, Eval(l, z, n - 2), Mul(b, Pow(z, n - 2)));
      AddComm(Mul(b, p), Mul(d, Mul(c, p)));
      AddSwap(Mul(d, Eval(g, z, n - 1)), Mul(z, Eval(l, z, n - 2)), Mul(d, Mul(c, p)), Mul(b, p));
    }
  }

  lemma EvalOne(p: seq<Byte>, z: Byte)
    ensures Eval(p, z, 1) == Mul(Coef(p, 0), Pow(z, 0))
  {
    hide Add, Mul, Coef, Pow;
    assert Eval(p, z, 0) == ZERO;
    AddZero(Mul(Coef(p, 0), Pow(z, 0)));
  }

  /** At a root of the generator the register follows the message: shifted up, plus the new byte at x^m. */
  lemma RegisterFollows(l: seq<Byte>, l': seq<Byte>, b: Byte, j: nat, m: nat)
    requires j < m && RegisterStep(l, GenPoly(m), Add(b, Coef(l, m - 1)), l', m)
    ensures Eval(l', Exp(j), m) == Add(Mul(Exp(j), Eval(l, Exp(j), m)), Mul(b, Pow(Exp(j), m)))
  {
    hide Add, Mul, Exp, Coef, GenPoly;
    var g, z := GenPoly(m), Exp(j);
    var top := Coef(l, m - 1);
    var d, p := Add(b, top), Pow(z, m);
    RegisterEval(l, g, d, l', z, m, m);
    GenPolyRoots(m, j);
    GenPolyMonic(m);
    MulOne(p);
    AddCancel(Eval(g, z, m), p);
    MulAddLeft(b, top, p);
    var low := Eval(l, z, m - 1);
    MulSwap(z, top, Pow(z, m - 1));
    MulAddRight(z, low, Mul(top, Pow(z, m - 1)));
    AddComm(Mul(b, p), Mul(top, p));
    AddComm(Add(Mul(top, p), Mul(b, p)), Mul(z, low));
    AddAssoc(Mul(z, low), Mul(top, p), Mul(b, p));
  }

  /** The coefficient of x^i in message(x) x^m, the first byte being the highest. */
  ghost function MessageCoef(word: seq<Byte>, m: nat, i: int): Byte {
    if m <= i < m + |word| then word[|word| - 1 - (i - m)] else ZERO
  }

  /** The coefficient of x^i in the first m bytes of the register. */
  ghost function RegisterCoef(l: seq<Byte>, m: nat, i: int): Byte {
    if i < m then Coef(l, i) else ZERO
  }

  /** message(x) x^m = q(x) g(x) + l(x), coefficient by coefficient. */
  ghost predicate DividesWith(q: seq<Byte>, l: seq<Byte>, word: seq<Byte>, m: nat) {
    forall i: int :: MessageCoef(word, m, i) == Add(Dot(q, GenPoly(m), i, |q|), RegisterCoef(l, m, i))
  }

  lemma NothingDivided(l: seq<Byte>, m: nat)
    requires forall k :: 0 <= k < |l| ==> l[k] == ZERO
    ensures DividesWith([], l, [], m)
  {
    AddZero(ZERO);
  }

  /** A byte at the front of q adds that multiple of g, and moves the rest up. */
  lemma {:induction false} DotPrepend(d: Byte, q: seq<Byte>, g: seq<Byte>, i: int, l: nat)
    ensures Dot([d] + q, g, i, l + 1) == Add(Mul(d, Coef(g, i)), Dot(q, g, i - 1, l))
  {
    var head := Mul(d, Coef(g, i));
    if l == 0 {
      hide Add, Mul;
      assert Dot([d] + q, g, i, 0) == ZERO && Coef([d] + q, 0) == d;
      AddZero(head);
      AddComm(ZERO, head);
    } else {
      DotPrepend(d, q, g, i, l - 1);
      assert Coef([d] + q, l) == Coef(q, l - 1);
      hide Add, Mul, Coef;
      AddAssoc(head, Dot(q, g, i - 1, l - 1), Mul(Coef(q, l - 1), Coef(g, i - l)));
    }
  }

  /** One more byte: the byte fed back becomes the lowest coefficient of the quotient. */
  lemma DivisionAdvances(q: seq<Byte>, l: seq<Byte>, l': seq<Byte>, word: seq<Byte>, b: Byte, m: nat)
    requires DividesWith(q, l, word, m) && m > 0 && |l| >= m &&
              RegisterStep(l, GenPoly(m), Add(b, Coef(l, m - 1)), l', m)
    ensures DividesWith([Add(b, Coef(l, m - 1))] + q, l', word + [b], m)
  {
    var d, g := Add(b, Coef(l, m - 1)), GenPoly(m);
    hide Add, Mul, GenPoly, Dot;
    forall i: int
      ensures MessageCoef(word + [b], m, i) == Add(Dot([d] + q, g, i, |q| + 1), RegisterCoef(l', m, i))
    {
      DotPrepend(d, q, g, i, |q|);
      FedBack(l, l', g, b, m, i);
      MessageMoves(word, b, m, i);
      Rearrange(Mul(d, Coef(g, i)), Dot(q, g, i - 1, |q|), RegisterCoef(l', m, i), RegisterCoef(l, m, i - 1),
                if i == m then b else ZERO);
    }
  }

  lemma MessageMoves(word: seq<Byte>, b: Byte, m: nat, i: int)
    ensures MessageCoef(word + [b], m, i) == Add(MessageCoef(word, m, i - 1), if i == m then b else ZERO)
  {
    hide Add;
    AddZero(MessageCoef(word, m, i - 1));
    AddZero(b);
    AddComm(ZERO, b);
  }

  /** The multiple of g that is fed back is the difference between the register after and, moved up, before. */
  lemma FedBack(l: seq<Byte>, l': seq<Byte>, g: seq<Byte>, b: Byte, m: nat, i: int)
    requires g == GenPoly(m) && m > 0 && |l| >= m && RegisterStep(l, g, Add(b, Coef(l, m - 1)), l', m)
    ensures Add(Mul(Add(b, Coef(l, m - 1)), Coef(g, i)), RegisterCoef(l', m, i)) ==
            Add(RegisterCoef(l, m, i - 1), if i == m then b else ZERO)
  {
    var d, c := Add(b, Coef(l, m - 1)), Coef(g, i);
    GenPolyMonic(m);
    assert i > m || i < 0 ==> c == ZERO;
    hide Add, Mul, GenPoly;
    MulComm(c, d);
    MulZero(d);
    AddZero(ZERO);
    if 0 <= i < m {
      AddSelf(Mul(d, c));
      AddComm(Coef(l, i - 1), Mul(d, c));
      if i > 0 {
        AddUndo(Mul(d, c), Coef(l, i - 1));
      }
      AddZero(RegisterCoef(l, m, i - 1));
    } else if i == m {
      MulOne(d);
      MulComm(ONE, d);
      AddComm(b, Coef(l, m - 1));
      AddZero(d);
    }
  }

  lemma AddUndo(a: Byte, b: Byte)
    ensures Add(a, Add(a, b)) == b
  {
    assert Xor(a, Xor(a, b)) == b;
  }

  lemma Rearrange(fed: Byte, dot: Byte, after: Byte, before: Byte, b: Byte)
    requires Add(fed, after) == Add(before, b)
    ensures Add(Add(dot, before), b) == Add(Add(fed, dot), after)
  {
    hide Add;
    AddAssoc(dot, before, b);
    AddComm(fed, dot);
    AddAssoc(dot, fed, after);
  }

  // --- the codeword ---

  /** The n highest of the m parity bytes, highest first, as build_codeword appends them. */
  ghost function Parity(l: seq<Byte>, m: nat, n: nat): (p: seq<Byte>)
    requires n <= m
    ensures |p| == n
    ensures forall i :: 0 <= i < n ==> p[i] == Coef(l, m - 1 - i)
  {
    seq(n, i requires 0 <= i < n => Coef(l, m - 1 - i))
  }

  /** The n highest parity bytes as a value at z, highest first. */
  lemma {:induction false} SyndromeOfParity(msg: seq<Byte>, l: seq<Byte>, j: nat, m: nat, n: nat)
    requires n <= m
    requires Eval(l, Exp(j), m) == Mul(Pow(Exp(j), m), Syndrome(msg, j))
    ensures Mul(Pow(Exp(j), m - n), Syndrome(msg + Parity(l, m, n), j)) == Eval(l, Exp(j), m - n)
  {
    hide *;
    if n == 0 {
      assert msg + Parity(l, m, 0) == msg;
    } else {
      SyndromeOfParity(msg, l, j, m, n - 1);
      var w := msg + Parity(l, m, n - 1);
      EvalUnfold(l, Exp(j), m - n);
      LongerWord(w, Coef(l, m - n), j);
      MoreParity(msg, l, m, n);
      ParityAlgebra(Exp(j), Pow(Exp(j), m - n), Coef(l, m - n), Syndrome(w, j), Eval(l, Exp(j), m - n));
    }
  }

  lemma MoreParity(msg: seq<Byte>, l: seq<Byte>, m: nat, n: nat)
    requires 0 < n <= m
    ensures msg + Parity(l, m, n) == msg + Parity(l, m, n - 1) + [Coef(l, m - n)]
  {}

  lemma EvalUnfold(l: seq<Byte>, z: Byte, n: nat)
    ensures Eval(l, z, n + 1) == Add(Eval(l, z, n), Mul(Coef(l, n), Pow(z, n))) && Pow(z, n + 1) == Mul(z, Pow(z, n))
  {}

  lemma LongerWord(w: seq<Byte>, c: Byte, j: nat)
    ensures Syndrome(w + [c], j) == Add(c, Mul(Exp(j), Syndrome(w, j)))
  {
    hide Exp;
    assert (w + [c])[..|w|] == w;
  }

  lemma ParityAlgebra(z: Byte, p: Byte, c: Byte, s: Byte, e: Byte)
    requires Mul(Mul(z, p), s) == Add(e, Mul(c, p))
    ensures Mul(p, Add(c, Mul(z, s))) == e
  {
    hide Add, Mul;
    MulAddRight(p, c, Mul(z, s));
    MulSwap(p, z, s);
    MulAssoc(z, p, s);
    MulComm(p, c);
    AddComm(Mul(c, p), Add(e, Mul(c, p)));
    AddCancel(e, Mul(c, p));
  }

  ghost predicate ZeroSyndromes(word: seq<Byte>) {
    forall j: nat :: j < NPAR ==> Syndrome(word, j) == ZERO
  }

  /** A register that holds the message's remainder completes it to a word with no syndromes. */
  lemma ParityCompletes(msg: seq<Byte>, l: seq<Byte>, m: nat)
    requires m == NPAR
    requires forall j: nat :: j < m ==> Eval(l, Exp(j), m) == Mul(Pow(Exp(j), m), Syndrome(msg, j))
    ensures ZeroSyndromes(msg + Parity(l, m, m))
  {
    hide Add, Mul, Exp, Coef, Syndrome, Eval, Pow;
    forall j: nat | j < m
      ensures Syndrome(msg + Parity(l, m, m), j) == ZERO
    {
      SyndromeOfParity(msg, l, j, m, m);
      EvalNothing(l, Exp(j));
      PowNothing(Exp(j));
      MulOne(Syndrome(msg + Parity(l, m, m), j));
    }
  }

  lemma PowNothing(z: Byte)
    ensures Pow(z, 0) == ONE
  {}

  lemma EvalNothing(p: seq<Byte>, z: Byte)
    ensures Eval(p, z, 0) == ZERO
  {}

  /** Two words with no syndromes that differ in at most NPAR places are the same word. */
  lemma CodewordsAreFarApart(c: seq<Byte>, d: seq<Byte>)
    requires |c| == |d| <= 255 && ZeroSyndromes(c) && ZeroSyndromes(d)
    requires Distance(c, d) <= NPAR
    ensures c == d
  {
    hide Exp, Syndrome, PowerSum, Add;
    var locs := ErrorLocations(c, d);
    var xs, ys := PointsAt(locs), ValuesAt(c, d, locs);
    forall t | 0 <= t < |xs|
      ensures xs[t] != ZERO
    {
      ExpNonZero(locs[t]);
    }
    forall t, u | 0 <= t < u < |xs|
      ensures xs[t] != xs[u]
    {
      ExpInjective(locs[u], locs[t]);
    }
    forall j: nat | j < |xs|
      ensures PowerSum(xs, ys, j) == ZERO
    {
      SyndromeOfDifference(c, d, [], j);
      AddZero(ZERO);
    }
    if locs != [] {
      var k := |c| - 1 - locs[0];
      assert locs[0] in locs;
      AddCancel(c[k], d[k]);
      assert ys[0] != ZERO;
      Vandermonde(xs, ys);
    }
    NoLocationsNoDifference(c, d);
  }

  lemma NoLocationsNoDifference(c: seq<Byte>, d: seq<Byte>)
    requires |c| == |d| && ErrorLocations(c, d) == []
    ensures c == d
  {
    forall k | 0 <= k < |c|
      ensures c[k] == d[k]
    {
      var i: nat := |c| - 1 - k;
      assert i in ErrorLocations(c, d) <==> c[|c| - 1 - i] != d[|c| - 1 - i];
    }
  }
}

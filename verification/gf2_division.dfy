/** Division of binary polynomials by a generator of degree 16, coefficients from the highest power down. */
module Gf2Division {

  type Word = s: seq<bool> | |s| == 16 witness seq(16, _ => false)

  type Octet = s: seq<bool> | |s| == 8 witness seq(8, _ => false)

  function Join(a: seq<bool>, b: seq<bool>): (w: Word)
    requires |a| + |b| == 16
  {
    a + b
  }

  function Zeros(n: nat): (z: seq<bool>)
    ensures |z| == n && forall i :: 0 <= i < n ==> !z[i]
  {
    seq(n, _ => false)
  }

  function Xor(a: seq<bool>, b: seq<bool>): (c: seq<bool>)
    requires |a| == |b|
    ensures |c| == |a| && forall i :: 0 <= i < |a| ==> c[i] == (a[i] != b[i])
  {
    seq(|a|, i requires 0 <= i < |a| => a[i] != b[i])
  }

  function Scaled(d: bool, g: seq<bool>): (r: seq<bool>)
    ensures |r| == |g| && forall i :: 0 <= i < |g| ==> r[i] == (d && g[i])
  {
    if d then g else Zeros(|g|)
  }

  /** Taking in one more coefficient: the register holds the remainder modulo x^16 + g. */
  function Shift(g: Word, s: Word, d: bool): (r: Word) {
    Xor(s[1..] + [d], Scaled(s[0], g))
  }

  /** The register after all of p, starting at s. */
  function Divide(g: Word, s: Word, p: seq<bool>): (r: Word) {
    if p == [] then s else Shift(g, Divide(g, s, p[..|p| - 1]), p[|p| - 1])
  }

  /** The remainder of p. */
  function Remainder(g: Word, p: seq<bool>): (r: Word) {
    Divide(g, Zeros(16), p)
  }

  /** The product of q and x^16 + g. */
  function TimesGenerator(g: Word, q: seq<bool>): (r: seq<bool>)
    ensures |r| == |q| + 16
  {
    if q == [] then Zeros(16)
    else Xor(TimesGenerator(g, q[..|q| - 1]) + [false], Zeros(|q| - 1) + Scaled(q[|q| - 1], [true] + g))
  }

  lemma DivideStep(g: Word, s: Word, p: seq<bool>, d: bool)
    ensures Divide(g, s, p + [d]) == Shift(g, Divide(g, s, p), d)
  {
    assert (p + [d])[..|p|] == p;
  }

  lemma {:induction false} DivideSplit(g: Word, s: Word, p: seq<bool>, t: seq<bool>)
    ensures Divide(g, s, p + t) == Divide(g, Divide(g, s, p), t)
  {
    if t == [] {
      assert p + t == p;
    } else {
      var last := |t| - 1;
      assert p + t == p + t[..last] + [t[last]];
      DivideStep(g, s, p + t[..last], t[last]);
      DivideSplit(g, s, p, t[..last]);
    }
  }

  lemma XorPairs(a: seq<bool>, b: seq<bool>, c: seq<bool>, d: seq<bool>)
    requires |a| == |b| == |c| == |d|
    ensures Xor(Xor(a, b), Xor(c, d)) == Xor(Xor(a, c), Xor(b, d))
  {}

  /** Division is linear. */
  lemma ShiftLinear(g: Word, s: Word, t: Word, d: bool, e: bool)
    ensures Shift(g, Xor(s, t), d != e) == Xor(Shift(g, s, d), Shift(g, t, e))
  {
    assert Xor(s, t)[1..] + [d != e] == Xor(s[1..] + [d], t[1..] + [e]);
    assert Scaled(Xor(s, t)[0], g) == Xor(Scaled(s[0], g), Scaled(t[0], g));
    XorPairs(s[1..] + [d], t[1..] + [e], Scaled(s[0], g), Scaled(t[0], g));
  }

  lemma {:induction false} DivideLinear(g: Word, s: Word, t: Word, p: seq<bool>, q: seq<bool>)
    requires |p| == |q|
    ensures Divide(g, Xor(s, t), Xor(p, q)) == Xor(Divide(g, s, p), Divide(g, t, q))
  {
    if p != [] {
      var n := |p| - 1;
      DivideLinear(g, s, t, p[..n], q[..n]);
      assert Xor(p, q)[..n] == Xor(p[..n], q[..n]);
      ShiftLinear(g, Divide(g, s, p[..n]), Divide(g, t, q[..n]), p[n], q[n]);
    }
  }

  lemma ZeroPlusZero(n: nat)
    ensures Xor(Zeros(n), Zeros(n)) == Zeros(n)
  {}

  lemma RemainderLinear(g: Word, p: seq<bool>, q: seq<bool>)
    requires |p| == |q|
    ensures Remainder(g, Xor(p, q)) == Xor(Remainder(g, p), Remainder(g, q))
  {
    ZeroPlusZero(16);
    DivideLinear(g, Zeros(16), Zeros(16), p, q);
  }

  /** Nothing is reduced while coefficients only move up from an empty register. */
  lemma {:induction false} DivideShort(g: Word, p: seq<bool>)
    requires |p| <= 16
    ensures Remainder(g, p) == Zeros(16 - |p|) + p
  {
    if p == [] {
    } else {
      var n := |p| - 1;
      DivideShort(g, p[..n]);
      var s := Zeros(16 - n) + p[..n];
      assert s[1..] + [p[n]] == Zeros(16 - |p|) + p;
      assert Xor(s[1..] + [p[n]], Zeros(16)) == s[1..] + [p[n]];
      assert !s[0];
    }
  }

  lemma {:induction false} DivideZeros(g: Word, n: nat)
    ensures Divide(g, Zeros(16), Zeros(n)) == Zeros(16)
  {
    if n > 0 {
      DivideZeros(g, n - 1);
      assert Zeros(n)[..n - 1] == Zeros(n - 1);
      assert Zeros(16)[1..] + [false] == Zeros(16);
      ZeroPlusZero(16);
    }
  }

  lemma LeadingZeros(g: Word, n: nat, p: seq<bool>)
    ensures Remainder(g, Zeros(n) + p) == Remainder(g, p)
  {
    DivideSplit(g, Zeros(16), Zeros(n), p);
    DivideZeros(g, n);
  }

  /** The generator itself leaves no remainder. */
  lemma GeneratorDivides(g: Word, d: bool)
    ensures Remainder(g, Scaled(d, [true] + g)) == Zeros(16)
  {
    var p := Scaled(d, [true] + g);
    hide Divide;
    DivideShort(g, p[..16]);
    assert Zeros(0) + p[..16] == p[..16];
    assert p == p[..16] + [p[16]];
    DivideStep(g, Zeros(16), p[..16], p[16]);
    ShiftOutGenerator(g, d, p[..16]);
  }

  lemma ShiftOutGenerator(g: Word, d: bool, s: Word)
    requires s == Scaled(d, [true] + g)[..16]
    ensures Shift(g, s, Scaled(d, [true] + g)[16]) == Zeros(16)
  {
    assert s[0] == d;
    assert s[1..] + [Scaled(d, [true] + g)[16]] == Scaled(d, g);
    assert Xor(Scaled(d, g), Scaled(d, g)) == Zeros(16);
  }

  /** Products with the generator leave no remainder ... */
  lemma {:induction false} MultipleHasNoRemainder(g: Word, q: seq<bool>)
    ensures Remainder(g, TimesGenerator(g, q)) == Zeros(16)
  {
    if q == [] {
      DivideZeros(g, 16);
    } else {
      var n := |q| - 1;
      var lower := TimesGenerator(g, q[..n]) + [false];
      var top := Scaled(q[n], [true] + g);
      MultipleHasNoRemainder(g, q[..n]);
      DivideStep(g, Zeros(16), TimesGenerator(g, q[..n]), false);
      assert Zeros(16)[1..] + [false] == Zeros(16);
      ZeroPlusZero(16);
      LeadingZeros(g, n, top);
      GeneratorDivides(g, q[n]);
      RemainderLinear(g, lower, Zeros(n) + top);
    }
  }

  /** ... and every polynomial is such a product plus its remainder. */
  lemma {:induction false} QuotientAndRemainder(g: Word, p: seq<bool>) returns (q: seq<bool>)
    requires |p| >= 16
    ensures |q| == |p| - 16 && p == Xor(TimesGenerator(g, q), Zeros(|q|) + Remainder(g, p))
  {
    hide *;
    if |p| == 16 {
      q := [];
      NoQuotient(g, p, q);
    } else {
      var h := p[..|p| - 1];
      var q' := QuotientAndRemainder(g, h);
      q := q' + [Remainder(g, h)[0]];
      QuotientGrows(g, h, p[|p| - 1], q');
      assert p == h + [p[|p| - 1]];
    }
  }

  lemma NoQuotient(g: Word, p: seq<bool>, q: seq<bool>)
    requires |p| == 16 && q == []
    ensures p == Xor(TimesGenerator(g, q), Zeros(|q|) + Remainder(g, p))
  {
    DivideShort(g, p);
    assert Zeros(0) + p == p;
    assert Xor(Zeros(16), p) == p;
  }

  lemma QuotientGrows(g: Word, h: seq<bool>, d: bool, q: seq<bool>)
    requires |h| == |q| + 16 && h == Xor(TimesGenerator(g, q), Zeros(|q|) + Remainder(g, h))
    ensures h + [d] ==
            Xor(TimesGenerator(g, q + [Remainder(g, h)[0]]), Zeros(|q| + 1) + Remainder(g, h + [d]))
  {
    TimesOneMore(g, q, Remainder(g, h)[0]);
    DivideStep(g, Zeros(16), h, d);
    hide Xor, Zeros, Shift, Scaled, TimesGenerator;
    QuotientStep(g, TimesGenerator(g, q), Remainder(g, h), d, |q|);
  }

  lemma TimesOneMore(g: Word, q: seq<bool>, d: bool)
    ensures TimesGenerator(g, q + [d]) == Xor(TimesGenerator(g, q) + [false], Zeros(|q|) + Scaled(d, [true] + g))
  {
    assert (q + [d])[..|q|] == q;
    hide Xor, Zeros, Scaled;
  }

  lemma QuotientStep(g: Word, product: seq<bool>, s: Word, d: bool, n: nat)
    requires |product| == n + 16
    ensures Xor(product, Zeros(n) + s) + [d]
         == Xor(Xor(product + [false], Zeros(n) + Scaled(s[0], [true] + g)), Zeros(n + 1) + Shift(g, s, d))
  {
    var l := Xor(product, Zeros(n) + s) + [d];
    var top := Zeros(n) + Scaled(s[0], [true] + g);
    var rest := Zeros(n + 1) + Shift(g, s, d);
    forall i | 0 <= i < n + 17
      ensures l[i] == Xor(Xor(product + [false], top), rest)[i]
    {
      if i < n {
      } else if i == n {
      } else if i < n + 16 {
        assert s[1..][i - n - 1] == s[i - n];
      } else {
      }
    }
  }

  ghost predicate MultipleOf(g: Word, p: seq<bool>) {
    exists q :: p == TimesGenerator(g, q)
  }

  /** p is a multiple of the generator exactly when its remainder is zero. */
  lemma MultipleIffNoRemainder(g: Word, p: seq<bool>)
    requires |p| >= 16
    ensures Remainder(g, p) == Zeros(16) <==> MultipleOf(g, p)
  {
    if Remainder(g, p) == Zeros(16) {
      var q := QuotientAndRemainder(g, p);
      assert Zeros(|q|) + Zeros(16) == Zeros(|p|);
      assert Xor(TimesGenerator(g, q), Zeros(|p|)) == TimesGenerator(g, q);
    }
    forall q | p == TimesGenerator(g, q)
      ensures Remainder(g, p) == Zeros(16)
    {
      MultipleHasNoRemainder(g, q);
    }
  }

  /** With a constant term, stepping with zeros loses nothing: only a zero register ends as zero. */
  lemma {:induction false} ZeroStepsInjective(g: Word, s: Word, n: nat)
    requires g[15]
    ensures Divide(g, s, Zeros(n)) == Zeros(16) <==> s == Zeros(16)
  {
    if n > 0 {
      assert Zeros(n)[..n - 1] == Zeros(n - 1);
      ZeroStepsInjective(g, s, n - 1);
      ZeroStep(g, Divide(g, s, Zeros(n - 1)));
    }
  }

  lemma ZeroStep(g: Word, t: Word)
    requires g[15]
    ensures Shift(g, t, false) == Zeros(16) <==> t == Zeros(16)
  {
    var r := Shift(g, t, false);
    assert r[15] == (t[0] && g[15]);
    if r == Zeros(16) {
      assert !t[0];
      forall i | 0 < i < 16
        ensures !t[i]
      {
        assert r[i - 1] == t[1..][i - 1];
      }
    }
    if t == Zeros(16) {
      assert t[1..] + [false] == Zeros(16);
      ZeroPlusZero(16);
    }
  }

  /** An error burst of at most 16 bits, wherever it falls, never turns a multiple of the generator into another. */
  lemma BurstDetected(g: Word, p: seq<bool>, before: nat, burst: seq<bool>, after: nat)
    requires g[15] && |burst| <= 16 && |p| == before + |burst| + after && Remainder(g, p) == Zeros(16)
    ensures Remainder(g, Xor(p, Zeros(before) + burst + Zeros(after))) == Zeros(16) <==> burst == Zeros(|burst|)
  {
    hide Divide;
    var e := Zeros(before) + burst + Zeros(after);
    RemainderLinear(g, p, e);
    assert Xor(Zeros(16), Remainder(g, e)) == Remainder(g, e);
    assert e == Zeros(before) + (burst + Zeros(after));
    LeadingZeros(g, before, burst + Zeros(after));
    DivideSplit(g, Zeros(16), burst, Zeros(after));
    DivideShort(g, burst);
    var s: Word := Zeros(16 - |burst|) + burst;
    ZeroStepsInjective(g, s, after);
    if s == Zeros(16) {
      assert s[16 - |burst|..] == burst;
      assert Zeros(16)[16 - |burst|..] == Zeros(|burst|);
    }
    if burst == Zeros(|burst|) {
      assert s == Zeros(16);
    }
  }

  // --- generators that x + 1 divides ---

  /** Whether s has an odd number of ones. */
  function Odd(s: seq<bool>): bool {
    s != [] && Odd(s[..|s| - 1]) != s[|s| - 1]
  }

  lemma {:induction false} OddXor(a: seq<bool>, b: seq<bool>)
    requires |a| == |b|
    ensures Odd(Xor(a, b)) == (Odd(a) != Odd(b))
  {
    if a != [] {
      var n := |a| - 1;
      assert Xor(a, b)[..n] == Xor(a[..n], b[..n]);
      OddXor(a[..n], b[..n]);
    }
  }

  lemma {:induction false} OddJoin(a: seq<bool>, b: seq<bool>)
    ensures Odd(a + b) == (Odd(a) != Odd(b))
  {
    if b == [] {
      assert a + b == a;
    } else {
      var n := |b| - 1;
      assert (a + b)[..|a + b| - 1] == a + b[..n];
      OddJoin(a, b[..n]);
    }
  }

  lemma {:induction false} EvenZeros(n: nat)
    ensures !Odd(Zeros(n))
  {
    if n > 0 {
      assert Zeros(n)[..n - 1] == Zeros(n - 1);
      EvenZeros(n - 1);
    }
  }

  lemma OneBit(d: bool)
    ensures Odd([d]) == d
  {
    assert [d][..0] == [];
  }

  /** x^16 + g has an even number of terms: the register keeps the parity of what it took in. */
  lemma {:induction false} ParityKept(g: Word, p: seq<bool>)
    requires Odd(g)
    ensures Odd(Remainder(g, p)) == Odd(p)
  {
    hide Odd;
    if p == [] {
      EvenZeros(16);
      NoParity();
    } else {
      var n := |p| - 1;
      ParityKept(g, p[..n]);
      var s := Remainder(g, p[..n]);
      assert p == p[..n] + [p[n]] && s == [s[0]] + s[1..];
      OddXor(s[1..] + [p[n]], Scaled(s[0], g));
      OddJoin(s[1..], [p[n]]);
      OddJoin(p[..n], [p[n]]);
      OddJoin([s[0]], s[1..]);
      OneBit(s[0]);
      EvenZeros(16);
    }
  }

  lemma NoParity()
    ensures !Odd([])
  {}

  /** So no odd number of wrong bits, wherever they are, turns a multiple into another. */
  lemma OddErrorsDetected(g: Word, p: seq<bool>, e: seq<bool>)
    requires Odd(g) && |p| == |e| && Remainder(g, p) == Zeros(16) && Odd(e)
    ensures Remainder(g, Xor(p, e)) != Zeros(16)
  {
    RemainderLinear(g, p, e);
    ParityKept(g, e);
    EvenZeros(16);
    hide Odd, Divide;
    assert Xor(Zeros(16), Remainder(g, e)) == Remainder(g, e);
  }
}

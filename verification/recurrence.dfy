/** Linear recurrences over the byte field and the shortest-recurrence theory behind Berlekamp-Massey. */
module Recurrence {
  import opened Galois

  /** Coefficient i of the polynomial p; zero outside the stored range. */
  ghost function Coef(p: seq<Byte>, i: int): Byte {
    if 0 <= i < |p| then p[i] else ZERO
  }

  /** The first l terms of the convolution of c and s at position n. */
  ghost function Dot(c: seq<Byte>, s: seq<Byte>, n: int, l: nat): Byte {
    if l == 0 then ZERO else Add(Dot(c, s, n, l - 1), Mul(Coef(c, l - 1), Coef(s, n - (l - 1))))
  }

  lemma {:induction false} DotCombine(e: seq<Byte>, c: seq<Byte>, k: Byte, d: seq<Byte>, s: seq<Byte>, n: int, l: nat)
    requires forall i :: 0 <= i < l ==> Coef(e, i) == Add(Coef(c, i), Mul(k, Coef(d, i)))
    ensures Dot(e, s, n, l) == Add(Dot(c, s, n, l), Mul(k, Dot(d, s, n, l)))
  {
    hide Add, Mul, Coef;
    if l == 0 {
      MulZero(k);
      AddZero(ZERO);
    } else {
      var x, y, t := Coef(c, l - 1), Coef(d, l - 1), Coef(s, n - (l - 1));
      DotCombine(e, c, k, d, s, n, l - 1);
      MulAddLeft(x, Mul(k, y), t);
      MulAssoc(k, y, t);
      MulAddRight(k, Dot(d, s, n, l - 1), Mul(y, t));
      AddSwap(Dot(c, s, n, l - 1), Mul(k, Dot(d, s, n, l - 1)), Mul(x, t), Mul(k, Mul(y, t)));
    }
  }

  lemma {:induction false} DotExtend(c: seq<Byte>, s: seq<Byte>, n: int, l: nat, m: nat)
    requires l <= m
    requires forall i :: l <= i < m ==> Coef(c, i) == ZERO
    ensures Dot(c, s, n, m) == Dot(c, s, n, l)
  {
    hide Add, Mul, Coef;
    if l < m {
      DotExtend(c, s, n, l, m - 1);
      assert Coef(c, m - 1) == ZERO;
      MulZero(Coef(s, n - (m - 1)));
      AddZero(Dot(c, s, n, l));
    }
  }

  lemma {:induction false} DotShift(e: seq<Byte>, k: Byte, d: seq<Byte>, s: seq<Byte>, n: int, l: nat)
    requires Coef(e, 0) == ZERO
    requires forall i :: 0 < i <= l ==> Coef(e, i) == Mul(k, Coef(d, i - 1))
    ensures Dot(e, s, n + 1, l + 1) == Mul(k, Dot(d, s, n, l))
  {
    hide Add, Mul, Coef;
    if l == 0 {
      MulZero(Coef(s, n + 1));
      MulZero(k);
      AddZero(ZERO);
      assert Dot(e, s, n + 1, 0) == ZERO;
    } else {
      DotShift(e, k, d, s, n, l - 1);
      var y, t := Coef(d, l - 1), Coef(s, n - (l - 1));
      assert Coef(e, l) == Mul(k, y) && n + 1 - l == n - (l - 1);
      MulAssoc(k, y, t);
      MulAddRight(k, Dot(d, s, n, l - 1), Mul(y, t));
    }
  }

  // --- exchanging the order of a double sum ---

  /** Sum over i < a of c_i times the b-term convolution of e and s at n - i. */
  ghost function Double(c: seq<Byte>, e: seq<Byte>, s: seq<Byte>, n: int, a: nat, b: nat): Byte {
    if a == 0 then ZERO else Add(Double(c, e, s, n, a - 1, b), Mul(Coef(c, a - 1), Dot(e, s, n - (a - 1), b)))
  }

  lemma {:induction false} DoubleGrow(c: seq<Byte>, e: seq<Byte>, s: seq<Byte>, n: int, a: nat, b: nat)
    ensures Double(e, c, s, n, b, a + 1) == Add(Double(e, c, s, n, b, a), Mul(Coef(c, a), Dot(e, s, n - a, b)))
  {
    hide Add, Mul, Coef;
    if b == 0 {
      MulZero(Coef(c, a));
      AddZero(ZERO);
    } else {
      DoubleGrow(c, e, s, n, a, b - 1);
      var x, y, m := Coef(c, a), Coef(e, b - 1), n - (b - 1);
      var t := Coef(s, m - a);
      var p, q := Dot(c, s, m, a), Dot(e, s, n - a, b - 1);
      assert m - a == n - a - (b - 1);
      MulAddRight(y, p, Mul(x, t));
      MulAddRight(x, q, Mul(y, t));
      MulAssoc(y, x, t);
      MulAssoc(x, y, t);
      MulComm(x, y);
      AddSwap(Double(e, c, s, n, b - 1, a), Mul(x, q), Mul(y, p), Mul(x, Mul(y, t)));
    }
  }

  lemma {:induction false} DoubleExchange(c: seq<Byte>, e: seq<Byte>, s: seq<Byte>, n: int, a: nat, b: nat)
    ensures Double(c, e, s, n, a, b) == Double(e, c, s, n, b, a)
  {
    hide Add, Mul, Coef;
    if a == 0 {
      DoubleEmpty(e, c, s, n, b);
    } else {
      DoubleExchange(c, e, s, n, a - 1, b);
      DoubleGrow(c, e, s, n, a - 1, b);
    }
  }

  lemma {:induction false} DoubleEmpty(e: seq<Byte>, c: seq<Byte>, s: seq<Byte>, n: int, b: nat)
    ensures Double(e, c, s, n, b, 0) == ZERO
  {
    hide Add, Mul, Coef;
    if b > 0 {
      DoubleEmpty(e, c, s, n, b - 1);
      MulZero(Coef(e, b - 1));
      AddZero(ZERO);
    }
  }

  lemma {:induction false} DoubleVanishes(c: seq<Byte>, e: seq<Byte>, s: seq<Byte>, n: int, a: nat, b: nat)
    requires forall j :: n - a < j < n ==> Dot(e, s, j, b) == ZERO
    ensures a > 0 ==> Double(c, e, s, n, a, b) == Mul(Coef(c, 0), Dot(e, s, n, b))
  {
    hide Add, Mul, Coef, Dot;
    if a == 1 {
      assert Double(c, e, s, n, 0, b) == ZERO;
      AddZero(Mul(Coef(c, 0), Dot(e, s, n, b)));
    } else if a > 1 {
      DoubleVanishes(c, e, s, n, a - 1, b);
      assert Dot(e, s, n - (a - 1), b) == ZERO;
      MulZero(Coef(c, a - 1));
      AddZero(Double(c, e, s, n, a - 1, b));
    }
  }

  // --- recurrences ---

  /** What the recurrence c of length len leaves over at position n. */
  ghost function Discrepancy(c: seq<Byte>, len: nat, s: seq<Byte>, n: int): Byte {
    Dot(c, s, n, len + 1)
  }

  /** c is a recurrence of length len that produces s[len..n] from what comes before. */
  ghost predicate Generates(c: seq<Byte>, len: nat, s: seq<Byte>, n: nat) {
    && Coef(c, 0) == ONE
    && (forall i :: i > len ==> Coef(c, i) == ZERO)
    && Silent(c, len, s, len, n)
  }

  /** c of length len leaves nothing over at the positions from lo up to hi. */
  ghost predicate Silent(c: seq<Byte>, len: nat, s: seq<Byte>, lo: int, hi: int) {
    forall j :: lo <= j < hi ==> Discrepancy(c, len, s, j) == ZERO
  }

  /** No recurrence that produces s[..n] is shorter than len. */
  ghost predicate Shortest(len: nat, s: seq<Byte>, n: nat) {
    forall c, m: nat :: Generates(c, m, s, n) ==> len <= m
  }

  /** A recurrence that fails at n forces every recurrence that gets past n to be long. */
  lemma MasseyBound(c: seq<Byte>, len: nat, e: seq<Byte>, m: nat, s: seq<Byte>, n: nat)
    requires Generates(c, len, s, n) && len <= n
    requires Discrepancy(c, len, s, n) != ZERO
    requires Generates(e, m, s, n + 1)
    ensures len + m >= n + 1
  {
    hide Add, Mul, Coef, Dot, Double;
    if len + m <= n {
      assert Discrepancy(e, m, s, n) == ZERO;
      var a, b := len + 1, m + 1;
      forall j | n - a < j < n
        ensures Dot(e, s, j, b) == ZERO
      {
        assert Discrepancy(e, m, s, j) == ZERO;
      }
      forall j | n - b < j < n
        ensures Dot(c, s, j, a) == ZERO
      {
        assert Discrepancy(c, len, s, j) == ZERO;
      }
      DoubleVanishes(c, e, s, n, a, b);
      DoubleVanishes(e, c, s, n, b, a);
      DoubleExchange(c, e, s, n, a, b);
      MulOne(Dot(e, s, n, b));
      MulOne(Dot(c, s, n, a));
    }
  }

  lemma GeneratesLess(c: seq<Byte>, len: nat, s: seq<Byte>, n: nat)
    requires Generates(c, len, s, n + 1)
    ensures Generates(c, len, s, n)
  {
    hide Coef, Discrepancy;
  }

  /** A shortest recurrence stays shortest when the sequence gets longer. */
  lemma ShortestGrows(len: nat, s: seq<Byte>, n: nat)
    requires Shortest(len, s, n)
    ensures Shortest(len, s, n + 1)
  {
    var n' := n + 1;
    forall c, m: nat | Generates(c, m, s, n')
      ensures len <= m
    {
      GeneratesLess(c, m, s, n);
    }
  }

  /** After a failure the length Massey's rule gives is again shortest. */
  lemma ShortestAfterFailure(c: seq<Byte>, len: nat, s: seq<Byte>, n: nat)
    requires Generates(c, len, s, n) && len <= n
    requires Discrepancy(c, len, s, n) != ZERO
    ensures Shortest(n + 1 - len, s, n + 1)
  {
    var n' := n + 1;
    forall e, m: nat | Generates(e, m, s, n')
      ensures n + 1 - len <= m
    {
      MasseyBound(c, len, e, m, s, n);
    }
  }

  /** The shifted and scaled earlier recurrence d: silent before n, one at n. */
  ghost predicate Companion(d: seq<Byte>, len: nat, s: seq<Byte>, n: nat)
    requires len <= n
  {
    && Coef(d, 0) == ZERO
    && (forall i :: i > n + 1 - len ==> Coef(d, i) == ZERO)
    && Silent(d, n + 1 - len, s, n + 1 - len, n)
    && (len > 0 ==> Discrepancy(d, n + 1 - len, s, n) == ONE)
  }

  /** q is k times p, moved up one place. */
  ghost predicate ShiftedScaled(q: seq<Byte>, k: Byte, p: seq<Byte>) {
    Coef(q, 0) == ZERO && forall i :: i > 0 ==> Coef(q, i) == Mul(k, Coef(p, i - 1))
  }

  /** e is c + k d. */
  ghost predicate Combined(e: seq<Byte>, c: seq<Byte>, k: Byte, d: seq<Byte>) {
    forall i :: Coef(e, i) == Add(Coef(c, i), Mul(k, Coef(d, i)))
  }

  lemma CompanionShifts(d: seq<Byte>, q: seq<Byte>, len: nat, s: seq<Byte>, n: nat)
    requires len <= n && Companion(d, len, s, n) && ShiftedScaled(q, ONE, d)
    ensures Companion(q, len, s, n + 1)
  {
    hide Mul, Dot, Coef;
    forall i | i > n + 2 - len
      ensures Coef(q, i) == ZERO
    {
      assert Coef(d, i - 1) == ZERO;
      MulOne(ZERO);
    }
    var m := n + 2 - len;
    forall j | m <= j <= n + 1
      ensures Discrepancy(q, m, s, j) == Discrepancy(d, m - 1, s, j - 1)
    {
      DotShift(q, ONE, d, s, j - 1, m);
      MulOne(Dot(d, s, j - 1, m));
    }
  }

  lemma CompanionReplaced(c: seq<Byte>, q: seq<Byte>, len: nat, s: seq<Byte>, n: nat)
    requires Generates(c, len, s, n) && len <= n
    requires Discrepancy(c, len, s, n) != ZERO
    requires ShiftedScaled(q, Inv(Discrepancy(c, len, s, n)), c)
    ensures Companion(q, n + 1 - len, s, n + 1)
  {
    hide Mul, Dot, Coef, Inv;
    var d := Discrepancy(c, len, s, n);
    forall i | i > len + 1
      ensures Coef(q, i) == ZERO
    {
      assert Coef(c, i - 1) == ZERO;
      MulZero(Inv(d));
    }
    var m := len + 1;
    forall j | m <= j <= n + 1
      ensures Discrepancy(q, m, s, j) == Mul(Inv(d), Discrepancy(c, len, s, j - 1))
    {
      DotShift(q, Inv(d), c, s, j - 1, len + 1);
    }
    MulZero(Inv(d));
    MulInv(d);
  }

  /** c + disc * d repairs the failure at n; its length is the longer of the two. */
  lemma Repaired(c: seq<Byte>, d: seq<Byte>, e: seq<Byte>, len: nat, s: seq<Byte>, n: nat)
    requires Generates(c, len, s, n) && len <= n && Companion(d, len, s, n)
    requires Combined(e, c, Discrepancy(c, len, s, n), d)
    ensures Generates(e, if 2 * len <= n then n + 1 - len else len, s, n + 1)
  {
    hide Add, Mul, Dot, Coef;
    var k := Discrepancy(c, len, s, n);
    var m := if 2 * len <= n then n + 1 - len else len;
    MulZero(k);
    AddZero(ONE);
    AddZero(ZERO);
    assert Coef(e, 0) == ONE;
    forall i | i > m
      ensures Coef(e, i) == ZERO
    {}
    forall j | m <= j < n + 1
      ensures Discrepancy(e, m, s, j) == ZERO
    {
      DotCombine(e, c, k, d, s, j, m + 1);
      DotExtend(c, s, j, len + 1, m + 1);
      DotExtend(d, s, j, n + 2 - len, m + 1);
      assert Discrepancy(e, m, s, j) == Add(Discrepancy(c, len, s, j), Mul(k, Discrepancy(d, n + 1 - len, s, j)));
      MulOne(k);
      AddSelf(k);
    }
  }
}

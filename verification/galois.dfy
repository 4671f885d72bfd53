/** The field of bytes: binary polynomials below x^8, multiplied modulo x^8 + x^4 + x^3 + x^2 + 1. */
module Galois {
  import opened Pigeonhole

  /** The bits of a byte, highest first. */
  datatype Byte = Byte(b7: bool, b6: bool, b5: bool, b4: bool, b3: bool, b2: bool, b1: bool, b0: bool)

  const ZERO := Byte(false, false, false, false, false, false, false, false)
  const ONE := Byte(false, false, false, false, false, false, false, true)

  /** Bit k of a byte, least significant first. */
  function BitOf(b: Byte, k: nat): bool
    requires k < 8
  {
    match k
    case 0 => b.b0
    case 1 => b.b1
    case 2 => b.b2
    case 3 => b.b3
    case 4 => b.b4
    case 5 => b.b5
    case 6 => b.b6
    case _ => b.b7
  }

  /** The sum, bit by bit. */
  ghost function Add(a: Byte, b: Byte): Byte {
    SumExists(a, b);
    var r :| IsSum(a, b, r); r
  }

  ghost predicate IsSum(a: Byte, b: Byte, r: Byte) {
    forall k: nat :: k < 8 ==> BitOf(r, k) == (BitOf(a, k) != BitOf(b, k))
  }

  /** The bits of both bytes compared, field by field. */
  function Differences(a: Byte, b: Byte): Byte {
    Byte(a.b7 != b.b7, a.b6 != b.b6, a.b5 != b.b5, a.b4 != b.b4,
         a.b3 != b.b3, a.b2 != b.b2, a.b1 != b.b1, a.b0 != b.b0)
  }

  lemma DifferencesAreSum(a: Byte, b: Byte)
    ensures IsSum(a, b, Differences(a, b))
  {
    hide BitOf, Differences;
    forall k: nat | k < 8
      ensures BitOf(Differences(a, b), k) == (BitOf(a, k) != BitOf(b, k))
    {
      DifferenceAt(a, b, k);
    }
  }

  lemma DifferenceAt(a: Byte, b: Byte, k: nat)
    requires k < 8
    ensures BitOf(Differences(a, b), k) == (BitOf(a, k) != BitOf(b, k))
  {
    FieldsAreBits(a);
    FieldsAreBits(b);
    FieldsAreBits(Differences(a, b));
    hide BitOf;
    assert k == 0 || k == 1 || k == 2 || k == 3 || k == 4 || k == 5 || k == 6 || k == 7;
  }

  lemma FieldsAreBits(b: Byte)
    ensures BitOf(b, 0) == b.b0 && BitOf(b, 1) == b.b1 && BitOf(b, 2) == b.b2 && BitOf(b, 3) == b.b3
    ensures BitOf(b, 4) == b.b4 && BitOf(b, 5) == b.b5 && BitOf(b, 6) == b.b6 && BitOf(b, 7) == b.b7
  {}

  lemma SumExists(a: Byte, b: Byte)
    ensures exists r :: IsSum(a, b, r)
  {
    hide IsSum, Differences;
    DifferencesAreSum(a, b);
  }

  lemma SumIsUnique(a: Byte, b: Byte, r: Byte, s: Byte)
    requires IsSum(a, b, r) && IsSum(a, b, s)
    ensures r == s
  {
    assert forall k: nat :: k < 8 ==> BitOf(r, k) == BitOf(s, k);
    assert BitOf(r, 0) == BitOf(s, 0) && BitOf(r, 1) == BitOf(s, 1) && BitOf(r, 2) == BitOf(s, 2) &&
      BitOf(r, 3) == BitOf(s, 3);
    assert BitOf(r, 4) == BitOf(s, 4) && BitOf(r, 5) == BitOf(s, 5) && BitOf(r, 6) == BitOf(s, 6) &&
      BitOf(r, 7) == BitOf(s, 7);
  }

  /** The C operator. */
  function Xor(a: Byte, b: Byte): (r: Byte)
    ensures r == Add(a, b)
  {
    XorIsAdd(a, b);
    Differences(a, b)
  }

  lemma XorIsAdd(a: Byte, b: Byte)
    ensures Differences(a, b) == Add(a, b)
  {
    hide IsSum, Differences;
    SumExists(a, b);
    DifferencesAreSum(a, b);
    SumIsUnique(a, b, Differences(a, b), Add(a, b));
  }

  /** Multiplication by x: a shift, and x^4 + x^3 + x^2 + 1 added when x^8 comes out. */
  function XTime(a: Byte): Byte {
    Byte(a.b6, a.b5, a.b4, a.b3 != a.b7, a.b2 != a.b7, a.b1 != a.b7, a.b0, a.b7)
  }

  function ShiftRight(b: Byte): Byte {
    Byte(false, b.b7, b.b6, b.b5, b.b4, b.b3, b.b2, b.b1)
  }

  function Gate(bit: bool, a: Byte): Byte {
    if bit then a else ZERO
  }

  /** Shift and add over the n low bits of b: each set bit adds a times its power of x. */
  function Horner(a: Byte, b: Byte, n: nat): Byte
    decreases n
  {
    if n == 0 then ZERO else Xor(Gate(b.b0, a), XTime(Horner(a, ShiftRight(b), n - 1)))
  }

  /** The product: the value of the scheme after any number of steps that takes in all eight bits. */
  ghost function Mul(a: Byte, b: Byte): Byte {
    HornerSettles(a, b);
    var r :| Settles(a, b, r); r
  }

  ghost predicate Settles(a: Byte, b: Byte, r: Byte) {
    forall n: nat :: n >= 8 ==> Horner(a, b, n) == r
  }

  lemma MulIsHorner(a: Byte, b: Byte, n: nat)
    requires n >= 8
    ensures Mul(a, b) == Horner(a, b, n)
  {
    hide Horner;
  }

  lemma HornerSettles(a: Byte, b: Byte)
    ensures exists r :: Settles(a, b, r)
  {
    hide Horner, Vanishes;
    VanishesAfterEight(b);
    var r := Horner(a, b, 8);
    forall n: nat | n >= 8
      ensures Horner(a, b, n) == r
    {
      HornerStops(a, b, 8, n);
    }
    assert Settles(a, b, r);
  }

  /** Once the bits are used up, further steps change nothing. */
  lemma {:induction false} HornerStops(a: Byte, b: Byte, m: nat, n: nat)
    requires Vanishes(b, m) && m <= n
    ensures Horner(a, b, n) == Horner(a, b, m)
    decreases m
  {
    hide XTime, Add, Xor, Gate, ShiftRight;
    if m == 0 {
      HornerOfZero(a, b, n);
    } else {
      HornerStops(a, ShiftRight(b), m - 1, n - 1);
    }
  }

  lemma {:induction false} HornerOfZero(a: Byte, b: Byte, n: nat)
    requires b == ZERO
    ensures Horner(a, b, n) == ZERO
    decreases n
  {
    if n > 0 { HornerOfZero(a, ShiftRight(b), n - 1); }
  }

  lemma AddComm(a: Byte, b: Byte)
    ensures Add(a, b) == Add(b, a)
  {
    assert Xor(a, b) == Xor(b, a);
  }

  lemma AddAssoc(a: Byte, b: Byte, c: Byte)
    ensures Add(Add(a, b), c) == Add(a, Add(b, c))
  {
    assert Xor(Xor(a, b), c) == Xor(a, Xor(b, c));
  }

  lemma AddZero(a: Byte)
    ensures Add(a, ZERO) == a && Add(ZERO, a) == a
  {
    assert Xor(a, ZERO) == a && Xor(ZERO, a) == a;
  }

  lemma AddSelf(a: Byte)
    ensures Add(a, a) == ZERO
  {
    assert Xor(a, a) == ZERO;
  }

  lemma AddSwap(a: Byte, b: Byte, c: Byte, d: Byte)
    ensures Add(Add(a, b), Add(c, d)) == Add(Add(a, c), Add(b, d))
  {
    assert Xor(Xor(a, b), Xor(c, d)) == Xor(Xor(a, c), Xor(b, d));
  }

  lemma AddCancel(a: Byte, b: Byte)
    ensures Add(Add(a, b), b) == a
    ensures Add(a, b) == ZERO ==> a == b
  {
    assert Xor(Xor(a, b), b) == a;
    AddZero(b);
  }

  lemma XTimeAdd(a: Byte, b: Byte)
    ensures XTime(Add(a, b)) == Add(XTime(a), XTime(b)) && XTime(ZERO) == ZERO
  {
    assert XTime(Xor(a, b)) == Xor(XTime(a), XTime(b));
  }

  lemma GateLinear(bit: bool, a: Byte, c: Byte)
    ensures Gate(bit, Add(a, c)) == Add(Gate(bit, a), Gate(bit, c))
    ensures Gate(bit, XTime(a)) == XTime(Gate(bit, a))
  {
    hide Add, Xor;
    AddZero(ZERO);
  }

  lemma {:induction false} HornerAdd(a: Byte, c: Byte, b: Byte, n: nat)
    ensures Horner(Add(a, c), b, n) == Add(Horner(a, b, n), Horner(c, b, n))
    decreases n
  {
    hide Add, Xor, XTime, Gate, ShiftRight;
    if n == 0 {
      AddZero(ZERO);
    } else {
      var b' := ShiftRight(b);
      HornerAdd(a, c, b', n - 1);
      XTimeAdd(Horner(a, b', n - 1), Horner(c, b', n - 1));
      GateLinear(b.b0, a, c);
      AddSwap(Gate(b.b0, a), Gate(b.b0, c), XTime(Horner(a, b', n - 1)), XTime(Horner(c, b', n - 1)));
    }
  }

  lemma {:induction false} HornerXTime(a: Byte, b: Byte, n: nat)
    ensures Horner(XTime(a), b, n) == XTime(Horner(a, b, n))
    decreases n
  {
    hide Add, Xor, XTime, Gate, ShiftRight;
    XTimeAdd(ZERO, ZERO);
    if n > 0 {
      HornerXTime(a, ShiftRight(b), n - 1);
      XTimeAdd(Gate(b.b0, a), XTime(Horner(a, ShiftRight(b), n - 1)));
      GateLinear(b.b0, a, a);
    }
  }

  lemma {:induction false} HornerZero(b: Byte, n: nat)
    ensures Horner(ZERO, b, n) == ZERO
    decreases n
  {
    hide Add, Xor, XTime, ShiftRight;
    if n > 0 {
      HornerZero(ShiftRight(b), n - 1);
      XTimeAdd(ZERO, ZERO);
      AddZero(ZERO);
    }
  }

  ghost predicate Vanishes(b: Byte, n: nat)
    decreases n
  {
    if n == 0 then b == ZERO else Vanishes(ShiftRight(b), n - 1)
  }

  lemma VanishesAfterEight(b: Byte)
    ensures Vanishes(b, 8)
  {
    VanishesStep(Byte(false, false, false, false, false, false, false, b.b7), 0);
    VanishesStep(Byte(false, false, false, false, false, false, b.b7, b.b6), 1);
    VanishesStep(Byte(false, false, false, false, false, b.b7, b.b6, b.b5), 2);
    VanishesStep(Byte(false, false, false, false, b.b7, b.b6, b.b5, b.b4), 3);
    VanishesStep(Byte(false, false, false, b.b7, b.b6, b.b5, b.b4, b.b3), 4);
    VanishesStep(Byte(false, false, b.b7, b.b6, b.b5, b.b4, b.b3, b.b2), 5);
    VanishesStep(Byte(false, b.b7, b.b6, b.b5, b.b4, b.b3, b.b2, b.b1), 6);
    VanishesStep(b, 7);
  }

  lemma VanishesStep(b: Byte, n: nat)
    requires Vanishes(ShiftRight(b), n)
    ensures Vanishes(b, n + 1)
  {}

  lemma ShiftBack(b: Byte)
    ensures b == Add(Gate(b.b0, ONE), XTime(ShiftRight(b)))
  {
    assert b == Xor(Gate(b.b0, ONE), XTime(ShiftRight(b)));
  }

  lemma {:induction false} HornerOne(b: Byte, n: nat)
    requires Vanishes(b, n)
    ensures Horner(ONE, b, n) == b
    decreases n
  {
    hide Add, Xor, XTime, Gate, ShiftRight;
    if n > 0 {
      HornerOne(ShiftRight(b), n - 1);
      ShiftBack(b);
    }
  }

  lemma {:induction false} HornerSwap(a: Byte, b: Byte, n: nat)
    ensures Horner(a, b, n) == Mul(Horner(ONE, b, n), a)
    decreases n
  {
    hide Add, Xor, XTime, ShiftRight, Mul;
    MulZeroLeft(a);
    if n > 0 {
      var h := Horner(ONE, ShiftRight(b), n - 1);
      HornerSwap(a, ShiftRight(b), n - 1);
      MulAddLeft(Gate(b.b0, ONE), XTime(h), a);
      MulXTimeLeft(h, a);
      MulOneLeft(a);
    }
  }

  lemma MulZeroLeft(b: Byte)
    ensures Mul(ZERO, b) == ZERO
  {
    hide *;
    HornerZero(b, 8);
    MulIsHorner(ZERO, b, 8);
  }

  lemma MulOneLeft(b: Byte)
    ensures Mul(ONE, b) == b
  {
    hide *;
    VanishesAfterEight(b);
    HornerOne(b, 8);
    MulIsHorner(ONE, b, 8);
  }

  lemma MulAddLeft(a: Byte, c: Byte, b: Byte)
    ensures Mul(Add(a, c), b) == Add(Mul(a, b), Mul(c, b))
  {
    hide *;
    HornerAdd(a, c, b, 8);
    MulIsHorner(Add(a, c), b, 8);
    MulIsHorner(a, b, 8);
    MulIsHorner(c, b, 8);
  }

  lemma MulXTimeLeft(a: Byte, b: Byte)
    ensures Mul(XTime(a), b) == XTime(Mul(a, b))
  {
    hide *;
    HornerXTime(a, b, 8);
    MulIsHorner(XTime(a), b, 8);
    MulIsHorner(a, b, 8);
  }

  lemma MulComm(a: Byte, b: Byte)
    ensures Mul(a, b) == Mul(b, a)
  {
    hide *;
    HornerSwap(a, b, 8);
    MulOneLeft(b);
    MulIsHorner(a, b, 8);
    MulIsHorner(ONE, b, 8);
  }

  lemma MulAddRight(a: Byte, b: Byte, c: Byte)
    ensures Mul(a, Add(b, c)) == Add(Mul(a, b), Mul(a, c))
  {
    hide Mul, Add, Xor;
    MulAddLeft(b, c, a);
    MulComm(a, Add(b, c));
    MulComm(a, b);
    MulComm(a, c);
  }

  lemma MulXTimeRight(a: Byte, b: Byte)
    ensures Mul(a, XTime(b)) == XTime(Mul(a, b))
  {
    hide Mul, XTime;
    MulXTimeLeft(b, a);
    MulComm(a, XTime(b));
    MulComm(a, b);
  }

  lemma MulZero(a: Byte)
    ensures Mul(a, ZERO) == ZERO && Mul(ZERO, a) == ZERO
  {
    hide Mul;
    MulZeroLeft(a);
    MulComm(a, ZERO);
  }

  lemma MulOne(a: Byte)
    ensures Mul(a, ONE) == a && Mul(ONE, a) == a
  {
    hide Mul;
    MulOneLeft(a);
    MulComm(a, ONE);
  }

  lemma {:induction false} MulHorner(a: Byte, b: Byte, c: Byte, n: nat)
    ensures Horner(Mul(a, b), c, n) == Mul(a, Horner(b, c, n))
    decreases n
  {
    hide Add, Xor, XTime, ShiftRight, Mul;
    MulZero(a);
    if n > 0 {
      var h := Horner(b, ShiftRight(c), n - 1);
      MulHorner(a, b, ShiftRight(c), n - 1);
      MulAddRight(a, Gate(c.b0, b), XTime(h));
      MulXTimeRight(a, h);
    }
  }

  lemma MulAssoc(a: Byte, b: Byte, c: Byte)
    ensures Mul(Mul(a, b), c) == Mul(a, Mul(b, c))
  {
    hide *;
    MulHorner(a, b, c, 8);
    MulIsHorner(Mul(a, b), c, 8);
    MulIsHorner(b, c, 8);
  }

  // --- powers of the primitive element ---

  function Exp(i: nat): Byte {
    if i == 0 then ONE else XTime(Exp(i - 1))
  }

  lemma {:induction false} ExpAdd(i: nat, j: nat)
    ensures Mul(Exp(i), Exp(j)) == Exp(i + j)
  {
    hide Mul, XTime;
    if i == 0 {
      MulOne(Exp(j));
    } else {
      ExpAdd(i - 1, j);
      MulXTimeLeft(Exp(i - 1), Exp(j));
    }
  }

  lemma XTimeInjective(a: Byte, b: Byte)
    requires XTime(a) == XTime(b)
    ensures a == b
  {}

  lemma {:induction false} ExpCancel(i: nat, d: nat)
    requires Exp(i + d) == Exp(i)
    ensures Exp(d) == ONE
  {
    hide XTime;
    if i > 0 {
      XTimeInjective(Exp(i - 1 + d), Exp(i - 1));
      ExpCancel(i - 1, d);
    }
  }

  // --- the squarings alpha^8, alpha^16, ..., alpha^128 and back to alpha ---

  lemma Squared(i: nat, v: Byte, w: Byte, n: nat)
    requires Exp(i) == v && Mul(v, v) == w && n == i + i
    ensures Exp(n) == w
  {
    hide Mul, XTime, Exp;
    ExpAdd(i, i);
  }

  lemma Exp16(n: nat)
    requires n == 16
    ensures Exp(n) == Byte(false, true, false, false, true, true, false, false)
  {
    ExpLow();
    hide Mul, XTime, Exp;
    Square8();
    Squared(8, Byte(false, false, false, true, true, true, false, true),
            Byte(false, true, false, false, true, true, false, false), n);
  }

  lemma Exp32(n: nat)
    requires n == 32
    ensures Exp(n) == Byte(true, false, false, true, true, true, false, true)
  {
    hide Mul, XTime, Exp;
    Exp16(16);
    Square16();
    Squared(16, Byte(false, true, false, false, true, true, false, false),
            Byte(true, false, false, true, true, true, false, true), n);
  }

  lemma Exp64(n: nat)
    requires n == 64
    ensures Exp(n) == Byte(false, true, false, true, true, true, true, true)
  {
    hide Mul, XTime, Exp;
    Exp32(32);
    Square32();
    Squared(32, Byte(true, false, false, true, true, true, false, true),
            Byte(false, true, false, true, true, true, true, true), n);
  }

  /** alpha returns to one after 255 steps: alpha^256 is alpha. */
  lemma FullCycle(n: nat)
    requires n == 255
    ensures Exp(n) == ONE
  {
    ExpLow();
    hide Mul, XTime, Exp;
    Exp64(64);
    Square64();
    Squared(64, Byte(false, true, false, true, true, true, true, true),
            Byte(true, false, false, false, false, true, false, true), 128);
    Square128();
    Squared(128, Byte(true, false, false, false, false, true, false, true),
            Byte(false, false, false, false, false, false, true, false), 256);
    ExpCancel(1, n);
  }

  lemma ExpLow()
    ensures Exp(1) == Byte(false, false, false, false, false, false, true, false)
    ensures Exp(2) == Byte(false, false, false, false, false, true, false, false)
    ensures Exp(3) == Byte(false, false, false, false, true, false, false, false)
    ensures Exp(5) == Byte(false, false, true, false, false, false, false, false)
    ensures Exp(8) == Byte(false, false, false, true, true, true, false, true)
  {}

  lemma Square8()
    ensures var v := Byte(false, false, false, true, true, true, false, true);
            Mul(v, v) == Byte(false, true, false, false, true, true, false, false)
  {
    MulIsHorner(Byte(false, false, false, true, true, true, false, true),
                Byte(false, false, false, true, true, true, false, true), 8);
  }
  lemma Square16()
    ensures var v := Byte(false, true, false, false, true, true, false, false);
            Mul(v, v) == Byte(true, false, false, true, true, true, false, true)
  {
    MulIsHorner(Byte(false, true, false, false, true, true, false, false),
                Byte(false, true, false, false, true, true, false, false), 8);
  }
  lemma Square32()
    ensures var v := Byte(true, false, false, true, true, true, false, true);
            Mul(v, v) == Byte(false, true, false, true, true, true, true, true)
  {
    MulIsHorner(Byte(true, false, false, true, true, true, false, true),
                Byte(true, false, false, true, true, true, false, true), 8);
  }
  lemma Square64()
    ensures var v := Byte(false, true, false, true, true, true, true, true);
            Mul(v, v) == Byte(true, false, false, false, false, true, false, true)
  {
    MulIsHorner(Byte(false, true, false, true, true, true, true, true),
                Byte(false, true, false, true, true, true, true, true), 8);
  }
  lemma Square128()
    ensures var v := Byte(true, false, false, false, false, true, false, true);
            Mul(v, v) == Byte(false, false, false, false, false, false, true, false)
  {
    MulIsHorner(Byte(true, false, false, false, false, true, false, true),
                Byte(true, false, false, false, false, true, false, true), 8);
  }

  lemma ProperOrders(i: nat)
    requires i == 15 || i == 51 || i == 85
    ensures Exp(i) != ONE
  {
    hide Mul, XTime, Exp;
    ExpLow();
    Exp16(16);
    Exp32(32);
    Exp64(64);
    ExpAdd(15, 1);
    ExpAdd(3, 16);
    ExpAdd(19, 32);
    ExpAdd(5, 16);
    ExpAdd(21, 64);
    MulOneLeft(Exp(1));
    Product19();
    Product51();
    Product21();
    Product85();
  }

  lemma Product19()
    ensures Mul(Byte(false, false, false, false, true, false, false, false),
                Byte(false, true, false, false, true, true, false, false))
         == Byte(false, true, false, true, true, false, true, false)
  {
    MulIsHorner(Byte(false, false, false, false, true, false, false, false),
                Byte(false, true, false, false, true, true, false, false), 8);
  }

  lemma Product51()
    ensures Mul(Byte(false, true, false, true, true, false, true, false),
                Byte(true, false, false, true, true, true, false, true))
         == Byte(false, false, false, false, true, false, true, false)
  {
    MulIsHorner(Byte(false, true, false, true, true, false, true, false),
                Byte(true, false, false, true, true, true, false, true), 8);
  }

  lemma Product21()
    ensures Mul(Byte(false, false, true, false, false, false, false, false),
                Byte(false, true, false, false, true, true, false, false))
         == Byte(false, true, true, true, false, true, false, true)
  {
    MulIsHorner(Byte(false, false, true, false, false, false, false, false),
                Byte(false, true, false, false, true, true, false, false), 8);
  }

  lemma Product85()
    ensures Mul(Byte(false, true, true, true, false, true, false, true),
                Byte(false, true, false, true, true, true, true, true))
         == Byte(true, true, false, true, false, true, true, false)
  {
    MulIsHorner(Byte(false, true, true, true, false, true, false, true),
                Byte(false, true, false, true, true, true, true, true), 8);
  }

  lemma {:induction false} ExpMultiple(m: nat, q: nat)
    requires Exp(m) == ONE
    ensures Exp(m * q) == ONE
  {
    hide Mul, XTime, Exp;
    if q == 0 {
      assert Exp(0) == ONE by { ExpZero(); }
    } else {
      ExpMultiple(m, q - 1);
      assert m * q == m * (q - 1) + m;
      ExpAdd(m * (q - 1), m);
      MulOne(ONE);
    }
  }

  lemma ExpZero()
    ensures Exp(0) == ONE
  {}

  lemma DivisorsOf255(m: nat)
    requires 0 < m < 255 && 255 % m == 0
    ensures 85 % m == 0 || 51 % m == 0 || 15 % m == 0
  {
    var q := 255 / m;
    assert m * q == 255;
    if m <= 15 {
      SmallFactorOf255(m, q);
    } else {
      assert q <= 15;
      SmallFactorOf255(q, m);
    }
  }

  lemma SmallFactorOf255(m: nat, q: nat)
    requires m * q == 255 && m <= 15
    ensures m == 1 || m == 3 || m == 5 || m == 15
  {
    if m == 2 {
    } else if m == 4 {
    } else if m == 6 {
    } else if m == 7 {
    } else if m == 8 {
    } else if m == 9 {
    } else if m == 10 {
    } else if m == 11 {
    } else if m == 12 {
    } else if m == 13 {
    } else if m == 14 {
    }
  }

  /** alpha has order 255: no smaller positive power is one. */
  lemma {:induction false} OrderIs255(d: nat)
    requires 0 < d < 255
    ensures Exp(d) != ONE
    decreases d
  {
    hide Mul, XTime, Exp;
    if Exp(d) == ONE {
      FullCycle(255);
      var q, r := 255 / d, 255 % d;
      ExpMultiple(d, q);
      ExpAdd(d * q, r);
      MulOneLeft(Exp(r));
      if r > 0 {
        OrderIs255(r);
      } else {
        DivisorsOf255(d);
        var n := if 85 % d == 0 then 85 else if 51 % d == 0 then 51 else 15;
        assert d * (n / d) == n;
        ExpMultiple(d, n / d);
        ProperOrders(n);
      }
    }
  }

  lemma ExpInjective(i: nat, j: nat)
    requires i < j < 255
    ensures Exp(i) != Exp(j)
  {
    hide Exp;
    if Exp(i) == Exp(j) {
      ExpCancel(i, j - i);
      OrderIs255(j - i);
    }
  }

  // --- logarithms and inverses ---

  /** The integer the C code stores for a byte. */
  function Index(b: Byte): (i: nat)
    ensures i < 256
    ensures i == 0 <==> b == ZERO
  {
    (if b.b7 then 128 else 0) + (if b.b6 then 64 else 0) + (if b.b5 then 32 else 0) + (if b.b4 then 16 else 0)
    + (if b.b3 then 8 else 0) + (if b.b2 then 4 else 0) + (if b.b1 then 2 else 0) + (if b.b0 then 1 else 0)
  }

  lemma IndexInjective(a: Byte, b: Byte)
    requires Index(a) == Index(b)
    ensures a == b
  {}

  lemma {:induction false} ExpNonZero(i: nat)
    ensures Exp(i) != ZERO
  {
    if i > 0 {
      hide XTime;
      ExpNonZero(i - 1);
      XTimeAdd(ZERO, ZERO);
      if Exp(i) == ZERO { XTimeInjective(Exp(i - 1), ZERO); }
    }
  }

  ghost function ExpIndices(): (s: seq<int>)
    ensures |s| == 255
    ensures forall i :: 0 <= i < 255 ==> s[i] == Index(Exp(i)) - 1
  {
    seq(255, i requires 0 <= i < 255 => Index(Exp(i)) - 1)
  }

  /** Every non-zero byte is a power of alpha. */
  lemma LogExists(a: Byte)
    requires a != ZERO
    ensures exists i: nat :: i < 255 && Exp(i) == a
  {
    hide Exp, Index, ExpIndices;
    var s := ExpIndices();
    forall i, j | 0 <= i < j < 255
      ensures s[i] != s[j]
    {
      ExpInjective(i, j);
      if s[i] == s[j] { IndexInjective(Exp(i), Exp(j)); }
    }
    forall i | 0 <= i < 255
      ensures 0 <= s[i] < 255
    {
      ExpNonZero(i);
    }
    InjectionCovers(s, Index(a) - 1);
    var i :| 0 <= i < 255 && s[i] == Index(a) - 1;
    IndexInjective(Exp(i), a);
  }

  ghost function Log(a: Byte): (i: nat)
    requires a != ZERO
    ensures i < 255 && Exp(i) == a
  {
    LogExists(a);
    var i: nat :| i < 255 && Exp(i) == a;
    i
  }

  /** The inverse. */
  ghost function Inv(a: Byte): Byte
    requires a != ZERO
  {
    LogInverts(a);
    var r :| Mul(a, r) == ONE; r
  }

  lemma LogInverts(a: Byte)
    requires a != ZERO
    ensures Mul(a, Exp(255 - Log(a))) == ONE
  {
    hide Mul, Exp, XTime;
    ExpAdd(Log(a), 255 - Log(a));
    FullCycle(255);
  }

  lemma MulInv(a: Byte)
    requires a != ZERO
    ensures Mul(a, Inv(a)) == ONE && Mul(Inv(a), a) == ONE
  {
    hide Mul;
    MulComm(Inv(a), a);
  }

  /** The inverse is the power with the opposite exponent. */
  lemma InvIsExp(a: Byte)
    requires a != ZERO
    ensures Inv(a) == Exp(255 - Log(a))
  {
    hide Mul, Exp, Inv;
    var r := Exp(255 - Log(a));
    LogInverts(a);
    MulInv(a);
    MulAssoc(Inv(a), a, r);
    MulOne(Inv(a));
    MulOne(r);
  }

  lemma NoZeroDivisors(a: Byte, b: Byte)
    requires Mul(a, b) == ZERO
    ensures a == ZERO || b == ZERO
  {
    hide Mul, Inv;
    if a != ZERO {
      MulInv(a);
      MulAssoc(Inv(a), a, b);
      MulZero(Inv(a));
      MulOne(b);
    }
  }
}

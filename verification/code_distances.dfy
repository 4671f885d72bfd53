/** How far apart the code words of two paths are, told from the difference of the paths' states. */
module CodeDistances {
  import opened Trellis
  import opened MotherCode

  /** The places where two states differ, the newest bit first. */
  datatype Register = Register(d0: bool, d1: bool, d2: bool, d3: bool, d4: bool, d5: bool)

  const SAME := Register(false, false, false, false, false, false)

  function Difference(s: nat, r: nat): Register {
    Register(StateBit(s, 0) != StateBit(r, 0), StateBit(s, 1) != StateBit(r, 1), StateBit(s, 2) != StateBit(r, 2),
             StateBit(s, 3) != StateBit(r, 3), StateBit(s, 4) != StateBit(r, 4), StateBit(s, 5) != StateBit(r, 5))
  }

  function Shifted(d: Register, e: bool): Register {
    Register(e, d.d0, d.d1, d.d2, d.d3, d.d4)
  }

  /** Output k differs: the code is linear. */
  function Differs(k: nat, d: Register, e: bool): bool
    requires k < 4
  {
    match k
    case 1 => Parity(e, d.d0, d.d1, d.d2, d.d5)
    case 2 => Parity(e, d.d0, d.d3, d.d5, false)
    case _ => Parity(e, d.d1, d.d2, d.d4, d.d5)
  }

  function Parity(a: bool, b: bool, c: bool, d: bool, e: bool): bool {
    (((a != b) != c) != d) != e
  }

  function One(b: bool): nat { if b then 1 else 0 }

  /** Code bits that differ in a step. */
  function Weight(d: Register, e: bool): nat {
    One(Differs(0, d, e)) + One(Differs(1, d, e)) + One(Differs(2, d, e)) + One(Differs(3, d, e))
  }

  lemma SameStates(s: nat, r: nat)
    requires s < 64 && r < 64
    ensures Difference(s, r) == SAME <==> s == r
  {
    StateIsItsBits(s);
    StateIsItsBits(r);
    hide StateBit;
  }

  lemma NextDifference(s: nat, b: nat, r: nat, c: nat)
    requires s < 64 && r < 64 && b < 2 && c < 2
    ensures Difference(Next(s, b), Next(r, c)) == Shifted(Difference(s, r), b != c)
  {
    hide StateBit, Next;
    forall j: nat | j < 5
      ensures StateBit(Next(s, b), j + 1) == StateBit(s, j) && StateBit(Next(r, c), j + 1) == StateBit(r, j)
      ensures StateBit(Next(s, b), 0) == b && StateBit(Next(r, c), 0) == c
    {
      ShiftRegister(s, b, j);
      ShiftRegister(r, c, j);
    }
    assert StateBit(Next(s, b), 0 + 1) == StateBit(s, 0) && StateBit(Next(r, c), 0 + 1) == StateBit(r, 0);
  }

  lemma OddSum(x: nat, y: nat)
    ensures (x + y) % 2 == 1 <==> (x % 2 == 1) != (y % 2 == 1)
  {}

  lemma FiveBits(n: nat, a: nat, b: nat, c: nat, d: nat, e: nat)
    requires n == (a + b + c + d + e) % 2 && a < 2 && b < 2 && c < 2 && d < 2 && e < 2
    ensures n < 2 && (n == 1 <==> Parity(a == 1, b == 1, c == 1, d == 1, e == 1))
  {
    OddSum(a, b);
    OddSum(a + b, c);
    OddSum(a + b + c, d);
    OddSum(a + b + c + d, e);
  }

  /** The bits a state holds. */
  function Held(s: nat): Register {
    Register(StateBit(s, 0) == 1, StateBit(s, 1) == 1, StateBit(s, 2) == 1, StateBit(s, 3) == 1, StateBit(s, 4) == 1,
             StateBit(s, 5) == 1)
  }

  function Sum(g: Register, h: Register): Register {
    Register(g.d0 != h.d0, g.d1 != h.d1, g.d2 != h.d2, g.d3 != h.d3, g.d4 != h.d4, g.d5 != h.d5)
  }

  lemma DifferenceIsSum(s: nat, r: nat)
    ensures Difference(s, r) == Sum(Held(s), Held(r))
  {
    AllBits(s);
    AllBits(r);
    hide StateBit;
  }

  lemma DiffersLinear(k: nat, g: Register, h: Register, d: Register, e: bool, f: bool, x: bool)
    requires k < 4 && d == Sum(g, h) && x == (e != f)
    ensures Differs(k, d, x) == (Differs(k, g, e) != Differs(k, h, f))
  {
    hide *;
    if k == 1 { SecondLinear(k, g, h, d, e, f, x); }
    else if k == 2 { ThirdLinear(k, g, h, d, e, f, x); }
    else { FirstLinear(k, g, h, d, e, f, x); }
  }

  lemma FirstLinear(k: nat, g: Register, h: Register, d: Register, e: bool, f: bool, x: bool)
    requires k in {0, 3} && d == Sum(g, h) && x == (e != f)
    ensures Differs(k, d, x) == (Differs(k, g, e) != Differs(k, h, f))
  {
    hide *;
    SumsOfBits(g, h, d);
    DiffersIsParity(k, g, e);
    DiffersIsParity(k, h, f);
    DiffersIsParity(k, d, x);
    ParityOfSums(e, g.d1, g.d2, g.d4, g.d5, f, h.d1, h.d2, h.d4, h.d5, x, d.d1, d.d2, d.d4, d.d5);
  }

  lemma SecondLinear(k: nat, g: Register, h: Register, d: Register, e: bool, f: bool, x: bool)
    requires k == 1 && d == Sum(g, h) && x == (e != f)
    ensures Differs(k, d, x) == (Differs(k, g, e) != Differs(k, h, f))
  {
    hide *;
    SumsOfBits(g, h, d);
    DiffersIsParity(k, g, e);
    DiffersIsParity(k, h, f);
    DiffersIsParity(k, d, x);
    ParityOfSums(e, g.d0, g.d1, g.d2, g.d5, f, h.d0, h.d1, h.d2, h.d5, x, d.d0, d.d1, d.d2, d.d5);
  }

  lemma ThirdLinear(k: nat, g: Register, h: Register, d: Register, e: bool, f: bool, x: bool)
    requires k == 2 && d == Sum(g, h) && x == (e != f)
    ensures Differs(k, d, x) == (Differs(k, g, e) != Differs(k, h, f))
  {
    hide *;
    SumsOfBits(g, h, d);
    DiffersIsParity(k, g, e);
    DiffersIsParity(k, h, f);
    DiffersIsParity(k, d, x);
    ParityOfSums(e, g.d0, g.d3, g.d5, false, f, h.d0, h.d3, h.d5, false, x, d.d0, d.d3, d.d5, false);
  }

  lemma DiffersIsParity(k: nat, d: Register, e: bool)
    requires k < 4
    ensures k == 1 ==> Differs(k, d, e) == Parity(e, d.d0, d.d1, d.d2, d.d5)
    ensures k == 2 ==> Differs(k, d, e) == Parity(e, d.d0, d.d3, d.d5, false)
    ensures k in {0, 3} ==> Differs(k, d, e) == Parity(e, d.d1, d.d2, d.d4, d.d5)
  {
    hide Parity;
  }

  lemma SumsOfBits(g: Register, h: Register, d: Register)
    requires d == Sum(g, h)
    ensures d.d0 == (g.d0 != h.d0) && d.d1 == (g.d1 != h.d1) && d.d2 == (g.d2 != h.d2)
    ensures d.d3 == (g.d3 != h.d3) && d.d4 == (g.d4 != h.d4) && d.d5 == (g.d5 != h.d5)
  {}

  lemma ParityOfSums(a: bool, b: bool, c: bool, d: bool, e: bool, a': bool, b': bool, c': bool, d': bool, e': bool,
                     v: bool, w: bool, x: bool, y: bool, z: bool)
    requires v == (a != a') && w == (b != b') && x == (c != c') && y == (d != d') && z == (e != e')
    ensures Parity(v, w, x, y, z) == (Parity(a, b, c, d, e) != Parity(a', b', c', d', e'))
  {}

  /** Two outputs differ as their paths' inputs do. */
  lemma OutputsDiffer(k: nat, s: nat, b: nat, r: nat, c: nat)
    requires k < 4 && b < 2 && c < 2
    ensures Differs(k, Difference(s, r), b != c) <==> MotherBit(k, b, s) != MotherBit(k, c, r)
  {
    OutputIsParity(k, b, s);
    OutputIsParity(k, c, r);
    DifferenceIsSum(s, r);
    DiffersLinear(k, Held(s), Held(r), Difference(s, r), b == 1, c == 1, b != c);
    hide MotherBit, Held, Sum, Difference, Differs;
  }

  lemma AllBits(s: nat)
    ensures StateBit(s, 0) < 2 && StateBit(s, 1) < 2 && StateBit(s, 2) < 2
    ensures StateBit(s, 3) < 2 && StateBit(s, 4) < 2 && StateBit(s, 5) < 2
  {
    hide StateBit;
    forall j: nat | j < 6
      ensures StateBit(s, j) < 2
    {
      StateBitIsBit(s, j);
    }
  }

  lemma OutputIsParity(k: nat, b: nat, s: nat)
    requires k < 4 && b < 2
    ensures MotherBit(k, b, s) < 2
    ensures MotherBit(k, b, s) == 1 <==> Differs(k, Held(s), b == 1)
  {
    AllBits(s);
    hide StateBit;
    var n := MotherBit(k, b, s);
    match k
    case 1 => FiveBits(n, b, StateBit(s, 0), StateBit(s, 1), StateBit(s, 2), StateBit(s, 5));
    case 2 => FiveBits(n, b, StateBit(s, 0), StateBit(s, 3), StateBit(s, 5), 0);
    case _ => FiveBits(n, b, StateBit(s, 1), StateBit(s, 2), StateBit(s, 4), StateBit(s, 5));
  }

  // --- distances in the code: tables over the sixty-four differences, each checked step by step ---

  function Row(d: Register, v0: int, v1: int, v2: int, v3: int, v4: int, v5: int, v6: int, v7: int): int {
    if !d.d3 then
      if !d.d4 then if !d.d5 then v0 else v1
      else if !d.d5 then v2 else v3
    else if !d.d4 then if !d.d5 then v4 else v5
    else if !d.d5 then v6 else v7
  }

  /** So many code bits, and one such path, lead from the same state to a difference d. */
  function Reach(d: Register): int {
    if !d.d0 then
      if !d.d1 then
        if !d.d2 then Row(d, 0, 15, 13, 13, 12, 12, 12, 12)
        else Row(d, 9, 12, 11, 14, 9, 12, 10, 13)
      else if !d.d2 then Row(d, 6, 13, 11, 12, 10, 11, 14, 12)
      else Row(d, 9, 13, 10, 14, 9, 11, 10, 13)
    else if !d.d1 then
      if !d.d2 then Row(d, 4, 15, 13, 13, 10, 14, 9, 12)
      else Row(d, 7, 13, 10, 14, 13, 12, 12, 11)
    else if !d.d2 then Row(d, 6, 13, 13, 10, 8, 13, 14, 11)
    else Row(d, 7, 11, 10, 11, 9, 10, 11, 12)
  }

  /** At least so many code bits differ before a difference d is gone. */
  function Leave(d: Register): int {
    if !d.d0 then
      if !d.d1 then
        if !d.d2 then Row(d, 0, 4, 6, 6, 7, 9, 9, 7)
        else Row(d, 10, 8, 10, 12, 13, 9, 9, 9)
      else if !d.d2 then Row(d, 13, 11, 9, 11, 11, 10, 14, 14)
      else Row(d, 13, 13, 11, 11, 10, 12, 12, 10)
    else if !d.d1 then
      if !d.d2 then Row(d, 15, 15, 14, 11, 10, 12, 14, 12)
      else Row(d, 14, 12, 11, 13, 13, 13, 14, 12)
    else if !d.d2 then Row(d, 13, 14, 14, 13, 13, 13, 11, 12)
    else Row(d, 12, 12, 13, 12, 13, 13, 12, 11)
  }

  /** Four times the code bits that differ while the states stay apart, less three a step, is at least this. */
  function Apart(d: Register): int {
    if !d.d0 then
      if !d.d1 then
        if !d.d2 then Row(d, 0, 6, 1, 4, 0, -3, -3, 3)
        else Row(d, -4, -1, -4, -7, -7, 0, -2, 0)
      else if !d.d2 then Row(d, 5, -5, -2, -1, 1, -1, -2, -12)
      else Row(d, -4, -4, -1, -5, -3, -10, -2, -1)
    else if !d.d1 then
      if !d.d2 then Row(d, 0, 0, -2, -2, -3, -6, -10, 0)
      else Row(d, 0, 0, -2, -7, -7, 0, -9, -1)
    else if !d.d2 then Row(d, 0, -5, -5, -9, 0, -6, -2, -4)
    else Row(d, 0, -8, -1, -7, -3, -4, -3, -2)
  }

  /** The difference a step before, of which the last bit was x. */
  function Before(d: Register, x: bool): Register {
    Register(d.d1, d.d2, d.d3, d.d4, d.d5, x)
  }

  lemma ReachStep(d: Register)
    ensures Reach(SAME) == 0 <= Reach(d) <= 15
    ensures
      || Reach(Before(d, false)) + Weight(Before(d, false), d.d0) <= Reach(d)
      || Reach(Before(d, true)) + Weight(Before(d, true), d.d0) <= Reach(d)
  {}

  lemma LeaveStep(d: Register, e: bool)
    requires d != SAME
    ensures Leave(d) <= Weight(d, e) + Leave(Shifted(d, e)) && Leave(SAME) == 0 && (d.d0 ==> Leave(d) >= 10)
  {}

  lemma ApartAtFirst(d: Register)
    requires d.d0
    ensures Apart(d) <= 0
  {}

  lemma ApartStep(d: Register, e: bool)
    requires d != SAME && Shifted(d, e) != SAME
    ensures Apart(Shifted(d, e)) <= Apart(d) + 4 * Weight(d, e) - 3
  {}

  /** Thirty steps apart cost seven code bits more than it takes to get to the same difference. */
  lemma ApartOrReach(d: Register)
    requires d != SAME
    ensures 4 * Reach(d) + 27 <= 90 + Apart(d)
  {}
}

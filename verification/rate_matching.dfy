/** Puncturing with the vectors of EN 300 401 section 11.1.2, and undoing it. */
module RateMatching {
  import opened Division

  /** The 24 puncturing vectors, 32 places each, the first place in the highest bit. */
  const PI: seq<nat> := [
    3364391048, 3364407432, 3368601736, 3368601800, 3435710664, 3435711688, 3435973832, 3435973836,
    3972844748, 3972852940, 3974950092, 3974950124, 4008504556, 4008505068, 4008636140, 4008636142,
    4277071598, 4277075694, 4278124270, 4278124286, 4294901502, 4294901758, 4294967294, 4294967295]

  function Count(kept: seq<bool>): (c: nat)
    ensures c <= |kept|
  {
    if kept == [] then 0 else Count(kept[..|kept| - 1]) + if kept[|kept| - 1] then 1 else 0
  }

  lemma {:induction false} CountSum(a: seq<bool>, b: seq<bool>)
    ensures Count(a + b) == Count(a) + Count(b)
  {
    if b == [] {
      assert a + b == a;
    } else {
      var n := |b| - 1;
      assert (a + b)[..|a + b| - 1] == a + b[..n];
      CountSum(a, b[..n]);
    }
  }

  /** The n low bits of v from the highest down. */
  function BitsDown(v: nat, n: nat): (b: seq<bool>)
    ensures |b| == n
  {
    if n == 0 then [] else BitsDown(v / 2, n - 1) + [v % 2 == 1]
  }

  function Ones(v: nat, n: nat): (c: nat) {
    if n == 0 then 0 else Ones(v / 2, n - 1) + v % 2
  }

  lemma {:induction false} CountBits(v: nat, n: nat)
    ensures Count(BitsDown(v, n)) == Ones(v, n)
  {
    if n > 0 {
      CountBits(v / 2, n - 1);
      var b := BitsDown(v, n);
      assert b[..n - 1] == BitsDown(v / 2, n - 1) && (b[n - 1] <==> v % 2 == 1);
      hide BitsDown;
    }
  }

  /** Vector number k: place i is transmitted or punctured. */
  function Vector(k: nat): (b: seq<bool>)
    requires 1 <= k <= 24
    ensures |b| == 32
  {
    BitsDown(PI[k - 1], 32)
  }

  lemma {:induction false} OnesAppend(h: nat, b: nat, n: nat, m: nat)
    requires b < Pow2(m)
    ensures Ones(h * Pow2(m) + b, n + m) == Ones(h, n) + Ones(b, m)
  {
    if m == 0 {
      assert h * Pow2(0) == h;
    } else {
      assert h * Pow2(m) == 2 * (h * Pow2(m - 1));
      OnesAppend(h, b / 2, n, m - 1);
      var v := h * Pow2(m) + b;
      assert v / 2 == h * Pow2(m - 1) + b / 2 && v % 2 == b % 2;
    }
  }

  lemma OnesAppendByte(h: nat, b: nat, n: nat, v: nat)
    requires b < 256 && v == h * 256 + b
    ensures Ones(v, n + 8) == Ones(h, n) + Ones(b, 8)
  {
    hide Ones;
    assert Pow2(8) == 256;
    OnesAppend(h, b, n, 8);
  }

  lemma NibbleCounts()
    ensures Ones(8, 4) == 1 && Ones(12, 4) == 2 && Ones(14, 4) == 3 && Ones(15, 4) == 4
  {}

  lemma OnesAppendNibble(h: nat, b: nat, v: nat)
    requires b < 16 && v == h * 16 + b
    ensures Ones(v, 8) == Ones(h, 4) + Ones(b, 4)
  {
    hide Ones;
    assert Pow2(4) == 16;
    OnesAppend(h, b, 4, 4);
  }

  lemma ByteCounts()
    ensures Ones(0x88, 8) == 2 && Ones(0xC8, 8) == 3 && Ones(0xCC, 8) == 4 && Ones(0xEC, 8) == 5
    ensures Ones(0xEE, 8) == 6 && Ones(0xFE, 8) == 7 && Ones(0xFF, 8) == 8
  {
    NibbleCounts();
    hide Ones;
    OnesAppendNibble(8, 8, 0x88);
    OnesAppendNibble(12, 8, 0xC8);
    OnesAppendNibble(12, 12, 0xCC);
    OnesAppendNibble(14, 12, 0xEC);
    OnesAppendNibble(14, 14, 0xEE);
    OnesAppendNibble(15, 14, 0xFE);
    OnesAppendNibble(15, 15, 0xFF);
  }

  lemma OnesOfBytes(v: nat, a: nat, b: nat, c: nat, d: nat)
    requires a < 256 && b < 256 && c < 256 && d < 256 && v == ((a * 256 + b) * 256 + c) * 256 + d
    ensures Ones(v, 32) == Ones(a, 8) + Ones(b, 8) + Ones(c, 8) + Ones(d, 8)
  {
    hide Ones;
    OnesAppendByte(a, b, 8, a * 256 + b);
    OnesAppendByte(a * 256 + b, c, 16, (a * 256 + b) * 256 + c);
    OnesAppendByte((a * 256 + b) * 256 + c, d, 24, v);
  }

  /** Vector k keeps k + 8 of its 32 places. */
  lemma OnesOfVector(k: nat)
    requires 1 <= k <= 24
    ensures Ones(PI[k - 1], 32) == k + 8
  {
    if k <= 12 { OnesLow(k); } else { OnesHigh(k); }
  }

  lemma OnesLow(k: nat)
    requires 1 <= k <= 12
    ensures Ones(PI[k - 1], 32) == k + 8
  {
    ByteCounts();
    hide Ones;
    if k == 1 { OnesOfBytes(PI[k - 1], 0xC8, 0x88, 0x88, 0x88); }
    else if k == 2 { OnesOfBytes(PI[k - 1], 0xC8, 0x88, 0xC8, 0x88); }
    else if k == 3 { OnesOfBytes(PI[k - 1], 0xC8, 0xC8, 0xC8, 0x88); }
    else if k == 4 { OnesOfBytes(PI[k - 1], 0xC8, 0xC8, 0xC8, 0xC8); }
    else if k == 5 { OnesOfBytes(PI[k - 1], 0xCC, 0xC8, 0xC8, 0xC8); }
    else if k == 6 { OnesOfBytes(PI[k - 1], 0xCC, 0xC8, 0xCC, 0xC8); }
    else if k == 7 { OnesOfBytes(PI[k - 1], 0xCC, 0xCC, 0xCC, 0xC8); }
    else if k == 8 { OnesOfBytes(PI[k - 1], 0xCC, 0xCC, 0xCC, 0xCC); }
    else if k == 9 { OnesOfBytes(PI[k - 1], 0xEC, 0xCC, 0xCC, 0xCC); }
    else if k == 10 { OnesOfBytes(PI[k - 1], 0xEC, 0xCC, 0xEC, 0xCC); }
    else if k == 11 { OnesOfBytes(PI[k - 1], 0xEC, 0xEC, 0xEC, 0xCC); }
    else if k == 12 { OnesOfBytes(PI[k - 1], 0xEC, 0xEC, 0xEC, 0xEC); }
  }

  lemma OnesHigh(k: nat)
    requires 13 <= k <= 24
    ensures Ones(PI[k - 1], 32) == k + 8
  {
    ByteCounts();
    hide Ones;
    if k == 13 { OnesOfBytes(PI[k - 1], 0xEE, 0xEC, 0xEC, 0xEC); }
    else if k == 14 { OnesOfBytes(PI[k - 1], 0xEE, 0xEC, 0xEE, 0xEC); }
    else if k == 15 { OnesOfBytes(PI[k - 1], 0xEE, 0xEE, 0xEE, 0xEC); }
    else if k == 16 { OnesOfBytes(PI[k - 1], 0xEE, 0xEE, 0xEE, 0xEE); }
    else if k == 17 { OnesOfBytes(PI[k - 1], 0xFE, 0xEE, 0xEE, 0xEE); }
    else if k == 18 { OnesOfBytes(PI[k - 1], 0xFE, 0xEE, 0xFE, 0xEE); }
    else if k == 19 { OnesOfBytes(PI[k - 1], 0xFE, 0xFE, 0xFE, 0xEE); }
    else if k == 20 { OnesOfBytes(PI[k - 1], 0xFE, 0xFE, 0xFE, 0xFE); }
    else if k == 21 { OnesOfBytes(PI[k - 1], 0xFF, 0xFE, 0xFE, 0xFE); }
    else if k == 22 { OnesOfBytes(PI[k - 1], 0xFF, 0xFE, 0xFF, 0xFE); }
    else if k == 23 { OnesOfBytes(PI[k - 1], 0xFF, 0xFF, 0xFF, 0xFE); }
    else if k == 24 { OnesOfBytes(PI[k - 1], 0xFF, 0xFF, 0xFF, 0xFF); }
  }

  /** The place the vector after number k keeps besides: the bytes take turns in the order 0, 2, 1, 3, and a place comes
      in each of them before the next one does. */
  function Added(k: nat): (o: nat)
    requires 1 <= k < 24
    ensures o < 32
  {
    8 * [0, 2, 1, 3][k % 4] + [1, 5, 2, 6, 3, 7][k / 4]
  }

  /** Each vector is the one before it with one place more. */
  lemma VectorsNested(k: nat)
    requires 1 <= k < 24
    ensures Vector(k + 1) == Vector(k)[Added(k) := true] && !Vector(k)[Added(k)]
  {
    hide Pow2, BitsDown;
    var v, w, o := PI[k - 1], PI[k], Added(k);
    NextVector(k, 31 - o, Pow2(31 - o));
    hide PI, Added;
    BitsDownAt(v, 32, o);
    BitsDownSet(v, 32, 31 - o);
  }

  lemma NextVector(k: nat, m: nat, p: nat)
    requires 1 <= k < 24 && m == 31 - Added(k) && p == Pow2(m)
    ensures PI[k] == PI[k - 1] + p && PI[k - 1] / p % 2 == 0
  {
    PlaceValues(m);
    hide Pow2;
    if k < 8 { NextVectorLow(k, m, p); } else if k < 16 { NextVectorMiddle(k, m, p); } else { NextVectorHigh(k, m, p); }
  }

  function PlaceValue(m: nat): nat
    requires m < 32
  {
    match m
    case 0 => 0x1
    case 1 => 0x2
    case 2 => 0x4
    case 3 => 0x8
    case 4 => 0x10
    case 5 => 0x20
    case 6 => 0x40
    case 7 => 0x80
    case 8 => 0x100
    case 9 => 0x200
    case 10 => 0x400
    case 11 => 0x800
    case 12 => 0x1000
    case 13 => 0x2000
    case 14 => 0x4000
    case 15 => 0x8000
    case 16 => 0x10000
    case 17 => 0x20000
    case 18 => 0x40000
    case 19 => 0x80000
    case 20 => 0x100000
    case 21 => 0x200000
    case 22 => 0x400000
    case 23 => 0x800000
    case 24 => 0x1000000
    case 25 => 0x2000000
    case 26 => 0x4000000
    case 27 => 0x8000000
    case 28 => 0x10000000
    case 29 => 0x20000000
    case 30 => 0x40000000
    case _ => 0x80000000
  }

  lemma PlaceValues(m: nat)
    requires m < 32
    ensures PlaceValue(m) == Pow2(m)
  {
    if m >= 1 { PlaceValues(m - 1); }
  }

  lemma NextVectorLow(k: nat, m: nat, p: nat)
    requires 1 <= k < 8 && m == 31 - Added(k) && p == PlaceValue(m)
    ensures PI[k] == PI[k - 1] + p && PI[k - 1] / p % 2 == 0
  {
    if k < 4 {
      if k == 1 {} else if k == 2 {} else {}
    } else {
      if k == 4 {} else if k == 5 {} else if k == 6 {} else {}
    }
  }

  lemma NextVectorMiddle(k: nat, m: nat, p: nat)
    requires 8 <= k < 16 && m == 31 - Added(k) && p == PlaceValue(m)
    ensures PI[k] == PI[k - 1] + p && PI[k - 1] / p % 2 == 0
  {
    if k < 12 {
      if k == 8 {} else if k == 9 {} else if k == 10 {} else {}
    } else {
      if k == 12 {} else if k == 13 {} else if k == 14 {} else {}
    }
  }

  lemma NextVectorHigh(k: nat, m: nat, p: nat)
    requires 16 <= k < 24 && m == 31 - Added(k) && p == PlaceValue(m)
    ensures PI[k] == PI[k - 1] + p && PI[k - 1] / p % 2 == 0
  {
    if k < 20 {
      if k == 16 {} else if k == 17 {} else if k == 18 {} else {}
    } else {
      if k == 20 {} else if k == 21 {} else if k == 22 {} else {}
    }
  }

  lemma {:induction false} BitsDownSet(v: nat, n: nat, m: nat)
    requires m < n && v / Pow2(m) % 2 == 0
    ensures BitsDown(v + Pow2(m), n) == BitsDown(v, n)[n - 1 - m := true]
  {
    if m > 0 {
      HalfQuotient(v, Pow2(m - 1));
      BitsDownSet(v / 2, n - 1, m - 1);
      assert (v + Pow2(m)) / 2 == v / 2 + Pow2(m - 1) && (v + Pow2(m)) % 2 == v % 2;
    } else {
      assert Pow2(0) == 1;
      assert (v + 1) / 2 == v / 2 && (v + 1) % 2 == 1;
    }
  }

  lemma {:induction false} BitsDownAt(v: nat, n: nat, o: nat)
    requires o < n
    ensures BitsDown(v, n)[o] == (v / Pow2(n - 1 - o) % 2 == 1)
  {
    if o < n - 1 {
      BitsDownAt(v / 2, n - 1, o);
      HalfQuotient(v, Pow2(n - 2 - o));
    } else {
      assert Pow2(0) == 1;
    }
  }

  /** Shifting up by o and down by 31 picks place o. */
  lemma ShiftedBit(k: nat, o: nat, top: nat)
    requires 1 <= k <= 24 && o < 32 && top == 31
    ensures Vector(k)[o] == (PI[k - 1] * Pow2(o) / Pow2(top) % 2 == 1)
  {
    ShiftedPlace(PI[k - 1], o, top);
  }

  lemma ShiftedPlace(v: nat, o: nat, top: nat)
    requires o <= top
    ensures BitsDown(v, top + 1)[o] == (v * Pow2(o) / Pow2(top) % 2 == 1)
  {
    BitsDownAt(v, top + 1, o);
    hide BitsDown;
    Pow2Sum(top - o, o);
    hide Pow2;
    CommonFactor(v, Pow2(top - o), Pow2(o));
  }

  lemma CommonFactor(v: nat, q: nat, p: nat)
    requires q > 0 && p > 0 && q * p > 0
    ensures v * p / (q * p) == v / q
  {
    var u, r := v / q, v % q;
    assert v == u * q + r;
    assert v * p == u * (q * p) + r * p;
    MulGap(r, q, p);
    QuotientUnique(v * p, u, r * p, q * p);
  }

  /** The first n places of a vector, again and again. */
  function Repeated(v: seq<bool>, n: nat): (b: seq<bool>)
    requires |v| > 0
    ensures |b| == n
  {
    seq(n, i requires 0 <= i < n => v[i % |v|])
  }

  /** The places of a block of n. */
  function BlockKept(k: nat, n: nat): (b: seq<bool>)
    requires 1 <= k <= 24
    ensures |b| == n
  {
    Repeated(Vector(k), n)
  }

  lemma {:induction false} RepeatedCount(v: seq<bool>, m: nat)
    requires |v| > 0
    ensures Count(Repeated(v, m * |v|)) == m * Count(v)
  {
    if m > 0 {
      var n := (m - 1) * |v|;
      RepeatedCount(v, m - 1);
      RepeatedStep(v, m - 1);
      CountSum(Repeated(v, n), v);
      assert m * Count(v) == (m - 1) * Count(v) + Count(v);
    } else {
      assert Repeated(v, m * |v|) == [];
    }
  }

  lemma RepeatedStep(v: seq<bool>, m: nat)
    requires |v| > 0
    ensures Repeated(v, (m + 1) * |v|) == Repeated(v, m * |v|) + v
  {
    var n, w := m * |v|, |v|;
    assert (m + 1) * w == n + w;
    forall i | 0 <= i < n + w
      ensures Repeated(v, n + w)[i] == (Repeated(v, n) + v)[i]
    {
      if i >= n {
        QuotientShift(m, i - n, w);
        QuotientUnique(i - n, 0, i - n, w);
      }
    }
  }

  lemma VectorCount(k: nat)
    requires 1 <= k <= 24
    ensures Count(Vector(k)) == k + 8
  {
    CountBits(PI[k - 1], 32);
    OnesOfVector(k);
  }

  /** A block of whole vectors. */
  lemma BlockCount(k: nat, m: nat)
    requires 1 <= k <= 24
    ensures Count(BlockKept(k, 32 * m)) == m * (k + 8)
  {
    VectorCount(k);
    hide Vector, Count, Repeated;
    RepeatedCount(Vector(k), m);
  }

  lemma {:induction false} BitsDownPrefix(v: nat, n: nat, m: nat)
    ensures BitsDown(v, n + m)[..n] == BitsDown(v / Pow2(m), n)
  {
    if m > 0 {
      BitsDownPrefix(v / 2, n, m - 1);
      HalfQuotient(v, Pow2(m - 1));
      assert BitsDown(v, n + m)[..n] == BitsDown(v / 2, n + (m - 1))[..n];
    } else {
      assert Pow2(0) == 1;
    }
  }

  lemma OnesOfTail()
    ensures Ones(0xCCCCCC, 24) == 12
  {
    ByteCounts();
    hide Ones;
    OnesAppendByte(0xCC, 0xCC, 8, 0xCCCC);
    OnesAppendByte(0xCCCC, 0xCC, 16, 0xCCCCCC);
  }

  /** The 24 tail places, under vector 8, keep 12. */
  lemma TailCount(n: nat, k: nat)
    requires n == 24 && k == 8
    ensures Count(BlockKept(k, n)) == 12
  {
    TailVector(k);
    hide Vector, Count, BitsDown, Ones;
    OnesOfTail();
    RepeatedPrefix(Vector(k), n);
    TailBits(0xCCCCCC * 256 + 0xCC, n);
    CountBits(0xCCCCCC, n);
  }

  lemma TailVector(k: nat)
    requires k == 8
    ensures Vector(k) == BitsDown(0xCCCCCC * 256 + 0xCC, 32)
  {
    assert PI[k - 1] == 0xCCCCCC * 256 + 0xCC;
    hide PI, BitsDown;
  }

  lemma RepeatedPrefix(v: seq<bool>, n: nat)
    requires n <= |v| && |v| > 0
    ensures Repeated(v, n) == v[..n]
  {}

  lemma TailBits(v: nat, n: nat)
    requires v == 0xCCCCCC * 256 + 0xCC && n == 24
    ensures BitsDown(v, 32)[..n] == BitsDown(0xCCCCCC, n)
  {
    hide BitsDown;
    BitsDownPrefix(v, n, 8);
    assert Pow2(8) == 256;
  }
}

/** The two checksums of a superframe: the CRC of an access unit and the fire code of the header. */
module Checksums {
  import opened Gf2Division

  function Bits(data: seq<Octet>): (b: seq<bool>)
    ensures |b| == 8 * |data|
  {
    if data == [] then [] else Bits(data[..|data| - 1]) + data[|data| - 1]
  }

  lemma {:induction false} BitsSplit(a: seq<Octet>, b: seq<Octet>)
    ensures Bits(a + b) == Bits(a) + Bits(b)
  {
    if b == [] {
      assert a + b == a;
    } else {
      var n := |b| - 1;
      assert (a + b)[..|a + b| - 1] == a + b[..n];
      BitsSplit(a, b[..n]);
    }
  }

  function Not(s: seq<bool>): (r: seq<bool>)
    ensures |r| == |s| && forall i :: 0 <= i < |s| ==> r[i] == !s[i]
  {
    seq(|s|, i requires 0 <= i < |s| => !s[i])
  }

  /** x^12 + x^5 + 1, below the leading x^16. */
  const CRC_POLY: Word :=
    [false, false, false, true, false, false, false, false, false, false, true, false, false, false, false, true]

  /** x^16 + x^12 + x^5 + 1 has four terms: x + 1 divides it, and odd numbers of wrong bits are detected. */
  lemma CrcPolynomialEven(n: nat)
    requires n == 16
    ensures Odd(CRC_POLY) && forall i :: 0 <= i < n ==> (CRC_POLY[i] <==> n - 1 - i in {12, 5, 0})
  {
    hide Odd;
    TwoTerms(CRC_POLY[..4], CRC_POLY[4..11], CRC_POLY[11..]);
    assert CRC_POLY == CRC_POLY[..4] + CRC_POLY[4..11] + CRC_POLY[11..];
    assert CRC_POLY[..4] == Zeros(3) + [true] && CRC_POLY[4..11] == Zeros(6) + [true] &&
           CRC_POLY[11..] == Zeros(4) + [true];
    LastOne(3);
    LastOne(6);
    LastOne(4);
  }

  lemma LastOne(n: nat)
    ensures Odd(Zeros(n) + [true])
  {
    OddJoin(Zeros(n), [true]);
    EvenZeros(n);
    OneBit(true);
  }

  lemma TwoTerms(a: seq<bool>, b: seq<bool>, c: seq<bool>)
    ensures Odd(a + b + c) == ((Odd(a) != Odd(b)) != Odd(c))
  {
    OddJoin(a + b, c);
    OddJoin(a, b);
  }

  /** 0x1020. */
  const CRC_POLY_EVEN: Word :=
    [false, false, false, true, false, false, false, false, false, false, true, false, false, false, false, false]

  /** A CRC register taking in a message bit. */
  function CrcStep(s: Word, d: bool): (r: Word) {
    Xor(s[1..] + [false], Scaled(s[0] != d, CRC_POLY))
  }

  function CrcRegister(s: Word, p: seq<bool>): (r: Word) {
    if p == [] then s else CrcStep(CrcRegister(s, p[..|p| - 1]), p[|p| - 1])
  }

  /** The standard's check word: the remainder of the message times x^16, its first 16 register bits preset. */
  function CrcRemainder(preset: Word, p: seq<bool>): (r: Word) {
    Remainder(CRC_POLY, Xor(preset + Zeros(|p|), p + Zeros(16)))
  }

  lemma CrcRegisterStep(s: Word, p: seq<bool>, d: bool)
    ensures CrcRegister(s, p + [d]) == CrcStep(CrcRegister(s, p), d)
  {
    assert (p + [d])[..|p|] == p;
  }

  lemma {:induction false} CrcRegisterSplit(s: Word, p: seq<bool>, t: seq<bool>)
    ensures CrcRegister(s, p + t) == CrcRegister(CrcRegister(s, p), t)
  {
    if t == [] {
      assert p + t == p;
    } else {
      var n := |t| - 1;
      CrcRegisterSplit(s, p, t[..n]);
      assert p + t == p + t[..n] + [t[n]];
      CrcRegisterStep(s, p + t[..n], t[n]);
    }
  }

  /** x^16 leaves the generator's lower part. */
  lemma PowerSixteen(g: Word, d: bool, n: nat)
    ensures Remainder(g, Zeros(n) + [d] + Zeros(16)) == Scaled(d, g)
  {
    hide Divide;
    var p := [d] + Zeros(15);
    assert Zeros(n) + [d] + Zeros(16) == Zeros(n) + (p + [false]);
    LeadingZeros(g, n, p + [false]);
    DivideShort(g, p);
    assert Zeros(0) + p == p;
    DivideStep(g, Zeros(16), p, false);
    assert p[1..] + [false] == Zeros(16);
    assert Xor(Zeros(16), Scaled(d, g)) == Scaled(d, g);
  }

  /** The register computes the remainder. */
  lemma {:induction false} CrcRegisterIsRemainder(s: Word, p: seq<bool>)
    ensures CrcRegister(s, p) == CrcRemainder(s, p)
  {
    hide *;
    NoMessage(s);
    if p != [] {
      var n := |p| - 1;
      CrcRegisterIsRemainder(s, p[..n]);
      CrcRegisterStep(s, p[..n], p[n]);
      LongerMessage(s, p[..n], p[n]);
      assert p == p[..n] + [p[n]];
    }
  }

  lemma LongerMessage(s: Word, p: seq<bool>, d: bool)
    ensures CrcRemainder(s, p + [d]) == CrcStep(CrcRemainder(s, p), d)
  {
    hide Divide, CRC_POLY;
    var n := |p|;
    var lower := Xor(s + Zeros(n), p + Zeros(16));
    OneMoreBit(s, p, d);
    RemainderLinear(CRC_POLY, lower + [false], Zeros(n) + [d] + Zeros(16));
    DivideStep(CRC_POLY, Zeros(16), lower, false);
    PowerSixteen(CRC_POLY, d, n);
    ScaledSum(Remainder(CRC_POLY, lower), d);
  }

  lemma NoMessage(s: Word)
    ensures CrcRemainder(s, []) == s && CrcRegister(s, []) == s
  {
    hide CRC_POLY;
    assert s + Zeros(0) == s;
    assert [] + Zeros(16) == Zeros(16);
    assert Xor(s, Zeros(16)) == s;
    DivideShort(CRC_POLY, s);
    assert Zeros(0) + s == s;
  }

  lemma OneMoreBit(s: Word, p: seq<bool>, d: bool)
    ensures Xor(s + Zeros(|p| + 1), p + [d] + Zeros(16))
         == Xor(Xor(s + Zeros(|p|), p + Zeros(16)) + [false], Zeros(|p|) + [d] + Zeros(16))
  {
    var l := Xor(s + Zeros(|p| + 1), p + [d] + Zeros(16));
    var r := Xor(Xor(s + Zeros(|p|), p + Zeros(16)) + [false], Zeros(|p|) + [d] + Zeros(16));
    forall i | 0 <= i < |p| + 17
      ensures l[i] == r[i]
    {
      assert (s + Zeros(|p| + 1))[i] == (s + Zeros(|p|) + [false])[i];
    }
  }

  lemma ScaledSum(r: Word, d: bool)
    ensures CrcStep(r, d) == Xor(Shift(CRC_POLY, r, false), Scaled(d, CRC_POLY))
  {
    hide CRC_POLY;
  }

  /** After the message the register is cleared by its own value and by no other word. */
  lemma CrcCleared(s: Word, w: Word)
    ensures CrcRegister(s, w) == Zeros(16) <==> w == s
  {
    hide Divide;
    CrcRegisterIsRemainder(s, w);
    var v := Xor(s, w);
    assert Xor(s + Zeros(16), w + Zeros(16)) == v + Zeros(16);
    DivideSplit(CRC_POLY, Zeros(16), v, Zeros(16));
    DivideShort(CRC_POLY, v);
    assert Zeros(0) + v == v;
    ZeroStepsInjective(CRC_POLY, v, 16);
    if v == Zeros(16) {
      forall i | 0 <= i < 16
        ensures s[i] == w[i]
      {
        assert !v[i];
      }
      assert s == w;
    }
  }

  const ONES: Word := Not(Zeros(16))

  /** The register starts with every bit set. */
  lemma PresetIsOnes(i: nat)
    requires i < 16
    ensures ONES[i]
  {}

  /** The two bytes before to are the inverted checksum of those before them, from from on. */
  ghost predicate OwnChecksum(data: seq<Octet>, from: nat, to: nat)
    requires from + 2 <= to <= |data|
  {
    Bits(data[to - 2..to]) == Not(CrcRemainder(ONES, Bits(data[from..to - 2])))
  }

  /** CRC16 on length bytes from at: the last two are inverted, everything is clocked in, and they are inverted back. */
  method CRC16(data: array<Octet>, at: nat, length: nat) returns (ok: bool)
    requires 2 <= length && at + length <= data.Length
    modifies data
    ensures data[..] == old(data[..])
    ensures ok <==> OwnChecksum(data[..], at, at + length)
  {
    hide Bits, CrcRegister, CrcRemainder, ONES;
    ghost var m, a, b := data[at..at + length - 2], data[at + length - 2], data[at + length - 1];
    assert data[at + length - 2..at + length] == [a, b];
    ghost var before := data[..];
    data[at + length - 2] := Not(data[at + length - 2]);
    data[at + length - 1] := Not(data[at + length - 1]);
    assert data[at..at + length] == m + [Not(a), Not(b)];
    var crc := Clock(data, at, length);
    data[at + length - 2] := Not(data[at + length - 2]);
    data[at + length - 1] := Not(data[at + length - 1]);
    assert Not(Not(a)) == a && Not(Not(b)) == b;
    assert data[..] == before;
    assert before[at..at + length - 2] == m && before[at + length - 2..at + length] == [a, b];
    CrcAccepts(m, a, b);
    ok := crc == Zeros(16);
  }

  method Clock(data: array<Octet>, at: nat, length: nat) returns (crc: Word)
    requires at + length <= data.Length
    ensures crc == CrcRegister(ONES, Bits(data[at..at + length]))
  {
    hide CrcRegister;
    ghost var clocked := data[at..at + length];
    crc := ONES;
    ClockNothing();
    var i := 0;
    while i < length
      invariant 0 <= i <= length
      invariant crc == CrcRegister(ONES, Bits(clocked[..i]))
    {
      crc := ClockOctet(crc, data[at + i]);
      assert clocked[..i + 1] == clocked[..i] + [clocked[i]];
      OneMoreOctet(clocked[..i], clocked[i]);
      i := i + 1;
    }
    assert clocked[..length] == clocked;
  }

  lemma ClockNothing()
    ensures CrcRegister(ONES, Bits([])) == ONES
  {}

  lemma OneMoreOctet(m: seq<Octet>, o: Octet)
    ensures CrcRegister(ONES, Bits(m + [o])) == CrcRegister(CrcRegister(ONES, Bits(m)), o)
  {
    assert (m + [o])[..|m|] == m;
    CrcRegisterSplit(ONES, Bits(m), o);
  }

  /** With the check word inverted, the register ends at zero exactly when it is the message's. */
  lemma CrcAccepts(m: seq<Octet>, a: Octet, b: Octet)
    ensures CrcRegister(ONES, Bits(m + [Not(a), Not(b)])) == Zeros(16) <==>
              Bits([a, b]) == Not(CrcRemainder(ONES, Bits(m)))
  {
    hide CrcRemainder, CrcRegister, Bits;
    BitsSplit(m, [Not(a), Not(b)]);
    TwoOctets(a, b);
    TwoOctets(Not(a), Not(b));
    CrcAcceptsWord(Bits(m), a, b);
  }

  lemma CrcAcceptsWord(p: seq<bool>, a: Octet, b: Octet)
    ensures CrcRegister(ONES, p + (Not(a) + Not(b))) == Zeros(16) <==> a + b == Not(CrcRemainder(ONES, p))
  {
    hide CrcRemainder, CrcRegister;
    var w: Word := Not(a) + Not(b);
    CrcRegisterSplit(ONES, p, w);
    CrcRegisterIsRemainder(ONES, p);
    CrcCleared(CrcRemainder(ONES, p), w);
    assert w == Not(a + b);
    Inverted(a + b, CrcRemainder(ONES, p));
  }

  lemma Inverted(x: Word, r: Word)
    ensures Not(x) == r <==> x == Not(r)
  {
    if Not(x) == r {
      assert x == Not(r);
    }
    if x == Not(r) {
      assert Not(x) == r;
    }
  }

  lemma TwoOctets(a: Octet, b: Octet)
    ensures Bits([a, b]) == a + b
  {
    assert [a, b][..1] == [a];
    assert [a][..0] == [];
    assert Bits([a]) == [] + a == a;
  }

  /** Shift up; when the bit shifted out and the data bit differ, add the polynomial. */
  method ClockBit(s: Word, d: bool) returns (r: Word)
    ensures r == CrcStep(s, d)
  {
    r := s[1..] + [false];
    if s[0] != d {
      r := Xor(r, CRC_POLY_EVEN);
      r := r[..15] + [true];
    } else {
      r := r[..15] + [false];
    }
  }

  /** One byte, its bits from the highest down. */
  method ClockOctet(s: Word, o: Octet) returns (r: Word)
    ensures r == CrcRegister(s, o)
  {
    hide CrcStep;
    r := s;
    var b := 0;
    while b < 8
      invariant 0 <= b <= 8
      invariant r == CrcRegister(s, o[..b])
    {
      CrcRegisterStep(s, o[..b], o[b]);
      assert o[..b + 1] == o[..b] + [o[b]];
      r := ClockBit(r, o[b]);
      b := b + 1;
    }
    assert o[..8] == o;
  }
}

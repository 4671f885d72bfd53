/** The fire code of a superframe header: its byte table and the check driven by it. */
module Firecode {
  import opened Division
  import opened Gf2Division
  import opened Checksums

  /** g(x) = x^16 + x^14 + x^13 + x^12 + x^11 + x^5 + x^3 + x^2 + x + 1, by power. */
  const FIRECODE_G: seq<bool> :=
    [true, true, true, true, false, true, false, false, false, false, false, true, true, true, true, false]

  /** The same from the highest power down, the leading x^16 left out. */
  const GENERATOR: Word :=
    [false, true, true, true, true, false, false, false, false, false, true, false, true, true, true, true]

  /** x^5 + x^3 + x^2 + x + 1. */
  const FACTOR: seq<bool> := [true, false, true, true, true, true]

  /** The generator is the product of x^11 + 1 and x^5 + x^3 + x^2 + x + 1. */
  lemma GeneratorFactors(n: nat)
    requires n == 11
    ensures [true] + GENERATOR == Xor(FACTOR + Zeros(n), Zeros(n) + FACTOR)
  {}

  /** So it has an even number of terms, as x + 1 divides x^11 + 1. */
  lemma GeneratorEven(n: nat)
    requires n == 11
    ensures Odd(GENERATOR)
  {
    GeneratorFactors(n);
    hide GENERATOR, FACTOR, Odd;
    OddXor(FACTOR + Zeros(n), Zeros(n) + FACTOR);
    OddJoin(FACTOR, Zeros(n));
    OddJoin(Zeros(n), FACTOR);
    OddJoin([true], GENERATOR);
    OneBit(true);
  }

  /** The number written by bits from the highest down. */
  function Value(s: seq<bool>): (v: nat) {
    if s == [] then 0 else 2 * Value(s[..|s| - 1]) + if s[|s| - 1] then 1 else 0
  }

  /** Bit j of i is set. */
  function Bit(i: nat, j: nat): bool {
    i / Pow2(j) % 2 == 1
  }

  lemma {:induction false} ValueBound(s: seq<bool>)
    ensures Value(s) < Pow2(|s|)
  {
    if s != [] {
      ValueBound(s[..|s| - 1]);
    }
  }

  lemma {:induction false} BitOfValue(s: seq<bool>, j: nat)
    requires j < |s|
    ensures Bit(Value(s), j) == s[|s| - 1 - j]
  {
    var v, rest := Value(s), s[..|s| - 1];
    if j == 0 {
      assert Pow2(0) == 1;
    } else {
      BitOfValue(rest, j - 1);
      HalfQuotient(v, Pow2(j - 1));
      assert v / 2 == Value(rest);
    }
  }

  /** The first eight bits of a register followed by zeros, moved up by eight. */
  function TableEntry(o: Octet): (w: Word) {
    Divide(GENERATOR, o + Zeros(8), Zeros(8))
  }

  /** The power x^(8 + j). */
  function Unit(j: nat): (w: Word)
    requires j < 8
  {
    Zeros(7 - j) + [true] + Zeros(8 + j)
  }

  /** The sum of the units below k whose bits are set. */
  function PartialSum(o: Octet, k: nat): (w: Word)
    requires k <= 8
  {
    if k == 0 then Zeros(16) else Xor(PartialSum(o, k - 1), Scaled(o[8 - k], Unit(k - 1)))
  }

  lemma {:induction false} PartialSumBits(o: Octet, k: nat)
    requires k <= 8
    ensures forall i :: 0 <= i < 16 ==> PartialSum(o, k)[i] == (8 - k <= i < 8 && o[i])
  {
    if k > 0 {
      PartialSumBits(o, k - 1);
    }
  }

  lemma UnitsMakeOctet(o: Octet)
    ensures PartialSum(o, 8) == o + Zeros(8)
  {
    PartialSumBits(o, 8);
  }

  /** One more unit in the sum is its table word added. */
  lemma EntryStep(o: Octet, k: nat)
    requires k < 8
    ensures Divide(GENERATOR, PartialSum(o, k + 1), Zeros(8))
         == Xor(Divide(GENERATOR, PartialSum(o, k), Zeros(8)), Scaled(o[7 - k], Divide(GENERATOR, Unit(k), Zeros(8))))
  {
    hide GENERATOR;
    ZeroPlusZero(8);
    DivideLinear(GENERATOR, PartialSum(o, k), Scaled(o[7 - k], Unit(k)), Zeros(8), Zeros(8));
    if !o[7 - k] {
      DivideZeros(GENERATOR, 8);
    }
  }

  /** Table-driven: a byte enters the register by one look-up. */
  lemma ByteUpdate(s: Word, o: Octet)
    ensures Divide(GENERATOR, s, o) == Xor(TableEntry(s[..8]), s[8..] + o)
  {
    hide GENERATOR;
    var hi: Octet, lo: Octet := s[..8], s[8..];
    assert s == Xor(hi + Zeros(8), Zeros(8) + lo);
    assert o == Xor(Zeros(8), o);
    DivideLinear(GENERATOR, hi + Zeros(8), Zeros(8) + lo, Zeros(8), o);
    DivideShort(GENERATOR, lo);
    DivideSplit(GENERATOR, Zeros(16), lo, o);
    DivideShort(GENERATOR, lo + o);
    assert Zeros(0) + (lo + o) == lo + o;
  }

  /** Registers by power, as a word from the highest power down. */
  function FromRegisters(regs: seq<bool>): (w: Word)
    requires |regs| == 16
  {
    seq(16, i requires 0 <= i < 16 => regs[15 - i])
  }

  /** The table of the superframe decoder. */
  /** The nine data bytes of a header followed by its two check bytes are a multiple of the generator. */
  ghost predicate HeaderOk(data: seq<Octet>)
    requires |data| >= 11
  {
    MultipleOf(GENERATOR, Bits(data[2..11] + data[..2]))
  }

  lemma HeaderIffNoRemainder(data: seq<Octet>)
    requires |data| >= 11
    ensures HeaderOk(data) <==> Remainder(GENERATOR, Bits(data[2..11] + data[..2])) == Zeros(16)
  {
    MultipleIffNoRemainder(GENERATOR, Bits(data[2..11] + data[..2]));
  }

  class FirecodeTable {
    const tab: array<Word>

    ghost predicate Valid()
      reads tab
    {
      FilledTo(256)
    }

    ghost predicate FilledTo(n: nat)
      reads tab
    {
      tab.Length == 256 && forall o: Octet :: Value(o) < n ==> Value(o) < 256 && tab[Value(o)] == TableEntry(o)
    }

    /** FirecodeInit. */
    constructor ()
      ensures Valid() && fresh(tab)
    {
      tab := new Word[256](_ => Zeros(16));
      new;
      hide TableEntry, Value;
      var itab := UnitEntries();
      NothingBelowZero();
      var i := 0;
      while i < 256
        invariant 0 <= i <= 256 && fresh(tab) && FilledTo(i)
      {
        tab[i] := SumEntry(i, itab);
        i := i + 1;
      }
    }

    lemma NothingBelowZero()
      requires tab.Length == 256
      ensures FilledTo(0)
    {}

    /** The header passes exactly when it is one. */
    method FirecodeCheck(data: seq<Octet>) returns (ok: bool)
      requires Valid() && |data| >= 11
      ensures ok <==> HeaderOk(data)
    {
      hide GENERATOR, TableEntry, Value, Divide, Bits, HeaderOk;
      var state: Word := Join(data[2], data[3]);
      FirstTwo(data);
      var i := 4;
      while i < 11
        invariant 4 <= i <= 11
        invariant state == Remainder(GENERATOR, Bits(data[2..i]))
      {
        state := Update(state, data[i], data[2..i]);
        assert data[2..i] + [data[i]] == data[2..i + 1];
        i := i + 1;
      }
      i := 0;
      assert data[2..11] + data[..0] == data[2..11];
      while i < 2
        invariant 0 <= i <= 2
        invariant state == Remainder(GENERATOR, Bits(data[2..11] + data[..i]))
      {
        state := Update(state, data[i], data[2..11] + data[..i]);
        assert data[2..11] + data[..i] + [data[i]] == data[2..11] + data[..i + 1];
        i := i + 1;
      }
      HeaderIffNoRemainder(data);
      ok := state == Zeros(16);
    }

    /** A byte enters by table look-up. */
    method Update(state: Word, o: Octet, ghost before: seq<Octet>) returns (next: Word)
      requires Valid() && state == Remainder(GENERATOR, Bits(before))
      ensures next == Remainder(GENERATOR, Bits(before + [o]))
    {
      hide GENERATOR, TableEntry, Value, Divide, Bits;
      ValueInRange(state[..8]);
      var istate := tab[Value(state[..8])];
      next := Join(Xor(istate[..8], state[8..]), Xor(istate[8..], o));
      assert next == Xor(istate, state[8..] + o);
      ByteUpdate(state, o);
      BitsSplit(before, [o]);
      OneOctet(o);
      DivideSplit(GENERATOR, Zeros(16), Bits(before), o);
    }

    static lemma ValueInRange(o: Octet)
      ensures Value(o) < 256
    {
      ValueBound(o);
      PowerEight();
    }

    static lemma PowerEight()
      ensures Pow2(8) == 256
    {}

    static lemma OneOctet(o: Octet)
      ensures Bits([o]) == o
    {
      assert Bits([o][..0]) == [];
      assert [] + o == o;
    }

    static lemma FirstTwo(data: seq<Octet>)
      requires |data| >= 11
      ensures Join(data[2], data[3]) == Remainder(GENERATOR, Bits(data[2..4]))
    {
      hide GENERATOR, Bits, Divide;
      assert data[2..4] == [data[2], data[3]];
      TwoOctets(data[2], data[3]);
      DivideShort(GENERATOR, Join(data[2], data[3]));
      assert Zeros(0) + Join(data[2], data[3]) == Join(data[2], data[3]);
    }

    static ghost predicate AreUnitEntries(itab: seq<Word>) {
      |itab| == 8 && forall j: nat :: j < 8 ==> itab[j] == Divide(GENERATOR, Unit(j), Zeros(8))
    }

    static method UnitEntries() returns (itab: seq<Word>)
      ensures AreUnitEntries(itab)
    {
      hide Divide, GENERATOR, Unit;
      itab := [];
      var i := 0;
      while i < 8
        invariant |itab| == i && i <= 8
        invariant forall j: nat :: j < i ==> itab[j] == Divide(GENERATOR, Unit(j), Zeros(8))
      {
        var v := UnitEntry(i);
        itab := itab + [v];
        i := i + 1;
      }
    }

    /** Eight clocks of the shift register started at x^(8 + i). */
    static method UnitEntry(i: nat) returns (v: Word)
      requires i < 8
      ensures v == Divide(GENERATOR, Unit(i), Zeros(8))
    {
      hide GENERATOR, Divide;
      var regs := new bool[16](j => j == 8 + i);
      assert FromRegisters(regs[..]) == Unit(i);
      NoClock(Unit(i));
      var ii := 0;
      while ii < 8
        invariant 0 <= ii <= 8
        invariant FromRegisters(regs[..]) == Divide(GENERATOR, Unit(i), Zeros(ii))
      {
        assert Zeros(ii) + [false] == Zeros(ii + 1);
        DivideStep(GENERATOR, Unit(i), Zeros(ii), false);
        ClockRegisters(regs);
        ii := ii + 1;
      }
      v := Collect(regs);
    }

    static lemma NoClock(w: Word)
      ensures Divide(GENERATOR, w, Zeros(0)) == w
    {}

    /** One clock: everything moves up a power and the overflow is fed back. */
    static method ClockRegisters(regs: array<bool>)
      requires regs.Length == 16
      modifies regs
      ensures FromRegisters(regs[..]) == Shift(GENERATOR, FromRegisters(old(regs[..])), false)
    {
      SameGenerator();
      hide FIRECODE_G, FromRegisters;
      ghost var before := regs[..];
      var z := regs[15];
      var jj := 15;
      while jj > 0
        invariant 0 <= jj <= 15
        invariant forall k :: jj < k < 16 ==> regs[k] == (before[k - 1] != (z && FIRECODE_G[k]))
        invariant forall k :: 0 <= k <= jj ==> regs[k] == before[k]
      {
        regs[jj] := regs[jj - 1] != (z && FIRECODE_G[jj]);
        jj := jj - 1;
      }
      regs[0] := z;
      ShiftedRegisters(before, regs[..]);
    }

    static lemma ShiftedRegisters(before: seq<bool>, after: seq<bool>)
      requires |before| == |after| == 16 && |FIRECODE_G| == 16 && after[0] == before[15]
      requires forall k :: 0 < k < 16 ==> after[k] == (before[k - 1] != (before[15] && FIRECODE_G[k]))
      ensures FromRegisters(after) == Shift(GENERATOR, FromRegisters(before), false)
    {
      SameGenerator();
      LowestTerm();
      hide FIRECODE_G, GENERATOR;
      var w := FromRegisters(before);
      forall i | 0 <= i < 16
        ensures FromRegisters(after)[i] == Shift(GENERATOR, w, false)[i]
      {
        if i < 15 {
          assert (w[1..] + [false])[i] == w[i + 1] == before[14 - i];
        }
      }
    }

    static lemma LowestTerm()
      ensures GENERATOR[15]
    {}

    static lemma SameGenerator()
      ensures |FIRECODE_G| == 16 && forall k :: 0 <= k < 16 ==> GENERATOR[15 - k] == FIRECODE_G[k]
    {}

    static method Collect(regs: array<bool>) returns (v: Word)
      requires regs.Length == 16
      ensures v == FromRegisters(regs[..])
    {
      v := Zeros(16);
      var ii := 15;
      while ii >= 0
        invariant -1 <= ii <= 15
        invariant forall p :: ii < p < 16 ==> v[p] == regs[16 + ii - p]
      {
        v := v[1..] + [regs[ii]];
        ii := ii - 1;
      }
    }

    /** The sum of the unit entries whose bits are set in i. */
    static method SumEntry(i: nat, itab: seq<Word>) returns (w: Word)
      requires AreUnitEntries(itab)
      ensures forall o: Octet :: Value(o) == i ==> w == TableEntry(o)
    {
      hide Bit, Value, TableEntry, Divide, PartialSum, AreUnitEntries, Unit;
      w := Zeros(16);
      var j := 0;
      NoUnits();
      assert |itab| == 8 by { EightEntries(itab); }
      while j < 8
        invariant 0 <= j <= 8
        invariant forall o: Octet :: Value(o) == i ==> w == SumOf(o, j)
      {
        forall o: Octet | Value(o) == i
          ensures SumOf(o, j + 1) == if Bit(i, j) then Xor(SumOf(o, j), itab[j]) else SumOf(o, j)
        {
          SumStep(o, j, itab);
        }
        if Bit(i, j) {
          w := Xor(w, itab[j]);
        }
        j := j + 1;
      }
      AllUnits();
    }
  }

  ghost function SumOf(o: Octet, k: nat): (w: Word)
    requires k <= 8
  {
    Divide(GENERATOR, PartialSum(o, k), Zeros(8))
  }

  lemma NoUnits()
    ensures forall o: Octet :: SumOf(o, 0) == Zeros(16)
  {
    forall o: Octet
      ensures SumOf(o, 0) == Zeros(16)
    {
      DivideZeros(GENERATOR, 8);
    }
  }

  lemma AllUnits()
    ensures forall o: Octet :: SumOf(o, 8) == TableEntry(o)
  {
    hide Divide;
    forall o: Octet
      ensures SumOf(o, 8) == TableEntry(o)
    {
      UnitsMakeOctet(o);
    }
  }

  lemma EightEntries(itab: seq<Word>)
    requires FirecodeTable.AreUnitEntries(itab)
    ensures |itab| == 8
  {}

  lemma SumStep(o: Octet, j: nat, itab: seq<Word>)
    requires j < 8 && FirecodeTable.AreUnitEntries(itab)
    ensures |itab| == 8 && SumOf(o, j + 1) == if Bit(Value(o), j) then Xor(SumOf(o, j), itab[j]) else SumOf(o, j)
  {
    hide Divide, GENERATOR, PartialSum;
    BitOfValue(o, j);
    EntryStep(o, j);
    if !o[7 - j] {
      XorZeros(SumOf(o, j));
    }
  }

  lemma XorZeros(w: Word)
    ensures Xor(w, Zeros(16)) == w
  {}
}

/** The demodulator's symbol selection, in-place transforms and differential demapping. */
module Demodulator {
  import opened Pigeonhole
  import opened Division
  import opened FrequencyDeinterleaver

  /** Real and imaginary part of the phase step between two symbols at one carrier's FFT bin, samples interleaved. */
  function StepRe(cur: seq<real>, prev: seq<real>, ind: int): real
    requires 0 <= ind && ind + 1 < |cur| && ind + 1 < |prev|
  {
    cur[ind] * prev[ind] + cur[ind + 1] * prev[ind + 1]
  }

  function StepIm(cur: seq<real>, prev: seq<real>, ind: int): real
    requires 0 <= ind && ind + 1 < |cur| && ind + 1 < |prev|
  {
    prev[ind] * cur[ind + 1] - cur[ind] * prev[ind + 1]
  }

  function Power(prev: seq<real>, ind: int): real
    requires 0 <= ind && ind + 1 < |prev|
  {
    prev[ind] * prev[ind] + prev[ind + 1] * prev[ind + 1]
  }

  /** The step takes the previous symbol to the current one: their product is the current one, times the power. */
  lemma StepFromPrevious(cur: seq<real>, prev: seq<real>, ind: int)
    requires 0 <= ind && ind + 1 < |cur| && ind + 1 < |prev|
    ensures StepRe(cur, prev, ind) * prev[ind] - StepIm(cur, prev, ind) * prev[ind + 1] == cur[ind] * Power(prev, ind)
    ensures StepIm(cur, prev, ind) * prev[ind] + StepRe(cur, prev, ind) * prev[ind + 1]
         == cur[ind + 1] * Power(prev, ind)
  {
    ComplexProduct(cur[ind], cur[ind + 1], prev[ind], prev[ind + 1]);
  }

  lemma ComplexProduct(x: real, y: real, u: real, v: real)
    ensures (x * u + y * v) * u - (u * y - x * v) * v == x * (u * u + v * v)
    ensures (u * y - x * v) * u + (x * u + y * v) * v == y * (u * u + v * v)
  {
    assert (x * u + y * v) * u == x * (u * u) + y * v * u;
    assert (u * y - x * v) * v == y * v * u - x * (v * v);
    assert x * (u * u + v * v) == x * (u * u) + x * (v * v);
    assert (u * y - x * v) * u == y * (u * u) - x * v * u;
    assert (x * u + y * v) * v == x * v * u + y * (v * v);
    assert y * (u * u + v * v) == y * (u * u) + y * (v * v);
  }

  /** The current value is (a + ib) times the previous one. */
  ghost predicate Turned(cur: seq<real>, prev: seq<real>, ind: int, a: real, b: real) {
    && 0 <= ind && ind + 1 < |cur| && ind + 1 < |prev|
    && cur[ind] == a * prev[ind] - b * prev[ind + 1] && cur[ind + 1] == b * prev[ind] + a * prev[ind + 1]
  }

  /** So a + ib, sent as the step between two symbols, comes out, times the power received. */
  lemma StepOfTurn(cur: seq<real>, prev: seq<real>, ind: int, a: real, b: real)
    requires Turned(cur, prev, ind, a, b)
    ensures StepRe(cur, prev, ind) == a * Power(prev, ind) && StepIm(cur, prev, ind) == b * Power(prev, ind)
  {
    TurnedProduct(a, b, prev[ind], prev[ind + 1]);
  }

  lemma TurnedProduct(a: real, b: real, u: real, v: real)
    ensures (a * u - b * v) * u + (b * u + a * v) * v == a * (u * u + v * v)
    ensures u * (b * u + a * v) - (a * u - b * v) * v == b * (u * u + v * v)
  {
    assert (a * u - b * v) * u == a * (u * u) - b * v * u;
    assert (b * u + a * v) * v == b * v * u + a * (v * v);
    assert a * (u * u + v * v) == a * (u * u) + a * (v * v);
    assert u * (b * u + a * v) == b * (u * u) + a * v * u;
    assert (a * u - b * v) * v == a * v * u - b * (v * v);
    assert b * (u * u + v * v) == b * (u * u) + b * (v * v);
  }

  /** The FFT bin of carrier p - n/2: negative frequencies come last. */
  function Bin(n: int, p: int): int {
    if p < n / 2 then p + n / 2 else p - n / 2
  }

  /** The sample index the two loops compute for table entry c. */
  function SourceIndex(n: int, c: int): int {
    if c < n / 8 * 3 then (n / 2 + n / 8) * 2 + 2 * c else 2 * (c - n / 8 * 3) + 2
  }

  lemma SourceIsBin(n: int, p: int)
    requires n % 8 == 0 && n >= 8 && InUse(n, p)
    ensures SourceIndex(n, CarrierIndex(n, p)) == 2 * Bin(n, p)
    ensures 0 <= Bin(n, p) < n
  {
    var e := n / 8;
    assert n == 8 * e && n / 2 == 4 * e;
  }

  lemma SourceInRange(n: int, c: int)
    requires n % 8 == 0 && n >= 8 && 0 <= c < n / 4 * 3
    ensures 0 <= SourceIndex(n, c) && SourceIndex(n, c) + 1 < 2 * n
  {
    var e := n / 8;
    assert n == 8 * e && n / 2 == 4 * e && n / 4 == 2 * e;
  }

  /** Output of one symbol at position at: table entry c's value, real and imaginary. */
  ghost predicate EntryWritten(n: int, tab: seq<int>, cur: seq<real>, prev: seq<real>, output: seq<real>, at: nat,
                               c: int)
    requires FftSize(n) && n >= 8 && |tab| == n / 4 * 3 && |cur| == |prev| == 2 * n
    requires 0 <= c < |tab| && 1 <= tab[c] <= |tab| && at + 2 * |tab| <= |output|
  {
    FftSizeFactors(n);
    SourceInRange(n, c);
    && output[at + tab[c] - 1] == StepRe(cur, prev, SourceIndex(n, c))
    && output[at + tab[c] - 1 + |tab|] == StepIm(cur, prev, SourceIndex(n, c))
  }

  /** QPSK symbol t of the standard's order, at its place in the output. */
  ghost predicate SymbolWritten(n: int, cur: seq<real>, prev: seq<real>, output: seq<real>, at: nat, t: int)
    requires FftSize(n) && n >= 8 && |cur| == |prev| == 2 * n
  {
    var half := n / 4 * 3;
    && 0 <= t < |Chosen(n, n)| == half && at + 2 * half <= |output|
    && 0 <= Bin(n, Chosen(n, n)[t]) < n
    && output[at + t] == StepRe(cur, prev, 2 * Bin(n, Chosen(n, n)[t]))
    && output[at + half + t] == StepIm(cur, prev, 2 * Bin(n, Chosen(n, n)[t]))
  }

  /** One symbol's block of the output holds the QPSK symbols in their order of section 14.6. */
  ghost predicate BlockWritten(n: int, cur: seq<real>, prev: seq<real>, output: seq<real>, at: nat)
    requires FftSize(n) && n >= 8 && |cur| == |prev| == 2 * n
  {
    forall t :: 0 <= t < n / 4 * 3 ==> SymbolWritten(n, cur, prev, output, at, t)
  }

  ghost predicate EntriesWritten(n: int, tab: seq<int>, cur: seq<real>, prev: seq<real>, output: seq<real>, at: nat,
                                 upto: int)
    requires FftSize(n) && n >= 8 && |tab| == n / 4 * 3 && |cur| == |prev| == 2 * n && at + 2 * |tab| <= |output|
  {
    && upto <= |tab|
    && forall c :: 0 <= c < upto ==> 1 <= tab[c] <= |tab| && EntryWritten(n, tab, cur, prev, output, at, c)
  }

  ghost predicate OutsideKept(before: seq<real>, after: seq<real>, at: nat, w: int) {
    && |after| == |before|
    && forall i :: 0 <= i < |before| && (i < at || at + w <= i) ==> after[i] == before[i]
  }

  /** The entry written last is in place, and the earlier ones, with other numbers, still are. */
  lemma EntriesStep(n: int, tab: seq<int>, cur: seq<real>, prev: seq<real>, before: seq<real>, after: seq<real>,
                    at: nat, c: int)
    requires FftSize(n) && n >= 8 && |tab| == n / 4 * 3 && |cur| == |prev| == 2 * n &&
              at + 2 * |tab| <= |before| == |after|
    requires 0 <= c < |tab| && Injective(tab) && 1 <= tab[c] <= |tab|
    requires EntriesWritten(n, tab, cur, prev, before, at, c)
    requires EntryWritten(n, tab, cur, prev, after, at, c)
    requires forall i ::
              0 <= i < |before| && i != at + tab[c] - 1 && i != at + tab[c] - 1 + |tab| ==> after[i] == before[i]
    ensures EntriesWritten(n, tab, cur, prev, after, at, c + 1)
  {
    hide StepRe, StepIm, SourceIndex;
    forall k | 0 <= k < c + 1
      ensures 1 <= tab[k] <= |tab| && EntryWritten(n, tab, cur, prev, after, at, k)
    {
      if k < c {
        assert EntryWritten(n, tab, cur, prev, before, at, k);
        assert tab[k] != tab[c];
      }
    }
  }

  lemma EntriesMakeBlock(n: int, tab: seq<int>, cur: seq<real>, prev: seq<real>, output: seq<real>, at: nat)
    requires FftSize(n) && n >= 8 && |tab| == n / 4 * 3 && |cur| == |prev| == 2 * n && at + 2 * |tab| <= |output|
    requires Numbered(n, tab, n)
    requires EntriesWritten(n, tab, cur, prev, output, at, |tab|)
    ensures BlockWritten(n, cur, prev, output, at)
  {
    FftSizeFactors(n);
    IndicesBijective(n);
    IndicesInRange(n);
    hide StepRe, StepIm, SourceIndex, Bin;
    forall t | 0 <= t < n / 4 * 3
      ensures SymbolWritten(n, cur, prev, output, at, t)
    {
      var p := Chosen(n, n)[t];
      var c := Indices(n)[t];
      SourceIsBin(n, p);
      assert tab[c] == t + 1;
      assert EntryWritten(n, tab, cur, prev, output, at, c);
    }
  }

  /** Where QPSK symbol t turned its carrier by a + ib, its cells are a and b times the power received there. */
  lemma TurnRecovered(n: int, cur: seq<real>, prev: seq<real>, output: seq<real>, at: nat, t: int, a: real, b: real)
    requires FftSize(n) && n >= 8 && |cur| == |prev| == 2 * n && SymbolWritten(n, cur, prev, output, at, t)
    requires Turned(cur, prev, 2 * Bin(n, Chosen(n, n)[t]), a, b)
    ensures output[at + t] == a * Power(prev, 2 * Bin(n, Chosen(n, n)[t]))
    ensures output[at + n / 4 * 3 + t] == b * Power(prev, 2 * Bin(n, Chosen(n, n)[t]))
  {
    hide StepRe, StepIm, Power, Bin, Chosen, FftSize, Turned;
    StepOfTurn(cur, prev, 2 * Bin(n, Chosen(n, n)[t]), a, b);
  }

  class Demodulator {
    const fftSize: int
    const symbolsPerFic: nat
    const numberOfCif: nat
    const symbolsPerCif: nat
    const symbStart: nat
    const symbEnd: nat
    const deinterleaverTab: array<int>

    ghost predicate Valid()
      reads deinterleaverTab
    {
      && FftSize(fftSize) && fftSize >= 8 && symbStart <= symbEnd < symbolsPerCif
      && deinterleaverTab.Length == fftSize / 4 * 3
      && Numbered(fftSize, deinterleaverTab[..], fftSize)
    }

    function Carriers(): int { fftSize / 4 * 3 }

    constructor (fftSize: int, symbolsPerFic: nat, numberOfCif: nat, symbolsPerCif: nat, symbStart: nat, symbEnd: nat)
      requires FftSize(fftSize) && symbStart <= symbEnd < symbolsPerCif
      ensures Valid() && fresh(deinterleaverTab)
      ensures this.fftSize == fftSize && this.symbolsPerFic == symbolsPerFic && this.numberOfCif == numberOfCif
      ensures this.symbolsPerCif == symbolsPerCif && this.symbStart == symbStart && this.symbEnd == symbEnd
    {
      var tab := GenerateFrequencyDeInterleaverTab(fftSize);
      deinterleaverTab := tab;
      this.fftSize, this.symbolsPerFic, this.numberOfCif := fftSize, symbolsPerFic, numberOfCif;
      this.symbolsPerCif, this.symbStart, this.symbEnd := symbolsPerCif, symbStart, symbEnd;
    }

    /** One symbol: each table entry writes its real and its imaginary cell, and no cell is written twice. */
    method DemapSymbol(cur: seq<real>, prev: seq<real>, dqpsk: array<real>, at: nat)
      requires Valid() && |cur| == |prev| == 2 * fftSize && at + 2 * Carriers() <= dqpsk.Length
      modifies dqpsk
      ensures BlockWritten(fftSize, cur, prev, dqpsk[..], at)
      ensures OutsideKept(old(dqpsk[..]), dqpsk[..], at, 2 * Carriers())
    {
      hide EntriesWritten, OutsideKept, BlockWritten, Numbered, SourceIndex, FftSize;
      FftSizeFactors(fftSize);
      ghost var before := dqpsk[..];
      var step1InitialIndex := (fftSize / 2 + fftSize / 8) * 2;
      var j := 0;
      NothingWritten(fftSize, deinterleaverTab[..], cur, prev, dqpsk[..], at);
      LoopIndex(fftSize, 0);
      while j < Carriers()
        invariant 0 <= j <= Carriers() && j % 2 == 0
        invariant EntriesWritten(fftSize, deinterleaverTab[..], cur, prev, dqpsk[..], at, j / 2)
        invariant OutsideKept(before, dqpsk[..], at, 2 * Carriers())
      {
        LoopIndex(fftSize, j);
        WriteEntry(cur, prev, dqpsk, at, j / 2, step1InitialIndex + j);
        j := j + 2;
      }
      j := Carriers();
      while j < 2 * Carriers()
        invariant Carriers() <= j <= 2 * Carriers() && j % 2 == 0
        invariant EntriesWritten(fftSize, deinterleaverTab[..], cur, prev, dqpsk[..], at, j / 2)
        invariant OutsideKept(before, dqpsk[..], at, 2 * Carriers())
      {
        LoopIndex(fftSize, j);
        WriteEntry(cur, prev, dqpsk, at, j / 2, j - Carriers() + 2);
        j := j + 2;
      }
      EntriesMakeBlock(fftSize, deinterleaverTab[..], cur, prev, dqpsk[..], at);
    }

    /** Symbols of the sub-channel in each CIF. */
    function Width(): nat
      requires symbStart <= symbEnd
    {
      symbEnd - symbStart + 1
    }

    function Blocks(ficOnly: bool): nat
      requires symbStart <= symbEnd
    {
      if ficOnly then symbolsPerFic else symbolsPerFic + numberOfCif * Width()
    }

    /** The OFDM symbol demapped into block b of the output: the FIC's, then the sub-channel's CIF by CIF. */
    function BlockSymbol(b: nat): (i: nat)
      requires symbStart <= symbEnd
      ensures i > 0
    {
      if b < symbolsPerFic then b + 1
      else
        var c, r := (b - symbolsPerFic) / Width(), (b - symbolsPerFic) % Width();
        1 + symbolsPerFic + c * symbolsPerCif + symbStart + r
    }

    lemma BlockOfCif(b: nat, cif: nat, r: nat)
      requires symbStart <= symbEnd && b == symbolsPerFic + cif * Width() + r && r < Width()
      ensures BlockSymbol(b) == 1 + symbolsPerFic + cif * symbolsPerCif + symbStart + r
    {
      QuotientUnique(b - symbolsPerFic, cif, r, Width());
    }

    /** The first blocks of the output are done, each from its own symbol and the one before. */
    ghost predicate BlocksWritten(symbols: seq<seq<real>>, output: seq<real>, upto: nat)
      reads deinterleaverTab
      requires Valid() && AllFramed(symbols)
    {
      forall b: nat :: b < upto ==>
        && 1 <= BlockSymbol(b) < |symbols|
        && BlockWritten(fftSize, symbols[BlockSymbol(b)], symbols[BlockSymbol(b) - 1], output, b * (2 * Carriers()))
    }

    ghost predicate AllFramed(symbols: seq<seq<real>>) {
      forall i :: 0 <= i < |symbols| ==> |symbols[i]| == 2 * fftSize
    }

    /** The whole output: every block, in order. */
    method DeQPSK(symbols: seq<seq<real>>, dqpsk: array<real>, ficOnly: bool)
      requires Valid() && AllFramed(symbols) && |symbols| >= 1 + symbolsPerFic + numberOfCif * symbolsPerCif
      requires dqpsk.Length >= Blocks(ficOnly) * (2 * Carriers())
      modifies dqpsk
      ensures BlocksWritten(symbols, dqpsk[..], Blocks(ficOnly))
    {
      hide AllFramed, BlocksWritten, BlockSymbol, Carriers, Blocks, Numbered, FftSize;
      var at := DemapFic(symbols, dqpsk, ficOnly);
      BlockCount(ficOnly);
      if ficOnly {
        return;
      }
      var cif := 0;
      while cif < numberOfCif
        invariant 0 <= cif <= numberOfCif
        invariant at == (symbolsPerFic + cif * Width()) * (2 * Carriers())
        invariant BlocksWritten(symbols, dqpsk[..], symbolsPerFic + cif * Width())
      {
        BlockCount(false);
        at := DemapCif(symbols, dqpsk, at, cif);
        cif := cif + 1;
      }
    }

    /** Every turn sent, in the block of its symbol. */
    lemma TurnsRecovered(symbols: seq<seq<real>>, output: seq<real>, upto: nat, k: nat, at: nat, t: int, a: real,
                         b: real)
      requires Valid() && AllFramed(symbols) && BlocksWritten(symbols, output, upto) && k < upto
      requires at == k * (2 * Carriers()) && 0 <= t < Carriers() == |Chosen(fftSize, fftSize)|
      requires 1 <= BlockSymbol(k) < |symbols|
      requires Turned(symbols[BlockSymbol(k)], symbols[BlockSymbol(k) - 1],
                      2 * Bin(fftSize, Chosen(fftSize, fftSize)[t]), a, b)
      ensures at + Carriers() + t < |output|
      ensures var power := Power(symbols[BlockSymbol(k) - 1], 2 * Bin(fftSize, Chosen(fftSize, fftSize)[t]));
              output[at + t] == a * power && output[at + Carriers() + t] == b * power
    {
      hide StepRe, StepIm, Power, Bin, Chosen, FftSize, Turned, BlockSymbol, Numbered;
      var cur, prev := symbols[BlockSymbol(k)], symbols[BlockSymbol(k) - 1];
      assert BlockWritten(fftSize, cur, prev, output, at);
      assert SymbolWritten(fftSize, cur, prev, output, at, t);
      TurnRecovered(fftSize, cur, prev, output, at, t, a, b);
    }

    method DemapFic(symbols: seq<seq<real>>, dqpsk: array<real>, ghost ficOnly: bool) returns (at: nat)
      requires Valid() && AllFramed(symbols) && |symbols| >= 1 + symbolsPerFic
      requires dqpsk.Length >= Blocks(ficOnly) * (2 * Carriers())
      modifies dqpsk
      ensures at == symbolsPerFic * (2 * Carriers()) && BlocksWritten(symbols, dqpsk[..], symbolsPerFic)
    {
      hide AllFramed, BlocksWritten, BlockSymbol, Carriers, Blocks, Numbered, FftSize;
      at := 0;
      NoBlockYet(symbols, dqpsk[..]);
      var i := 1;
      while i <= symbolsPerFic
        invariant 1 <= i <= symbolsPerFic + 1
        invariant at == (i - 1) * (2 * Carriers()) && BlocksWritten(symbols, dqpsk[..], i - 1)
      {
        FicBlock(i - 1, dqpsk.Length, ficOnly);
        DemapBlock(symbols, dqpsk, at, i, i - 1);
        at := at + 2 * Carriers();
        i := i + 1;
      }
    }

    method DemapCif(symbols: seq<seq<real>>, dqpsk: array<real>, start: nat, cif: nat) returns (at: nat)
      requires Valid() && AllFramed(symbols) && |symbols| >= 1 + symbolsPerFic + numberOfCif * symbolsPerCif
      requires cif < numberOfCif && dqpsk.Length >= Blocks(false) * (2 * Carriers())
      requires start == (symbolsPerFic + cif * Width()) * (2 * Carriers())
      requires BlocksWritten(symbols, dqpsk[..], symbolsPerFic + cif * Width())
      modifies dqpsk
      ensures at == (symbolsPerFic + (cif + 1) * Width()) * (2 * Carriers())
      ensures BlocksWritten(symbols, dqpsk[..], symbolsPerFic + (cif + 1) * Width())
    {
      hide AllFramed, BlocksWritten, BlockSymbol, Carriers, Numbered, FftSize;
      at := start;
      var startSymb := 1 + symbolsPerFic + cif * symbolsPerCif + symbStart;
      var endSymb := 1 + symbolsPerFic + cif * symbolsPerCif + symbEnd;
      var i := startSymb;
      ghost var b := symbolsPerFic + cif * Width();
      while i <= endSymb
        invariant startSymb <= i <= endSymb + 1
        invariant b == symbolsPerFic + cif * Width() + (i - startSymb)
        invariant at == b * (2 * Carriers()) && BlocksWritten(symbols, dqpsk[..], b)
      {
        CifBlock(b, cif, i - startSymb, dqpsk.Length);
        DemapBlock(symbols, dqpsk, at, i, b);
        at := at + 2 * Carriers();
        i := i + 1;
        b := b + 1;
      }
      OneMore(cif, Width());
    }

    lemma FicBlock(b: nat, length: nat, ficOnly: bool)
      requires symbStart <= symbEnd && b < symbolsPerFic && fftSize >= 8 && length >= Blocks(ficOnly) * (2 * Carriers())
      ensures BlockSymbol(b) == b + 1 && length >= b * (2 * Carriers()) + 2 * Carriers()
      ensures Carriers() > 0 && (b + 1) * (2 * Carriers()) == b * (2 * Carriers()) + 2 * Carriers()
    {
      MulGap(b, Blocks(ficOnly), 2 * Carriers());
      OneMore(b, 2 * Carriers());
    }

    lemma CifBlock(b: nat, cif: nat, r: nat, length: nat)
      requires symbStart <= symbEnd < symbolsPerCif && fftSize >= 8 && length >= Blocks(false) * (2 * Carriers())
      requires cif < numberOfCif && r < Width() && b == symbolsPerFic + cif * Width() + r
      ensures BlockSymbol(b) == 1 + symbolsPerFic + cif * symbolsPerCif + symbStart + r
      ensures BlockSymbol(b) < 1 + symbolsPerFic + numberOfCif * symbolsPerCif
      ensures length >= b * (2 * Carriers()) + 2 * Carriers()
      ensures Carriers() > 0 && (b + 1) * (2 * Carriers()) == b * (2 * Carriers()) + 2 * Carriers()
    {
      BlockOfCif(b, cif, r);
      MulGap(cif, numberOfCif, Width());
      MulGap(cif, numberOfCif, symbolsPerCif);
      MulGap(b, Blocks(false), 2 * Carriers());
      OneMore(b, 2 * Carriers());
    }

    lemma BlockCount(ficOnly: bool)
      requires symbStart <= symbEnd
      ensures Blocks(ficOnly) == if ficOnly then symbolsPerFic else symbolsPerFic + numberOfCif * Width()
    {}

    lemma NoBlockYet(symbols: seq<seq<real>>, output: seq<real>)
      requires Valid() && AllFramed(symbols)
      ensures BlocksWritten(symbols, output, 0)
    {}

    /** One turn of either loop over symbols. */
    method DemapBlock(symbols: seq<seq<real>>, dqpsk: array<real>, at: nat, i: nat, ghost b: nat)
      requires Valid() && AllFramed(symbols) && 1 <= i < |symbols| && i == BlockSymbol(b)
      requires at == b * (2 * Carriers()) && dqpsk.Length >= at + 2 * Carriers()
      requires BlocksWritten(symbols, dqpsk[..], b)
      modifies dqpsk
      ensures BlocksWritten(symbols, dqpsk[..], b + 1)
    {
      ghost var before := dqpsk[..];
      DemapSymbol(symbols[i], symbols[i - 1], dqpsk, at);
      BlocksKept(symbols, before, dqpsk[..], b);
    }

    lemma BlocksKept(symbols: seq<seq<real>>, before: seq<real>, after: seq<real>, b: nat)
      requires Valid() && AllFramed(symbols) && BlocksWritten(symbols, before, b)
      requires OutsideKept(before, after, b * (2 * Carriers()), 2 * Carriers())
      ensures BlocksWritten(symbols, after, b)
    {
      hide BlockWritten, OutsideKept, BlockSymbol;
      forall c: nat | c < b
        ensures 1 <= BlockSymbol(c) < |symbols|
        ensures BlockWritten(fftSize, symbols[BlockSymbol(c)], symbols[BlockSymbol(c) - 1], after, c * (2 * Carriers()))
      {
        BlockKept(symbols[BlockSymbol(c)], symbols[BlockSymbol(c) - 1], before, after, c, b);
      }
    }

    lemma BlockKept(cur: seq<real>, prev: seq<real>, before: seq<real>, after: seq<real>, c: nat, b: nat)
      requires Valid() && c < b && |cur| == |prev| == 2 * fftSize
      requires BlockWritten(fftSize, cur, prev, before, c * (2 * Carriers()))
      requires OutsideKept(before, after, b * (2 * Carriers()), 2 * Carriers())
      ensures BlockWritten(fftSize, cur, prev, after, c * (2 * Carriers()))
    {
      var at := c * (2 * Carriers());
      MulGap(c, b, 2 * Carriers());
      hide StepRe, StepIm, Bin, Chosen, FftSize;
      forall t | 0 <= t < Carriers()
        ensures SymbolWritten(fftSize, cur, prev, after, at, t)
      {
        assert SymbolWritten(fftSize, cur, prev, before, at, t);
      }
    }

    function FirstSymbol(cif: nat): nat { symbolsPerFic + cif * symbolsPerCif + symbStart }

    function LastSymbol(cif: nat): nat { 1 + symbolsPerFic + cif * symbolsPerCif + symbEnd }

    /** The symbols of the FIC and of the first CIFs' sub-channel, each with the symbol before it. */
    ghost predicate NeededUpTo(i: nat, cifs: nat) {
      i <= symbolsPerFic || exists c: nat :: c < cifs && FirstSymbol(c) <= i <= LastSymbol(c)
    }

    ghost predicate Needed(i: nat, ficOnly: bool) {
      NeededUpTo(i, if ficOnly then 0 else numberOfCif)
    }

    /** Every symbol demapped, and its predecessor, is among the needed ones. */
    lemma DemappedAreNeeded(b: nat, ficOnly: bool)
      requires symbStart <= symbEnd < symbolsPerCif && b < Blocks(ficOnly)
      ensures Needed(BlockSymbol(b), ficOnly) && Needed(BlockSymbol(b) - 1, ficOnly)
    {
      if b >= symbolsPerFic {
        var c, r := (b - symbolsPerFic) / Width(), (b - symbolsPerFic) % Width();
        if numberOfCif <= c {
          MulMonotone(numberOfCif, c, Width());
        }
        assert FirstSymbol(c) <= BlockSymbol(b) - 1 < BlockSymbol(b) <= LastSymbol(c);
      }
    }

    /** The needed symbols are read: each is demapped or precedes one that is. */
    lemma NeededAreDemapped(i: nat, ficOnly: bool) returns (b: nat)
      requires symbStart <= symbEnd < symbolsPerCif && symbolsPerFic > 0 && Needed(i, ficOnly)
      ensures b < Blocks(ficOnly) && (i == BlockSymbol(b) || i == BlockSymbol(b) - 1)
    {
      if i <= symbolsPerFic {
        b := if i == 0 then 0 else i - 1;
      } else {
        var c: nat :| c < numberOfCif && FirstSymbol(c) <= i <= LastSymbol(c);
        var r := if i == FirstSymbol(c) then 0 else i - FirstSymbol(c) - 1;
        b := BlockNear(c, r);
      }
    }

    lemma BlockNear(c: nat, r: nat) returns (b: nat)
      requires symbStart <= symbEnd && c < numberOfCif && r < Width()
      ensures b < Blocks(false) && BlockSymbol(b) == FirstSymbol(c) + 1 + r
    {
      b := symbolsPerFic + c * Width() + r;
      BlockOfCif(b, c, r);
      MulGap(c, numberOfCif, Width());
    }

    /** Earlier CIFs reach at most the first symbol of this one, and only when the sub-channel fills its CIF. */
    lemma EarlierCifs(c: nat, cif: nat)
      requires symbStart <= symbEnd < symbolsPerCif && c < cif
      ensures LastSymbol(c) <= FirstSymbol(cif)
      ensures LastSymbol(c) == FirstSymbol(cif) ==> LastSymbol(cif) - FirstSymbol(cif) == symbolsPerCif
    {
      MulGap(c, cif, symbolsPerCif);
    }

    /** The symbols of a CIF that have been transformed before its turn. */
    lemma AlreadyTransformed(cif: nat, i: nat)
      requires symbStart <= symbEnd < symbolsPerCif && FirstSymbol(cif) <= i <= LastSymbol(cif)
      ensures NeededUpTo(i, cif) <==>
                || i == symbolsPerFic
                || (LastSymbol(cif) - FirstSymbol(cif) == symbolsPerCif && i == symbolsPerFic + cif * symbolsPerCif)
    {
      forall c: nat | c < cif && FirstSymbol(c) <= i <= LastSymbol(c)
        ensures i == FirstSymbol(cif) && LastSymbol(cif) - FirstSymbol(cif) == symbolsPerCif
      {
        EarlierCifs(c, cif);
      }
      if cif > 0 && LastSymbol(cif) - FirstSymbol(cif) == symbolsPerCif && i == symbolsPerFic + cif * symbolsPerCif {
        var c := cif - 1;
        OneMore(c, symbolsPerCif);
        assert FirstSymbol(c) <= i <= LastSymbol(c);
      }
    }

    /** Each symbol's count grows by one if it is among the given, and stays otherwise. */
    ghost predicate CountedOnce(before: seq<nat>, after: seq<nat>, cifs: nat) {
      && |after| == |before|
      && forall i: nat :: i < |before| ==> after[i] == before[i] + if NeededUpTo(i, cifs) then 1 else 0
    }

    /** The transforms are in place, so a second one would destroy the symbol: each needed symbol gets exactly one. */
    method FFTInPlace(transforms: array<nat>, ficOnly: bool)
      requires symbStart <= symbEnd < symbolsPerCif
      requires transforms.Length >= 1 + symbolsPerFic + numberOfCif * symbolsPerCif
      modifies transforms
      ensures forall i: nat :: i < transforms.Length ==>
                transforms[i] == old(transforms[i]) + if Needed(i, ficOnly) then 1 else 0
    {
      ghost var before := transforms[..];
      var symb := 0;
      while symb <= symbolsPerFic
        invariant 0 <= symb <= symbolsPerFic + 1
        invariant forall i: nat :: i < transforms.Length ==> transforms[i] == before[i] + if i < symb then 1 else 0
      {
        transforms[symb] := transforms[symb] + 1;
        symb := symb + 1;
      }
      if ficOnly {
        return;
      }
      var cif := 0;
      while cif < numberOfCif
        invariant 0 <= cif <= numberOfCif
        invariant CountedOnce(before, transforms[..], cif)
      {
        TransformCif(transforms, cif, before);
        cif := cif + 1;
      }
    }

    method TransformCif(transforms: array<nat>, cif: nat, ghost before: seq<nat>)
      requires symbStart <= symbEnd < symbolsPerCif && cif < numberOfCif
      requires transforms.Length >= 1 + symbolsPerFic + numberOfCif * symbolsPerCif
      requires CountedOnce(before, transforms[..], cif)
      modifies transforms
      ensures CountedOnce(before, transforms[..], cif + 1)
    {
      MulGap(cif, numberOfCif, symbolsPerCif);
      var startSymb := symbolsPerFic + cif * symbolsPerCif + symbStart;
      var endSymb := 1 + symbolsPerFic + cif * symbolsPerCif + symbEnd;
      var symb := startSymb;
      assert startSymb == FirstSymbol(cif) && endSymb == LastSymbol(cif) && endSymb < transforms.Length;
      hide NeededUpTo, FirstSymbol, LastSymbol;
      while symb <= endSymb
        invariant startSymb <= symb <= endSymb + 1
        invariant forall i: nat :: i < transforms.Length ==>
                    transforms[i] == before[i] + if NeededUpTo(i, cif) || startSymb <= i < symb then 1 else 0
      {
        AlreadyTransformed(cif, symb);
        if symb == symbolsPerFic ||
          (endSymb - startSymb == symbolsPerCif && symb == symbolsPerFic + cif * symbolsPerCif) {
        } else {
          transforms[symb] := transforms[symb] + 1;
        }
        symb := symb + 1;
      }
      NeededStep(cif);
    }

    lemma NeededStep(cif: nat)
      ensures forall i: nat ::
                NeededUpTo(i, cif + 1) <==> NeededUpTo(i, cif) || FirstSymbol(cif) <= i <= LastSymbol(cif)
    {
      hide FirstSymbol, LastSymbol;
      forall i: nat
        ensures NeededUpTo(i, cif + 1) <==> NeededUpTo(i, cif) || FirstSymbol(cif) <= i <= LastSymbol(cif)
      {
        if i > symbolsPerFic && NeededUpTo(i, cif + 1) {
          var c: nat :| c < cif + 1 && FirstSymbol(c) <= i <= LastSymbol(c);
          assert c < cif || c == cif;
        }
        if FirstSymbol(cif) <= i <= LastSymbol(cif) {
          assert cif < cif + 1 && NeededUpTo(i, cif + 1);
        }
        if i > symbolsPerFic && NeededUpTo(i, cif) {
          var c: nat :| c < cif && FirstSymbol(c) <= i <= LastSymbol(c);
          assert c < cif + 1 && NeededUpTo(i, cif + 1);
        }
      }
    }

    method WriteEntry(cur: seq<real>, prev: seq<real>, dqpsk: array<real>, at: nat, c: int, ind: int)
      requires Valid() && |cur| == |prev| == 2 * fftSize && at + 2 * Carriers() <= dqpsk.Length
      requires 0 <= c < Carriers() && ind == SourceIndex(fftSize, c)
      requires EntriesWritten(fftSize, deinterleaverTab[..], cur, prev, dqpsk[..], at, c)
      modifies dqpsk
      ensures EntriesWritten(fftSize, deinterleaverTab[..], cur, prev, dqpsk[..], at, c + 1)
      ensures forall b ::
                OutsideKept(b, old(dqpsk[..]), at, 2 * Carriers()) ==> OutsideKept(b, dqpsk[..], at, 2 * Carriers())
    {
      hide StepRe, StepIm, SourceIndex, EntriesWritten, FftSize, Numbered;
      FftSizeFactors(fftSize);
      SourceInRange(fftSize, c);
      TableIsPermutation(fftSize, deinterleaverTab[..]);
      ghost var before := dqpsk[..];
      dqpsk[at + (deinterleaverTab[c] - 1)] := StepRe(cur, prev, ind);
      dqpsk[at + (deinterleaverTab[c] - 1) + Carriers()] := StepIm(cur, prev, ind);
      EntriesStep(fftSize, deinterleaverTab[..], cur, prev, before, dqpsk[..], at, c);
    }
  }

  lemma NothingWritten(n: int, tab: seq<int>, cur: seq<real>, prev: seq<real>, output: seq<real>, at: nat)
    requires FftSize(n) && n >= 8 && |tab| == n / 4 * 3 && |cur| == |prev| == 2 * n && at + 2 * |tab| <= |output|
    ensures EntriesWritten(n, tab, cur, prev, output, at, 0) && OutsideKept(output, output, at, 2 * |tab|)
  {}

  lemma LoopIndex(n: int, j: int)
    requires n % 8 == 0 && n >= 8 && 0 <= j < 2 * (n / 4 * 3) && j % 2 == 0
    ensures 0 <= j / 2 < n / 4 * 3
    ensures SourceIndex(n, j / 2) == if j < n / 4 * 3 then (n / 2 + n / 8) * 2 + j else j - n / 4 * 3 + 2
    ensures j < n / 4 * 3 ==> j + 2 <= n / 4 * 3
    ensures j + 2 <= 2 * (n / 4 * 3) && (j + 2) % 2 == 0 && (j + 2) / 2 == j / 2 + 1
    ensures n / 4 * 3 % 2 == 0 && 2 * (n / 4 * 3) / 2 == n / 4 * 3
  {
    var e := n / 8;
    assert n == 8 * e && n / 4 == 2 * e;
  }
}

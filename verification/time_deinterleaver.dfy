/** The in-place time de-interleaver of EN 300 401 section 12 over a sliding window of units. */
module TimeDeinterleaver {
  import opened SlidingBuffer
  import opened Division
  import opened SymbolBuffer

  /** How far back CIF 16 of the window moves its samples, by position modulo 16. */
  const POS_TABLE: seq<nat> := [15, 7, 11, 3, 13, 5, 9, 1, 14, 6, 10, 2, 12, 4, 8, 0]

  function Pos(k: nat): (p: nat)
    ensures p <= 15
  {
    PosTableInRange(k % 16);
    POS_TABLE[k % 16]
  }

  lemma PosTableInRange(i: nat)
    requires i < 16
    ensures POS_TABLE[i] <= 15
  {
    PosIsReversedDelay(i);
  }

  /** The interleaver's delay in CIFs: the four low bits of the position, reversed. */
  function Delay(k: nat): nat {
    8 * (k % 2) + 4 * (k / 2 % 2) + 2 * (k / 4 % 2) + k / 8 % 2
  }

  lemma PosIsReversedDelay(i: nat)
    requires i < 16
    ensures POS_TABLE[i] + Delay(i) == 15
  {
    if i < 4 {
      if i == 0 {} else if i == 1 {} else if i == 2 {} else {}
    } else if i < 8 {
      if i == 4 {} else if i == 5 {} else if i == 6 {} else {}
    } else if i < 12 {
      if i == 8 {} else if i == 9 {} else if i == 10 {} else {}
    } else {
      if i == 12 {} else if i == 13 {} else if i == 14 {} else {}
    }
  }

  /** The layout of a unit: the FIC, then for each CIF the sub-channel with its padding. */
  datatype Layout = Layout(numberOfCif: nat, ficSize: nat, left: nat, audioSize: nat, right: nat) {

    ghost predicate Valid() {
      numberOfCif in {1, 2, 4, 8, 16} && audioSize % 16 == 0 && audioSize > 0
    }

    function Stride(): nat { left + audioSize + right }

    function UnitSize(): nat { ficSize + numberOfCif * Stride() }

    /** Units before the newest one of the window. */
    function UnitsBack(): nat
      requires numberOfCif > 0
    {
      16 / numberOfCif
    }

    /** Position of sample k of CIF q, counted from the first sample of CIF 0. */
    function Addr(q: nat, k: nat): nat
      requires numberOfCif > 0
    {
      q / numberOfCif * ficSize + q * Stride() + k
    }

    /** Where CIF 0 starts in a unit. */
    function Offset(): nat { ficSize + left }

    /** Index of entry (c, k) in the tables. */
    function Entry(c: nat, k: nat): nat {
      c * audioSize + k
    }
  }

  /** The parameters of a station in a transmission mode, in capacity units of 64 samples. */
  datatype Station = Station(startAddr: nat, size: nat, cuPerSymbol: nat, symbolsPerFic: nat, numberOfCif: nat) {

    /** Rounding up to whole symbols. */
    function SymbolsUpTo(cu: nat): nat
      requires cuPerSymbol > 0
    {
      (cu + cuPerSymbol - 1) / cuPerSymbol
    }

    /** The padding the decoder computes, and the FIC size of the mode. */
    function Padded(): Layout
      requires cuPerSymbol > 0
    {
      CeilCovers(startAddr + size, cuPerSymbol);
      Layout(numberOfCif, 64 * symbolsPerFic * cuPerSymbol,
             64 * (startAddr - startAddr / cuPerSymbol * cuPerSymbol),
             64 * size,
             64 * (SymbolsUpTo(startAddr + size) * cuPerSymbol - (startAddr + size)))
    }

    /** The unit size the scheduler computes: whole symbols, from the sub-channel's first to its last. */
    function DeqpskUnitSize(): int
      requires cuPerSymbol > 0 && size > 0
    {
      64 * (symbolsPerFic +
            ((startAddr + size - 1) / cuPerSymbol - startAddr / cuPerSymbol + 1) * numberOfCif) * cuPerSymbol
    }

    /** Sub-channel and padding together fill whole symbols. */
    lemma PaddedStride(last: int)
      requires cuPerSymbol > 0 && size > 0 && SymbolsUpTo(startAddr + size) == last + 1
      ensures Padded().Stride() == 64 * ((last - startAddr / cuPerSymbol + 1) * cuPerSymbol)
    {
      CeilCovers(startAddr + size, cuPerSymbol);
      SpanOf(startAddr / cuPerSymbol, last, cuPerSymbol);
      hide SymbolsUpTo;
    }

    /** Decoder and scheduler agree on the size of a unit. */
    lemma UnitSizesAgree()
      requires cuPerSymbol > 0 && size > 0
      ensures Padded().UnitSize() == DeqpskUnitSize()
      ensures 0 < numberOfCif <= 16 && 16 % numberOfCif == 0 ==> Padded().Valid()
    {
      var c, last := cuPerSymbol, (startAddr + size - 1) / cuPerSymbol;
      var symbols := last - startAddr / c + 1;
      QuotientShift(1, startAddr + size - 1, c);
      assert SymbolsUpTo(startAddr + size) == last + 1;
      PaddedStride(last);
      PaddedParts();
      hide Padded, SymbolsUpTo, Layout.Stride, Layout.Valid;
      SymbolsToSamples(symbolsPerFic, symbols, numberOfCif, c);
    }

    /** The sub-channel's symbols in each CIF. */
    function FirstSymbol(): nat
      requires cuPerSymbol > 0
    {
      startAddr / cuPerSymbol
    }

    function LastSymbol(): nat
      requires cuPerSymbol > 0 && size > 0
    {
      (startAddr + size - 1) / cuPerSymbol
    }

    /** The padding is what the first symbol holds ahead of the sub-channel and the last one behind it. */
    lemma PaddingAround()
      requires cuPerSymbol > 0 && size > 0
      ensures 64 * (FirstSymbol() * cuPerSymbol) + Padded().left == 64 * startAddr
      ensures 64 * (startAddr + size) + Padded().right == 64 * ((LastSymbol() + 1) * cuPerSymbol)
      ensures SymbolsUpTo(startAddr + size) == LastSymbol() + 1
    {
      CeilCovers(startAddr + size, cuPerSymbol);
      QuotientShift(1, startAddr + size - 1, cuPerSymbol);
      assert SymbolsUpTo(startAddr + size) == LastSymbol() + 1;
      hide SymbolsUpTo;
    }

    /** Where value i of capacity unit a of CIF c arrives: behind the FIC's symbols and those of the sub-channel in the
        CIFs before and ahead of it in its own. */
    ghost function ArrivesAt(c: nat, a: nat, i: nat): int
      requires cuPerSymbol > 0 && size > 0 && numberOfCif > 0
    {
      var before := symbolsPerFic + c % numberOfCif * (LastSymbol() - FirstSymbol() + 1) +
                    (a / cuPerSymbol - FirstSymbol());
      c / numberOfCif * DeqpskUnitSize() + 64 * (before * cuPerSymbol) + 64 * (a % cuPerSymbol) + i
    }

    /** Value k of CIF c is read where value k modulo 64 of the sub-channel's capacity unit k / 64 arrives. */
    lemma ReadsSubChannel(c: nat, k: nat)
      requires cuPerSymbol > 0 && size > 0 && numberOfCif > 0 && k < 64 * size
      ensures FirstSymbol() <= (startAddr + k / 64) / cuPerSymbol <= LastSymbol()
      ensures Padded().Offset() + Padded().Addr(c, k) == ArrivesAt(c, startAddr + k / 64, k % 64)
    {
      hide *;
      var d, n, w, a := cuPerSymbol, numberOfCif, LastSymbol() - FirstSymbol() + 1, startAddr + k / 64;
      SymbolsInOrder(a);
      Reading(c, k, a, w);
      Arriving(c, a, k % 64, w);
      Arrival(symbolsPerFic, w, n, d, c / n, c % n, FirstSymbol(), a / d);
      Remainder(a, d);
      Remainder(k, 64);
    }

    lemma SymbolsInOrder(a: nat)
      requires cuPerSymbol > 0 && size > 0 && startAddr <= a < startAddr + size
      ensures FirstSymbol() <= a / cuPerSymbol <= LastSymbol()
    {
      DivMonotone(startAddr, a, cuPerSymbol);
      DivMonotone(a, startAddr + size - 1, cuPerSymbol);
    }

    lemma Reading(c: nat, k: nat, a: nat, w: nat)
      requires cuPerSymbol > 0 && size > 0 && numberOfCif > 0 && w == LastSymbol() - FirstSymbol() + 1
      ensures Padded().Offset() + Padded().Addr(c, k) ==
                c / numberOfCif * (64 * symbolsPerFic * cuPerSymbol) +
                (c / numberOfCif * numberOfCif + c % numberOfCif) * (64 * (w * cuPerSymbol)) +
                64 * symbolsPerFic * cuPerSymbol + 64 * startAddr - 64 * (FirstSymbol() * cuPerSymbol) + k
    {
      PaddingAround();
      PaddedStride(LastSymbol());
      PaddedParts();
      hide Padded, Layout.Stride, SymbolsUpTo;
      Remainder(c, numberOfCif);
    }

    lemma Arriving(c: nat, a: nat, i: nat, w: nat)
      requires cuPerSymbol > 0 && size > 0 && numberOfCif > 0 && w == LastSymbol() - FirstSymbol() + 1
      ensures ArrivesAt(c, a, i) ==
                c / numberOfCif * (64 * (symbolsPerFic + w * numberOfCif) * cuPerSymbol) +
                64 * ((symbolsPerFic + c % numberOfCif * w + (a / cuPerSymbol - FirstSymbol())) * cuPerSymbol) +
                64 * (a % cuPerSymbol) + i
    {}

    lemma PaddedParts()
      requires cuPerSymbol > 0 && size > 0
      ensures Padded().numberOfCif == numberOfCif && Padded().ficSize == 64 * symbolsPerFic * cuPerSymbol
      ensures 0 < numberOfCif <= 16 && 16 % numberOfCif == 0 ==> Padded().Valid()
    {
      CeilCovers(startAddr + size, cuPerSymbol);
      hide SymbolsUpTo;
      if 0 < numberOfCif <= 16 && 16 % numberOfCif == 0 {
        Divisors(numberOfCif);
      }
    }
  }

  lemma Divisors(n: nat)
    requires 0 < n <= 16 && 16 % n == 0
    ensures n in {1, 2, 4, 8, 16}
  {}

  lemma SpanOf(first: int, last: int, c: int)
    ensures (last + 1) * c - first * c == (last - first + 1) * c
  {}

  lemma SymbolsToSamples(f: nat, s: int, n: nat, c: nat)
    ensures 64 * f * c + n * (64 * (s * c)) == 64 * (f + s * n) * c
  {
    assert n * (64 * (s * c)) == 64 * (s * n) * c;
  }

  lemma Remainder(a: nat, d: nat)
    requires d > 0
    ensures a == a / d * d + a % d
  {}

  /** Symbols and capacity units, FIC and sub-channel, told in samples. */
  lemma Arrival(f: nat, w: nat, n: nat, d: nat, u: nat, r: nat, first: nat, symbol: nat)
    requires first <= symbol
    ensures u * (64 * f * d) + (u * n + r) * (64 * (w * d)) + 64 * f * d - 64 * (first * d) + 64 * (symbol * d)
         == u * (64 * (f + w * n) * d) + 64 * ((f + r * w + (symbol - first)) * d)
  {
    SymbolsToSamples(f, w, n, d);
    UnitsAway(u, 64 * f * d, n, 64 * (w * d));
    assert (u * n + r) * (64 * (w * d)) == u * n * (64 * (w * d)) + r * (64 * (w * d));
    SumTimes(f, r, w, symbol - first, d);
    SumTimes(first, 0, w, symbol - first, d);
  }

  lemma UnitsAway(u: nat, x: nat, n: nat, y: nat)
    ensures u * (x + n * y) == u * x + u * n * y
  {
    assert u * (x + n * y) == u * x + u * (n * y);
  }

  lemma SumTimes(f: nat, r: nat, w: nat, s: nat, d: nat)
    ensures 64 * ((f + r * w + s) * d) == 64 * f * d + r * (64 * (w * d)) + 64 * (s * d)
  {
    assert (f + r * w + s) * d == f * d + r * w * d + s * d;
    assert r * w * d == r * (w * d);
  }

  lemma CeilCovers(a: nat, d: nat)
    requires d > 0
    ensures a <= (a + d - 1) / d * d
  {}

  lemma AddrGrows(l: Layout, q: nat, q': nat)
    requires l.Valid() && q < q'
    ensures l.Addr(q', 0) >= l.Addr(q, 0) + l.Stride()
  {
    var f, s := l.ficSize, l.Stride();
    var u, u' := q / l.numberOfCif, q' / l.numberOfCif;
    DivMonotone(q, q', l.numberOfCif);
    MulMonotone(u, u', f);
    MulMonotone(q + 1, q', s);
    assert (q + 1) * s == q * s + s;
  }

  lemma AddrInjective(l: Layout, q: nat, k: nat, q': nat, k': nat)
    requires l.Valid() && k < l.audioSize && k' < l.audioSize && l.Addr(q, k) == l.Addr(q', k')
    ensures q == q' && k == k'
  {
    if q < q' { AddrGrows(l, q, q'); }
    if q' < q { AddrGrows(l, q', q); }
  }

  /** A sample of CIF q lies in the unit of CIF q. */
  lemma AddrInUnit(l: Layout, q: nat, k: nat)
    requires l.Valid() && k < l.audioSize
    ensures l.Offset() + l.Addr(q, k) < (q / l.numberOfCif + 1) * l.UnitSize()
  {
    NextUnit(l.numberOfCif, l.ficSize, l.Stride(), q, q / l.numberOfCif);
  }

  lemma NextUnit(n: nat, f: nat, s: nat, q: nat, u: nat)
    requires n > 0 && u == q / n
    ensures f + u * f + q * s + s <= (u + 1) * (f + n * s)
  {
    assert q + 1 <= (u + 1) * n by { assert (u + 1) * n == u * n + n; }
    MulMonotone(q + 1, (u + 1) * n, s);
    assert (q + 1) * s == q * s + s;
    assert (u + 1) * f == u * f + f;
    assert (u + 1) * n * s == (u + 1) * (n * s);
    assert (u + 1) * (f + n * s) == (u + 1) * f + (u + 1) * (n * s);
  }

  lemma AddrInUnits(l: Layout, q: nat, k: nat, units: nat)
    requires l.Valid() && k < l.audioSize && q < units * l.numberOfCif
    ensures l.Offset() + l.Addr(q, k) < units * l.UnitSize()
  {
    AddrInUnit(l, q, k);
    var u := q / l.numberOfCif;
    if units <= u {
      MulMonotone(units, u, l.numberOfCif);
    }
    MulMonotone(u + 1, units, l.UnitSize());
  }

  /** Moving d units ahead moves every CIF d * numberOfCif ahead. */
  lemma AddrOfLaterUnit(l: Layout, d: nat, q: nat, k: nat)
    requires l.Valid()
    ensures l.Addr(d * l.numberOfCif + q, k) == d * l.UnitSize() + l.Addr(q, k)
  {
    var n, f, s := l.numberOfCif, l.ficSize, l.Stride();
    QuotientShift(d, q, n);
    UnitsAhead(d, q, q / n, n, f, s);
  }

  lemma UnitsAhead(d: nat, q: nat, u: nat, n: nat, f: nat, s: nat)
    ensures (d + u) * f + (d * n + q) * s == d * (f + n * s) + (u * f + q * s)
  {
    assert (d + u) * f == d * f + u * f;
    assert (d * n + q) * s == d * (n * s) + q * s;
    assert d * (f + n * s) == d * f + d * (n * s);
  }

  /** Number of CIFs in a window. */
  lemma WindowCifs(l: Layout)
    requires l.Valid()
    ensures (l.UnitsBack() + 1) * l.numberOfCif == 16 + l.numberOfCif
  {
    assert (l.UnitsBack() + 1) * l.numberOfCif == l.UnitsBack() * l.numberOfCif + l.numberOfCif;
  }

  /** Every cell of a window at position off lies below n. */
  ghost predicate Fits(l: Layout, off: nat, n: nat)
    requires l.Valid()
  {
    forall q: nat, k: nat :: q < 16 + l.numberOfCif && k < l.audioSize ==> off + l.Addr(q, k) < n
  }

  /** Cell (q, k) is the target of a table entry ahead of (c, m). */
  ghost predicate Reached(q: nat, k: nat, c: nat, m: nat) {
    Pos(k) <= q && (q - Pos(k) < c || (q - Pos(k) == c && k < m))
  }

  /** The CIF whose sample k stands in CIF q once the entries ahead of (c, m) are done. */
  ghost function Source(q: nat, k: nat, c: nat, m: nat): nat {
    if Reached(q, k, c, m) then q + 16 - Pos(k) else q
  }

  ghost predicate CellMoved<T>(l: Layout, off: nat, before: seq<T>, after: seq<T>, q: nat, k: nat, c: nat, m: nat)
    requires l.Valid() && Fits(l, off, |before|) && |after| == |before|
    requires q < 16 + l.numberOfCif && k < l.audioSize && c <= l.numberOfCif && (c == l.numberOfCif ==> m == 0)
  {
    after[off + l.Addr(q, k)] == before[off + l.Addr(Source(q, k, c, m), k)]
  }

  ghost predicate IsCell(l: Layout, off: nat, j: nat)
    requires l.Valid()
  {
    exists q: nat, k: nat :: q < 16 + l.numberOfCif && k < l.audioSize && j == off + l.Addr(q, k)
  }

  /** The entries ahead of (c, m) are done, and nothing else has changed. */
  ghost predicate Progress<T>(l: Layout, off: nat, before: seq<T>, after: seq<T>, c: nat, m: nat)
    requires l.Valid() && Fits(l, off, |before|) && c <= l.numberOfCif && (c == l.numberOfCif ==> m == 0)
  {
    && |after| == |before|
    && (forall q: nat, k: nat ::
        q < 16 + l.numberOfCif && k < l.audioSize ==> CellMoved(l, off, before, after, q, k, c, m))
    && (forall j: nat :: j < |before| && !IsCell(l, off, j) ==> after[j] == before[j])
  }

  /** The source of entry (c, m) still holds its original sample. */
  lemma SourceUntouched<T>(l: Layout, off: nat, before: seq<T>, after: seq<T>, c: nat, m: nat)
    requires l.Valid() && Fits(l, off, |before|) && c < l.numberOfCif && m < l.audioSize
    requires Progress(l, off, before, after, c, m)
    ensures after[off + l.Addr(16 + c, m)] == before[off + l.Addr(16 + c, m)]
  {
    assert CellMoved(l, off, before, after, 16 + c, m, c, m);
  }

  lemma ProgressStep<T>(l: Layout, off: nat, before: seq<T>, after: seq<T>, c: nat, m: nat, c': nat, m': nat)
    requires l.Valid() && Fits(l, off, |before|) && c < l.numberOfCif && m < l.audioSize
    requires Progress(l, off, before, after, c, m)
    requires if m + 1 < l.audioSize then c' == c && m' == m + 1 else c' == c + 1 && m' == 0
    ensures Progress(l, off, before, after[off + l.Addr(Pos(m) + c, m) := after[off + l.Addr(16 + c, m)]], c', m')
  {
    hide Layout.Addr, Pos;
    SourceUntouched(l, off, before, after, c, m);
    var t := Pos(m) + c;
    var at := off + l.Addr(t, m);
    var next := after[at := after[off + l.Addr(16 + c, m)]];
    forall q: nat, k: nat | q < 16 + l.numberOfCif && k < l.audioSize
      ensures CellMoved(l, off, before, next, q, k, c', m')
    {
      assert CellMoved(l, off, before, after, q, k, c, m);
      if l.Addr(q, k) == l.Addr(t, m) {
        AddrInjective(l, q, k, t, m);
      } else {
        OtherEntry(l, q, k, c, m, c', m');
      }
    }
    assert IsCell(l, off, at);
  }

  lemma OtherEntry(l: Layout, q: nat, k: nat, c: nat, m: nat, c': nat, m': nat)
    requires m < l.audioSize && k < l.audioSize
    requires if m + 1 < l.audioSize then c' == c && m' == m + 1 else c' == c + 1 && m' == 0
    requires q != Pos(m) + c || k != m
    ensures Reached(q, k, c', m') == Reached(q, k, c, m)
  {
    hide Pos;
  }

  /** The index tables of TimeDeinterleaverInit and the in-place move they drive. */
  class TimeDeinterleaver {
    const layout: Layout
    const inIdxTab: array<nat>
    const outIdxTab: array<nat>

    ghost predicate EntrySet(c: nat, k: nat)
      reads inIdxTab, outIdxTab
      requires layout.Valid() && layout.Entry(c, k) < inIdxTab.Length && inIdxTab.Length == outIdxTab.Length
    {
      && inIdxTab[layout.Entry(c, k)] == layout.Addr(16 + c, k)
      && outIdxTab[layout.Entry(c, k)] == layout.Addr(Pos(k) + c, k)
    }

    /** The tables hold the entries ahead of (c, m). */
    ghost predicate FilledTo(c: nat, m: nat)
      reads inIdxTab, outIdxTab
    {
      && layout.Valid() && inIdxTab.Length == outIdxTab.Length == layout.numberOfCif * layout.audioSize
      && (forall d: nat, k: nat :: k < layout.audioSize && (d < c || (d == c && k < m)) && d < layout.numberOfCif ==>
            layout.Entry(d, k) < inIdxTab.Length && EntrySet(d, k))
    }

    ghost predicate Valid()
      reads inIdxTab, outIdxTab
    {
      FilledTo(layout.numberOfCif, 0)
    }

    constructor (layout: Layout)
      requires layout.Valid()
      ensures Valid() && this.layout == layout && fresh(inIdxTab) && fresh(outIdxTab)
    {
      this.layout := layout;
      inIdxTab := new nat[layout.numberOfCif * layout.audioSize];
      outIdxTab := new nat[layout.numberOfCif * layout.audioSize];
      new;
      var pad := layout.left + layout.right;
      var begFicSize := 16 / layout.numberOfCif * layout.ficSize;
      var cif := 0;
      while cif < layout.numberOfCif
        invariant cif <= layout.numberOfCif && FilledTo(cif, 0)
        invariant fresh(inIdxTab) && fresh(outIdxTab) && inIdxTab != outIdxTab
      {
        FillCif(cif, pad, begFicSize);
        cif := cif + 1;
      }
    }

    method FillCif(cif: nat, pad: nat, begFicSize: nat)
      requires FilledTo(cif, 0) && cif < layout.numberOfCif && inIdxTab != outIdxTab
      requires pad == layout.left + layout.right && begFicSize == 16 / layout.numberOfCif * layout.ficSize
      modifies inIdxTab, outIdxTab
      ensures FilledTo(cif + 1, 0)
    {
      hide Layout.Addr, Pos, EntrySet;
      var extraPad := cif * pad;
      var i := cif * layout.audioSize;
      ghost var k := 0;
      OneMore(cif, layout.audioSize);
      while i < (cif + 1) * layout.audioSize
        invariant i == layout.Entry(cif, k) && k <= layout.audioSize
        invariant FilledTo(cif, k)
      {
        PosOfIndex(layout, cif, k);
        var curPos := POS_TABLE[i % 16];
        var curFicSize := (curPos + cif) / layout.numberOfCif * layout.ficSize;
        var inIdx := 16 * (layout.audioSize + pad) + begFicSize + extraPad + i;
        var outIdx := curPos * (layout.audioSize + pad) + curFicSize + extraPad + i;
        TableFormulas(layout, cif, k, inIdx, outIdx);
        SetEntry(cif, k, i, inIdx, outIdx);
        i := i + 1;
        k := k + 1;
      }
    }

    method SetEntry(ghost cif: nat, ghost k: nat, i: nat, inIdx: nat, outIdx: nat)
      requires FilledTo(cif, k) && cif < layout.numberOfCif && k < layout.audioSize && inIdxTab != outIdxTab
      requires i == layout.Entry(cif, k) && inIdx == layout.Addr(16 + cif, k) && outIdx == layout.Addr(Pos(k) + cif, k)
      modifies inIdxTab, outIdxTab
      ensures FilledTo(cif, k + 1)
    {
      hide Layout.Addr, Pos, Layout.Entry;
      EntryInRange(layout, cif, k);
      inIdxTab[i] := inIdx;
      outIdxTab[i] := outIdx;
      forall d: nat, m: nat | m < layout.audioSize && (d < cif || (d == cif && m < k + 1)) && d < layout.numberOfCif
        ensures layout.Entry(d, m) < inIdxTab.Length && EntrySet(d, m)
      {
        EntryInRange(layout, d, m);
        if d != cif || m != k {
          assert old(EntrySet(d, m));
          EntriesApart(layout, d, m, cif, k);
        }
      }
    }

    /** TimeDeInterleaver on the window at off: entry by entry, in place. */
    method Move<T>(data: array<T>, off: nat)
      requires Valid() && Fits(layout, off, data.Length)
      requires data as object != inIdxTab && data as object != outIdxTab
      modifies data
      ensures Deinterleaved(layout, off, old(data[..]), data[..])
    {
      hide Fits;
      ghost var before := data[..];
      var i := 0;
      ghost var c: nat, k: nat := 0, 0;
      NothingMoved(layout, off, before);
      while i < inIdxTab.Length
        invariant c <= layout.numberOfCif && k < layout.audioSize && (c == layout.numberOfCif ==> k == 0)
        invariant i == layout.Entry(c, k)
        invariant Progress(layout, off, before, data[..], c, k)
      {
        ghost var c': nat, k': nat := c, k + 1;
        if c == layout.numberOfCif {
          MulMonotone(layout.numberOfCif, c, layout.audioSize);
        }
        assert EntrySet(c, k);
        WindowIndices(layout, off, |before|, c, k);
        if k' == layout.audioSize {
          c', k' := c + 1, 0;
          OneMore(c, layout.audioSize);
        }
        ProgressStep(layout, off, before, data[..], c, k, c', k');
        data[off + outIdxTab[i]] := data[off + inIdxTab[i]];
        i := i + 1;
        c, k := c', k';
      }
      if c < layout.numberOfCif {
        EntryInRange(layout, c, k);
      }
    }
  }

  lemma EntriesApart(l: Layout, d: nat, m: nat, c: nat, k: nat)
    requires m < l.audioSize && k < l.audioSize && (d < c || (d == c && m < k))
    ensures l.Entry(d, m) < l.Entry(c, k)
  {
    if d < c { MulGap(d, c, l.audioSize); }
  }

  lemma EntryInRange(l: Layout, c: nat, k: nat)
    requires c < l.numberOfCif && k < l.audioSize
    ensures l.Entry(c, k) < l.numberOfCif * l.audioSize
  {
    MulGap(c, l.numberOfCif, l.audioSize);
  }

  /** The whole in-place move. */
  ghost predicate Deinterleaved<T>(l: Layout, off: nat, before: seq<T>, after: seq<T>)
    requires l.Valid() && Fits(l, off, |before|)
  {
    Progress(l, off, before, after, l.numberOfCif, 0)
  }

  lemma NothingMoved<T>(l: Layout, off: nat, s: seq<T>)
    requires l.Valid() && Fits(l, off, |s|)
    ensures Progress(l, off, s, s, 0, 0)
  {}

  lemma WindowIndices(l: Layout, off: nat, n: nat, c: nat, k: nat)
    requires l.Valid() && Fits(l, off, n) && c < l.numberOfCif && k < l.audioSize
    ensures off + l.Addr(16 + c, k) < n && off + l.Addr(Pos(k) + c, k) < n
  {
    hide Pos;
  }

  /** The table formula is the address of sample k of CIF p + c. */
  lemma EntryAddr(l: Layout, p: nat, c: nat, k: nat)
    requires l.Valid()
    ensures p * (l.audioSize + (l.left + l.right)) + (p + c) / l.numberOfCif * l.ficSize + c * (l.left + l.right) +
              l.Entry(c, k)
         == l.Addr(p + c, k)
  {
    var a, pad := l.audioSize, l.left + l.right;
    assert l.Stride() == a + pad;
    assert (p + c) * (a + pad) == p * (a + pad) + c * (a + pad);
    assert c * (a + pad) == c * a + c * pad;
  }

  lemma TableFormulas(l: Layout, c: nat, k: nat, inIdx: int, outIdx: int)
    requires l.Valid() && c < l.numberOfCif
    requires inIdx ==
              16 * (l.audioSize + (l.left + l.right)) + 16 / l.numberOfCif * l.ficSize + c * (l.left + l.right) +
                      l.Entry(c, k)
    requires outIdx ==
              Pos(k) * (l.audioSize + (l.left + l.right)) + (Pos(k) + c) / l.numberOfCif * l.ficSize +
                c * (l.left + l.right) + l.Entry(c, k)
    ensures inIdx == l.Addr(16 + c, k) && outIdx == l.Addr(Pos(k) + c, k)
  {
    hide Layout.Addr, Pos;
    EntryAddr(l, 16, c, k);
    EntryAddr(l, Pos(k), c, k);
    BeginningUnit(l, c);
  }

  lemma BeginningUnit(l: Layout, c: nat)
    requires l.Valid() && c < l.numberOfCif
    ensures (16 + c) / l.numberOfCif == 16 / l.numberOfCif
  {
    QuotientUnique(16 + c, 16 / l.numberOfCif, c, l.numberOfCif);
  }

  lemma PosOfIndex(l: Layout, c: nat, k: nat)
    requires l.Valid()
    ensures POS_TABLE[l.Entry(c, k) % 16] == Pos(k)
  {
    var m := l.audioSize / 16;
    assert l.Entry(c, k) == c * m * 16 + k by {
      assert c * (m * 16) == c * m * 16;
    }
    QuotientShift(c * m, k, 16);
  }
}

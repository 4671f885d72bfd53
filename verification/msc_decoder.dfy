/** The main service channel decoder's front end: the gate on the first units and the de-interleaved stream. */
module MscDecoder {
  import opened SlidingBuffer
  import opened Division
  import opened SymbolBuffer
  import opened TimeDeinterleaver

  /** Index in the stream of units of sample k of CIF q. */
  function Cell(l: Layout, q: nat, k: nat): nat
    requires l.Valid()
  {
    l.Offset() + l.Addr(q, k)
  }

  /** The CIF whose sample k stands in CIF q after d windows. */
  ghost function SourceCif(l: Layout, q: nat, k: nat, d: nat): nat {
    if Pos(k) <= q < Pos(k) + d * l.numberOfCif then q + 16 - Pos(k) else q
  }

  ghost predicate Restored<T>(l: Layout, raw: seq<T>, cur: seq<T>, q: nat, k: nat, src: nat)
    requires l.Valid()
  {
    Cell(l, q, k) < |cur| && Cell(l, src, k) < |raw| && cur[Cell(l, q, k)] == raw[Cell(l, src, k)]
  }

  /** cur is what d in-place windows make of the received units raw. */
  ghost predicate StreamState<T>(l: Layout, raw: seq<T>, cur: seq<T>, units: nat, d: nat)
    requires l.Valid()
  {
    && |raw| == |cur| == units * l.UnitSize()
    && d + l.UnitsBack() <= units
    && (forall q: nat, k: nat ::
        q < units * l.numberOfCif && k < l.audioSize ==> Restored(l, raw, cur, q, k, SourceCif(l, q, k, d)))
  }

  lemma CellInStream(l: Layout, q: nat, k: nat, units: nat)
    requires l.Valid() && k < l.audioSize && q < units * l.numberOfCif
    ensures Cell(l, q, k) < units * l.UnitSize()
  {
    AddrInUnits(l, q, k, units);
  }

  lemma StreamStart<T>(l: Layout, raw: seq<T>)
    requires l.Valid() && |raw| == l.UnitsBack() * l.UnitSize()
    ensures StreamState(l, raw, raw, l.UnitsBack(), 0)
  {
    forall q: nat, k: nat | q < l.UnitsBack() * l.numberOfCif && k < l.audioSize
      ensures Restored(l, raw, raw, q, k, SourceCif(l, q, k, 0))
    {
      CellInStream(l, q, k, l.UnitsBack());
    }
  }

  /** A new unit is not yet touched by any window. */
  lemma UnitArrives<T>(l: Layout, raw: seq<T>, cur: seq<T>, units: nat, d: nat, u: seq<T>)
    requires l.Valid() && StreamState(l, raw, cur, units, d) && |u| == l.UnitSize()
    ensures StreamState(l, raw + u, cur + u, units + 1, d)
  {
    hide Cell, SourceCif;
    OneMore(units, l.UnitSize());
    forall q: nat, k: nat | q < (units + 1) * l.numberOfCif && k < l.audioSize
      ensures Restored(l, raw + u, cur + u, q, k, SourceCif(l, q, k, d))
    {
      if q < units * l.numberOfCif {
        assert Restored(l, raw, cur, q, k, SourceCif(l, q, k, d));
      } else {
        BeyondWindows(l, q, k, d, units);
        CellInStream(l, q, k, units + 1);
        CellBeyond(l, q, k, units);
      }
    }
  }

  lemma BeyondWindows(l: Layout, q: nat, k: nat, d: nat, units: nat)
    requires l.Valid() && units * l.numberOfCif <= q && d + l.UnitsBack() <= units
    ensures SourceCif(l, q, k, d) == q
  {
    hide Pos;
    MulMonotone(d + l.UnitsBack(), units, l.numberOfCif);
    assert (d + l.UnitsBack()) * l.numberOfCif == d * l.numberOfCif + l.UnitsBack() * l.numberOfCif;
  }

  lemma CellBeyond(l: Layout, q: nat, k: nat, units: nat)
    requires l.Valid() && units * l.numberOfCif <= q
    ensures units * l.UnitSize() <= Cell(l, q, k)
  {
    AddrOfLaterUnit(l, units, q - units * l.numberOfCif, k);
  }

  lemma CellOfWindow(l: Layout, d: nat, q: nat, k: nat)
    requires l.Valid()
    ensures Cell(l, d * l.numberOfCif + q, k) == d * l.UnitSize() + (l.Offset() + l.Addr(q, k))
  {
    AddrOfLaterUnit(l, d, q, k);
  }

  /** One more window of units, rewritten in place. */
  lemma WindowDecoded<T>(l: Layout, raw: seq<T>, cur: seq<T>, units: nat, d: nat, w: seq<T>)
    requires l.Valid() && StreamState(l, raw, cur, units, d) && d + l.UnitsBack() < units
    requires |w| == (l.UnitsBack() + 1) * l.UnitSize()
    requires d * l.UnitSize() + |w| <= |cur| && Fits(l, l.Offset(), |w|)
    requires Deinterleaved(l, l.Offset(), cur[d * l.UnitSize()..d * l.UnitSize() + |w|], w)
    ensures StreamState(l, raw, Overwritten(cur, d * l.UnitSize(), w), units, d + 1)
  {
    hide Cell, SourceCif, Restored, Overwritten, Fits, Deinterleaved;
    var next, d' := Overwritten(cur, d * l.UnitSize(), w), d + 1;
    forall q: nat, k: nat | q < units * l.numberOfCif && k < l.audioSize
      ensures Restored(l, raw, next, q, k, SourceCif(l, q, k, d'))
    {
      if q < d * l.numberOfCif || (d + l.UnitsBack() + 1) * l.numberOfCif <= q {
        CellOutside(l, raw, cur, units, d, w, q, k);
      } else {
        CellInside(l, raw, cur, units, d, w, q - d * l.numberOfCif, k);
      }
    }
  }

  lemma CellOutside<T>(l: Layout, raw: seq<T>, cur: seq<T>, units: nat, d: nat, w: seq<T>, q: nat, k: nat)
    requires l.Valid() && StreamState(l, raw, cur, units, d) && d + l.UnitsBack() < units
    requires |w| == (l.UnitsBack() + 1) * l.UnitSize() && d * l.UnitSize() + |w| <= |cur|
    requires q < units * l.numberOfCif && k < l.audioSize
    requires q < d * l.numberOfCif || (d + l.UnitsBack() + 1) * l.numberOfCif <= q
    ensures Restored(l, raw, Overwritten(cur, d * l.UnitSize(), w), q, k, SourceCif(l, q, k, d + 1))
  {
    assert Restored(l, raw, cur, q, k, SourceCif(l, q, k, d));
    SourceUnchanged(l, q, k, d);
    hide Layout.UnitSize;
    hide SourceCif, Cell;
    if q < d * l.numberOfCif {
      CellInStream(l, q, k, d);
    } else {
      CellBeyond(l, q, k, d + l.UnitsBack() + 1);
      assert (d + l.UnitsBack() + 1) * l.UnitSize() == d * l.UnitSize() + (l.UnitsBack() + 1) * l.UnitSize();
    }
  }

  lemma SourceUnchanged(l: Layout, q: nat, k: nat, d: nat)
    requires l.Valid() && k < l.audioSize
    requires q < d * l.numberOfCif || (d + l.UnitsBack() + 1) * l.numberOfCif <= q
    ensures SourceCif(l, q, k, d + 1) == SourceCif(l, q, k, d)
  {
    hide Pos;
    WindowCifs(l);
    OneMore(d, l.numberOfCif);
    assert (d + (l.UnitsBack() + 1)) * l.numberOfCif == d * l.numberOfCif + (l.UnitsBack() + 1) * l.numberOfCif;
  }

  lemma CellInside<T>(l: Layout, raw: seq<T>, cur: seq<T>, units: nat, d: nat, w: seq<T>, q: nat, k: nat)
    requires l.Valid() && StreamState(l, raw, cur, units, d) && d + l.UnitsBack() < units
    requires |w| == (l.UnitsBack() + 1) * l.UnitSize()
    requires d * l.UnitSize() + |w| <= |cur| && Fits(l, l.Offset(), |w|)
    requires Deinterleaved(l, l.Offset(), cur[d * l.UnitSize()..d * l.UnitSize() + |w|], w)
    requires q < 16 + l.numberOfCif && k < l.audioSize
    ensures Restored(l, raw, Overwritten(cur, d * l.UnitSize(), w), d * l.numberOfCif + q, k,
                     SourceCif(l, d * l.numberOfCif + q, k, d + 1))
  {
    var src := Source(q, k, l.numberOfCif, 0);
    var window := cur[d * l.UnitSize()..d * l.UnitSize() + |w|];
    assert CellMoved(l, l.Offset(), window, w, q, k, l.numberOfCif, 0);
    WindowSource(l, d, q, k, units);
    assert Restored(l, raw, cur, d * l.numberOfCif + src, k, SourceCif(l, d * l.numberOfCif + src, k, d));
    CellOfWindow(l, d, q, k);
    CellOfWindow(l, d, src, k);
    hide SourceCif, Source, Cell, Layout.UnitSize, Layout.Addr, Layout.Offset;
    assert window[l.Offset() + l.Addr(src, k)] == cur[d * l.UnitSize() + (l.Offset() + l.Addr(src, k))];
  }

  /** Within a window the sources are cells no earlier window has written to. */
  lemma WindowSource(l: Layout, d: nat, q: nat, k: nat, units: nat)
    requires l.Valid() && d + l.UnitsBack() < units && q < 16 + l.numberOfCif && k < l.audioSize
    ensures Source(q, k, l.numberOfCif, 0) < 16 + l.numberOfCif
    ensures d * l.numberOfCif + Source(q, k, l.numberOfCif, 0) < units * l.numberOfCif
    ensures SourceCif(l, d * l.numberOfCif + Source(q, k, l.numberOfCif, 0), k, d) ==
              SourceCif(l, d * l.numberOfCif + q, k, d + 1)
  {
    hide Pos;
    WindowCifs(l);
    OneMore(d, l.numberOfCif);
    MulMonotone(d + (l.UnitsBack() + 1), units, l.numberOfCif);
    assert (d + (l.UnitsBack() + 1)) * l.numberOfCif == d * l.numberOfCif + (l.UnitsBack() + 1) * l.numberOfCif;
  }

  lemma WindowFits(l: Layout)
    requires l.Valid()
    ensures Fits(l, l.Offset(), (l.UnitsBack() + 1) * l.UnitSize())
  {
    WindowCifs(l);
    forall q: nat, k: nat | q < 16 + l.numberOfCif && k < l.audioSize
      ensures l.Offset() + l.Addr(q, k) < (l.UnitsBack() + 1) * l.UnitSize()
    {
      AddrInUnits(l, q, k, l.UnitsBack() + 1);
    }
  }

  /** The transmitter's time interleaving: sample k of CIF r is sample k of logical frame r - Delay(k). */
  ghost predicate TimeInterleaved<T>(l: Layout, raw: seq<T>, units: nat, frame: (int, nat) -> T)
    requires l.Valid()
  {
    forall r: nat, k: nat :: r < units * l.numberOfCif && k < l.audioSize && l.UnitsBack() * l.numberOfCif <= r ==>
      Cell(l, r, k) < |raw| && raw[Cell(l, r, k)] == frame(r - Delay(k), k)
  }

  /** CIF q of the stream consists of samples of the received CIFs q + 1 to q + 16. */
  ghost predicate CifRestored<T>(l: Layout, raw: seq<T>, cif: seq<T>, q: nat)
    requires l.Valid()
  {
    && |cif| == l.audioSize
    && forall k: nat ::
         k < l.audioSize ==> Cell(l, q + 16 - Pos(k), k) < |raw| && cif[k] == raw[Cell(l, q + 16 - Pos(k), k)]
  }

  /** Undoing the delays: CIF q of the decoder is logical frame q + 1, whole. */
  lemma DelaysCancel<T>(l: Layout, raw: seq<T>, units: nat, frame: (int, nat) -> T, cif: seq<T>, q: nat)
    requires l.Valid() && |raw| == units * l.UnitSize() && TimeInterleaved(l, raw, units, frame)
    requires 16 <= q && q + 16 < units * l.numberOfCif && CifRestored(l, raw, cif, q)
    ensures forall k: nat :: k < l.audioSize ==> cif[k] == frame(q + 1, k)
  {
    forall k: nat | k < l.audioSize
      ensures cif[k] == frame(q + 1, k)
    {
      PosPlusDelay(k);
      FirstUnits(l);
      var r := q + 16 - Pos(k);
      assert Cell(l, r, k) < |raw| && raw[Cell(l, r, k)] == frame(r - Delay(k), k);
    }
  }

  lemma UnitsInside(d: nat, back: nat, units: nat, size: nat)
    requires size > 0 && d * size + (back + 1) * size <= units * size
    ensures d + back < units
  {
    assert (d + (back + 1)) * size == d * size + (back + 1) * size;
    if units < d + (back + 1) {
      MulGap(units, d + (back + 1), size);
    }
  }

  lemma SourceOfOldest(l: Layout, d: nat, i: nat, k: nat)
    requires l.Valid() && d * l.numberOfCif >= 16 && i < l.numberOfCif
    ensures SourceCif(l, d * l.numberOfCif + i, k, d + 1) == d * l.numberOfCif + i + 16 - Pos(k)
  {
    hide Pos;
    OneMore(d, l.numberOfCif);
  }

  lemma UnitSizePositive(l: Layout)
    requires l.Valid()
    ensures l.UnitSize() > 0
  {
    MulMonotone(1, l.numberOfCif, l.Stride());
  }

  lemma FirstUnits(l: Layout)
    requires l.Valid()
    ensures l.UnitsBack() * l.numberOfCif == 16
  {}

  lemma PosPlusDelay(k: nat)
    ensures Pos(k) + Delay(k) == 15
  {
    PosIsReversedDelay(k % 16);
    LowBits(k);
  }

  lemma LowBits(k: nat)
    ensures Delay(k) == Delay(k % 16)
  {
    var m, j := k / 16, k % 16;
    QuotientShift(8 * m, j, 2);
    QuotientShift(4 * m, j / 2, 2);
    QuotientShift(4 * m, j, 4);
    QuotientShift(2 * m, j / 4, 2);
    QuotientShift(2 * m, j, 8);
    QuotientShift(m, j / 8, 2);
  }

  lemma StreamSize<T>(l: Layout, raw: seq<T>, cur: seq<T>, units: nat, d: nat)
    requires l.Valid() && StreamState(l, raw, cur, units, d)
    ensures |cur| == units * l.UnitSize()
  {}

  lemma WindowKeepsStream<T>(l: Layout, raw: seq<T>, cur: seq<T>, units: nat, d: nat, window: seq<T>, rewritten: seq<T>)
    requires l.Valid() && StreamState(l, raw, cur, units, d) && d * l.UnitSize() + |window| <= |cur|
    requires |rewritten| == |window| == (l.UnitsBack() + 1) * l.UnitSize()
    requires window == cur[d * l.UnitSize()..d * l.UnitSize() + |window|]
    requires Fits(l, l.Offset(), |window|) && Deinterleaved(l, l.Offset(), window, rewritten)
    ensures d + l.UnitsBack() < units
    ensures StreamState(l, raw, Overwritten(cur, d * l.UnitSize(), rewritten), units, d + 1)
  {
    StreamSize(l, raw, cur, units, d);
    hide StreamState, Deinterleaved, Fits, Layout.UnitSize;
    UnitSizePositive(l);
    UnitsInside(d, l.UnitsBack(), units, l.UnitSize());
    WindowDecoded(l, raw, cur, units, d, rewritten);
  }

  ghost predicate InUnit<T>(l: Layout, w: seq<T>, i: nat, cif: seq<T>)
    requires l.Valid() && Fits(l, l.Offset(), |w|)
  {
    && i < l.numberOfCif && |cif| == l.audioSize
    && forall k: nat :: k < l.audioSize ==> cif[k] == w[l.Offset() + l.Addr(i, k)]
  }

  lemma CifOfUnit<T>(l: Layout, raw: seq<T>, cur: seq<T>, w: seq<T>, at: nat, cif: seq<T>, units: nat, d: nat, i: nat,
                     q: nat)
    requires l.Valid() && Fits(l, l.Offset(), |w|) && InUnit(l, w, i, cif)
    requires at == d * l.UnitSize() && at + |w| <= |cur|
    requires StreamState(l, raw, Overwritten(cur, at, w), units, d + 1)
    requires q == d * l.numberOfCif + i && q >= 16 + i && d + l.UnitsBack() < units
    ensures CifRestored(l, raw, cif, q)
  {
    hide *;
    UnitBefore(l, d, units);
    forall k: nat | k < l.audioSize
      ensures SampleRestored(l, raw, w, i, k, q)
    {
      UnitInCif(l, w, cif, i);
      SampleOfUnit(l, raw, cur, w, at, units, d, i, k, q);
    }
    SamplesMakeCif(l, raw, w, cif, i, q);
  }

  lemma UnitBefore(l: Layout, d: nat, units: nat)
    requires l.Valid() && d + l.UnitsBack() < units
    ensures (d + 1) * l.numberOfCif <= units * l.numberOfCif
  {
    MulMonotone(d + 1, units, l.numberOfCif);
  }

  /** Sample k of CIF i of a window is the one CIF q is restored from. */
  ghost predicate SampleRestored<T>(l: Layout, raw: seq<T>, w: seq<T>, i: nat, k: nat, q: nat)
    requires l.Valid()
  {
    && l.Offset() + l.Addr(i, k) < |w| && Cell(l, q + 16 - Pos(k), k) < |raw|
    && w[l.Offset() + l.Addr(i, k)] == raw[Cell(l, q + 16 - Pos(k), k)]
  }

  lemma SamplesMakeCif<T>(l: Layout, raw: seq<T>, w: seq<T>, cif: seq<T>, i: nat, q: nat)
    requires l.Valid() && Fits(l, l.Offset(), |w|) && InUnit(l, w, i, cif)
    requires forall k: nat :: k < l.audioSize ==> SampleRestored(l, raw, w, i, k, q)
    ensures CifRestored(l, raw, cif, q)
  {
    hide Cell, Pos, Layout.Offset, Layout.Addr, Fits;
    UnitInCif(l, w, cif, i);
    hide InUnit;
    forall k: nat | k < l.audioSize
      ensures Cell(l, q + 16 - Pos(k), k) < |raw| && cif[k] == raw[Cell(l, q + 16 - Pos(k), k)]
    {
      assert SampleRestored(l, raw, w, i, k, q);
    }
  }

  lemma UnitInCif<T>(l: Layout, w: seq<T>, cif: seq<T>, i: nat)
    requires l.Valid() && Fits(l, l.Offset(), |w|) && InUnit(l, w, i, cif)
    ensures i < l.numberOfCif && |cif| == l.audioSize
    ensures forall k: nat :: k < l.audioSize ==>
              l.Offset() + l.Addr(i, k) < |w| && cif[k] == w[l.Offset() + l.Addr(i, k)]
  {
    hide Layout.Offset, Layout.Addr;
  }

  lemma SampleOfUnit<T>(l: Layout, raw: seq<T>, cur: seq<T>, w: seq<T>, at: nat, units: nat, d: nat, i: nat, k: nat,
                        q: nat)
    requires l.Valid() && k < l.audioSize && i < l.numberOfCif
    requires at == d * l.UnitSize() && at + |w| <= |cur|
    requires q == d * l.numberOfCif + i && q >= 16 + i &&
              (d + 1) * l.numberOfCif <= units * l.numberOfCif
    requires StreamState(l, raw, Overwritten(cur, at, w), units, d + 1)
    requires l.Offset() + l.Addr(i, k) < |w|
    ensures SampleRestored(l, raw, w, i, k, q)
  {
    OneMore(d, l.numberOfCif);
    assert Restored(l, raw, Overwritten(cur, at, w), q, k, SourceCif(l, q, k, d + 1));
    hide StreamState, Cell, Layout.Addr, Layout.Offset, Layout.UnitSize;
    SourceOfOldest(l, d, i, k);
    CellOfWindow(l, d, i, k);
  }

  /** The decoder's window of the symbol buffer, its index tables and its count of frames. */
  class MscDecoder<T(0)> {
    const symbols: SymbolBuffer<T>
    const table: TimeDeinterleaver
    const layout: Layout

    var numberDabFrame: nat

    /** The units as the demodulator delivered them, the leading zero units included. */
    ghost var raw: seq<T>

    ghost predicate Valid()
      reads this, symbols, symbols.buffer, table.inIdxTab, table.outIdxTab
    {
      && symbols.Valid() && table.Valid() && table.layout == layout
      && symbols.buffer as object != table.inIdxTab && symbols.buffer as object != table.outIdxTab
      && symbols.unit == layout.UnitSize() && symbols.unitsForRead == layout.UnitsBack() + 1
      && StreamState(layout, raw, symbols.stream, symbols.produced, symbols.decoded)
      && numberDabFrame == FramesCounted(symbols.decoded)
    }

    /** Process stops counting once the gate is open. */
    ghost function FramesCounted(decoded: nat): nat
      requires layout.Valid()
    {
      if decoded <= layout.UnitsBack() then decoded else layout.UnitsBack() + 1
    }

    constructor (layout: Layout, zero: T)
      requires layout.Valid()
      ensures Valid() && this.layout == layout && symbols.decoded == 0 && symbols.datadecoderReportHandled
      ensures raw == seq(layout.UnitsBack() * layout.UnitSize(), _ => zero)
    {
      hide StreamState;
      UnitSizePositive(layout);
      var s := new SymbolBuffer<T>(layout.UnitSize(), layout.UnitsBack() + 1, zero);
      var t := new TimeDeinterleaver(layout);
      symbols, table, this.layout, numberDabFrame := s, t, layout, 0;
      raw := s.stream;
      StreamStart(layout, s.stream);
    }

    /** A demodulated unit joins the stream. */
    method OnDemodulatorReport(u: seq<T>)
      requires Valid() && !symbols.demodulatorWriteBlocked && |u| == layout.UnitSize()
      modifies this`raw, symbols, symbols.buffer
      ensures Valid() && raw == old(raw) + u && symbols.decoded == old(symbols.decoded)
    {
      hide StreamState;
      UnitArrives(layout, raw, symbols.stream, symbols.produced, symbols.decoded, u);
      symbols.OnDemodulatorReport(u);
      raw := raw + u;
    }

    /** A complete window goes to an idle decoder. */
    method ResumeIfReady() returns (resumed: bool)
      requires Valid()
      modifies symbols`datadecoderReportHandled
      ensures Valid() && symbols.datadecoderReportHandled == (old(symbols.datadecoderReportHandled) && !resumed)
      ensures resumed <==> old(symbols.datadecoderReportHandled) && symbols.WindowComplete()
    {
      hide StreamState;
      resumed := symbols.ResumeDatadecoderIfReady();
    }

    /** Process and MSCDecoder on a complete window: count the frame, de-interleave the window in place and,
        once the gate is open, hand on the CIFs of its oldest unit. */
    method OnWindow() returns (cifs: seq<seq<T>>)
      requires Valid() && !symbols.datadecoderReportHandled
      modifies this`numberDabFrame, symbols, symbols.buffer
      ensures Valid() && raw == old(raw) && symbols.decoded == old(symbols.decoded) + 1 &&
                symbols.datadecoderReportHandled
      ensures cifs == [] <==> old(symbols.decoded) * layout.numberOfCif < 16
      ensures cifs != [] ==> |cifs| == layout.numberOfCif
      ensures forall i ::
                0 <= i < |cifs| ==> CifRestored(layout, raw, cifs[i], old(symbols.decoded) * layout.numberOfCif + i)
    {
      hide StreamState, CifRestored, FramesCounted, Layout.UnitSize, Overwritten;
      CountFrame();
      var rewritten;
      rewritten, cifs := MSCDecoder(numberDabFrame * layout.numberOfCif > 16);
      symbols.OnDatadecoderReport(rewritten);
    }

    /** The window de-interleaved, and the CIFs of its oldest unit if the gate is open. */
    method MSCDecoder(open: bool) returns (rewritten: seq<T>, cifs: seq<seq<T>>)
      requires symbols.Valid() && !symbols.datadecoderReportHandled && table.Valid() && table.layout == layout
      requires symbols.unit == layout.UnitSize() && symbols.unitsForRead == layout.UnitsBack() + 1
      requires StreamState(layout, raw, symbols.stream, symbols.produced, symbols.decoded)
      requires open <==> symbols.decoded * layout.numberOfCif >= 16
      ensures |rewritten| == symbols.block && symbols.decoded * layout.UnitSize() + |rewritten| <= |symbols.stream|
      ensures StreamState(layout, raw, Overwritten(symbols.stream, symbols.decoded * layout.UnitSize(), rewritten),
                          symbols.produced, symbols.decoded + 1)
      ensures if open then |cifs| == layout.numberOfCif else cifs == []
      ensures forall i ::
                0 <= i < |cifs| ==> CifRestored(layout, raw, cifs[i], symbols.decoded * layout.numberOfCif + i)
    {
      BlockSize();
      hide StreamState, Deinterleaved, Fits, CifRestored, Layout.UnitSize, Overwritten, InUnit, TimeDeinterleaver.Valid,
           SymbolBuffer.Valid;
      ghost var d, cur := symbols.decoded, symbols.stream;
      var window := symbols.Window();
      WindowFits(layout);
      rewritten := Rewrite(window);
      WindowKeepsStream(layout, raw, cur, symbols.produced, d, window, rewritten);
      cifs := [];
      if open {
        cifs := OldestUnit(rewritten);
        CifsRestored(cur, rewritten, cifs, symbols.produced, d);
      }
    }

    /** One more frame, unless enough have been counted for the gate to be open. */
    method CountFrame()
      requires layout.Valid() && numberDabFrame == FramesCounted(symbols.decoded)
      modifies this`numberDabFrame
      ensures numberDabFrame == FramesCounted(symbols.decoded + 1)
      ensures numberDabFrame * layout.numberOfCif > 16 <==> symbols.decoded * layout.numberOfCif >= 16
    {
      GateCounts(symbols.decoded);
      hide FramesCounted;
      if numberDabFrame * layout.numberOfCif <= 16 {
        numberDabFrame := numberDabFrame + 1;
      }
    }

    lemma BlockSize()
      requires symbols.Valid() && layout.Valid() && symbols.unit == layout.UnitSize() &&
                symbols.unitsForRead == layout.UnitsBack() + 1
      ensures symbols.block == (layout.UnitsBack() + 1) * layout.UnitSize()
    {
      hide Layout.UnitSize;
    }

    /** TimeDeInterleaver on a window. */
    method Rewrite(window: seq<T>) returns (rewritten: seq<T>)
      requires table.Valid() && table.layout == layout && Fits(layout, layout.Offset(), |window|)
      ensures |rewritten| == |window| && Deinterleaved(layout, layout.Offset(), window, rewritten)
    {
      hide Fits;
      var data := new T[|window|](i requires 0 <= i < |window| => window[i]);
      assert data[..] == window;
      table.Move(data, layout.Offset());
      rewritten := data[..];
    }

    /** The sub-channel's samples of the CIFs of the first unit of a window. */
    method OldestUnit(w: seq<T>) returns (cifs: seq<seq<T>>)
      requires layout.Valid() && Fits(layout, layout.Offset(), |w|)
      ensures |cifs| == layout.numberOfCif
      ensures forall i :: 0 <= i < |cifs| ==> InUnit(layout, w, i, cifs[i])
    {
      hide Fits;
      cifs := [];
      var i := 0;
      while i < layout.numberOfCif
        invariant i == |cifs| && i <= layout.numberOfCif
        invariant forall j :: 0 <= j < i ==> InUnit(layout, w, j, cifs[j])
      {
        var at := layout.Offset() + i * layout.Stride();
        SliceFits(w, i);
        cifs := cifs + [w[at..at + layout.audioSize]];
        i := i + 1;
      }
    }

    lemma SliceFits(w: seq<T>, i: nat)
      requires layout.Valid() && Fits(layout, layout.Offset(), |w|) && i < layout.numberOfCif
      ensures layout.Offset() + i * layout.Stride() + layout.audioSize <= |w|
      ensures forall k: nat :: layout.Addr(i, k) == i * layout.Stride() + k
    {
      var last := layout.audioSize - 1;
      FirstUnitAddr(i);
      assert layout.Offset() + layout.Addr(i, last) < |w|;
      hide Layout.Addr, Fits, Layout.Stride;
    }

    lemma FirstUnitAddr(i: nat)
      requires layout.Valid() && i < layout.numberOfCif
      ensures forall k: nat :: layout.Addr(i, k) == i * layout.Stride() + k
    {
      QuotientUnique(i, 0, i, layout.numberOfCif);
      hide Layout.Stride;
    }

    /** The oldest unit of a rewritten window consists of complete CIFs. */
    lemma CifsRestored(cur: seq<T>, w: seq<T>, cifs: seq<seq<T>>, units: nat, d: nat)
      requires layout.Valid() && |w| == (layout.UnitsBack() + 1) * layout.UnitSize() &&
                Fits(layout, layout.Offset(), |w|)
      requires d * layout.UnitSize() + |w| <= |cur| && d * layout.numberOfCif >= 16 && d + layout.UnitsBack() < units
      requires StreamState(layout, raw, Overwritten(cur, d * layout.UnitSize(), w), units, d + 1)
      requires |cifs| == layout.numberOfCif
      requires forall i :: 0 <= i < |cifs| ==> InUnit(layout, w, i, cifs[i])
      ensures forall i :: 0 <= i < |cifs| ==> CifRestored(layout, raw, cifs[i], d * layout.numberOfCif + i)
    {
      hide StreamState, InUnit, CifRestored, Fits;
      forall i: nat | i < |cifs|
        ensures CifRestored(layout, raw, cifs[i], d * layout.numberOfCif + i)
      {
        assert InUnit(layout, w, i, cifs[i]);
        CifOfUnit(layout, raw, cur, w, d * layout.UnitSize(), cifs[i], units, d, i, d * layout.numberOfCif + i);
      }
    }

    /** The gate is open once UnitsBack windows have gone by. */
    lemma GateCounts(d: nat)
      requires layout.Valid()
      ensures FramesCounted(d + 1) ==
                if FramesCounted(d) * layout.numberOfCif <= 16 then FramesCounted(d) + 1 else FramesCounted(d)
      ensures FramesCounted(d + 1) * layout.numberOfCif > 16 <==> d * layout.numberOfCif >= 16
    {
    }
  }
}

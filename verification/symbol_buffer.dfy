/** The sliding buffer of demodulated units between the demodulator and the data decoder. */
module SymbolBuffer {

  import opened Division
  import opened SlidingBuffer
  import opened UnitPositions

  /** With writing at newPos next and reading from readPos, the unread units can be moved to the front
      neither without overlap nor with room to spare. */
  predicate LagAt(newPos: nat, readPos: nat, unit: nat, size: nat) {
    && newPos + unit > size
    && (readPos <= newPos + unit - size || newPos > 2 * readPos)
  }

  /** A lagging decoder has a full window to decode. */
  lemma LagLeavesWindow(newPos: nat, readPos: nat, unit: nat, block: nat, size: nat)
    requires 0 < unit <= block && size == 4 * block && newPos <= size && LagAt(newPos, readPos, unit, size)
    ensures readPos + block <= newPos && readPos + block < size
  {}

  /** Decoding k more windows, each of them complete when its turn comes, ends the lag. */
  lemma {:induction false} LagEnds(newPos: nat, readPos: nat, unit: nat, block: nat, size: nat) returns (k: nat)
    requires 0 < unit <= block && size == 4 * block && newPos <= size && LagAt(newPos, readPos, unit, size)
    ensures !LagAt(newPos, readPos + k * unit, unit, size)
    ensures forall j: nat ::
              j < k ==> LagAt(newPos, readPos + j * unit, unit, size) && readPos + j * unit + block <= newPos
    decreases newPos - readPos
  {
    LagLeavesWindow(newPos, readPos, unit, block, size);
    if LagAt(newPos, readPos + unit, unit, size) {
      var m := LagEnds(newPos, readPos + unit, unit, block, size);
      k := m + 1;
      assert readPos + unit + m * unit == readPos + k * unit;
      forall j: nat | j < k
        ensures LagAt(newPos, readPos + j * unit, unit, size) && readPos + j * unit + block <= newPos
      {
        if j > 0 {
          assert readPos + unit + (j - 1) * unit == readPos + j * unit;
          assert LagAt(newPos, readPos + unit + (j - 1) * unit, unit, size);
        }
      }
    } else {
      k := 1;
    }
  }

  class SymbolBuffer<T(0)> {
    const buffer: array<T>
    const unit: nat
    const unitsForRead: nat
    const block: nat

    var demodWritePos: nat
    var decodReadPos: nat
    var lastDemodulatorWrite: nat
    var demodulatorDataWaiting: bool
    var demodulatorWriteBlocked: bool
    var datadecoderReportHandled: bool

    /** The units as they now stand, the leading zero units included, and how many of them precede the buffer. */
    ghost var stream: seq<T>
    ghost var base: nat
    ghost var produced: nat
    ghost var dropped: nat
    /** The number of windows decoded so far. */
    ghost var decoded: nat

    /** Where the units written so far end. */
    ghost function End(): nat
      reads this
    {
      demodWritePos + if demodulatorDataWaiting then unit else 0
    }

    ghost predicate Sizes() {
      0 < unit <= block && block == unitsForRead * unit && buffer.Length == 4 * block
    }

    ghost function Units(): UnitLayout { UnitLayout(unit, block, buffer.Length) }

    /** Every position as a place in the stream of units. */
    ghost function Standing(): UnitPlace
      reads this
    {
      UnitPlace(base, base + demodWritePos, base + decodReadPos, base + lastDemodulatorWrite, demodulatorWriteBlocked,
                datadecoderReportHandled)
    }

    /** The buffer holds the units from the dropped-th on, and the next window starts at the decoded-th. */
    ghost predicate Consistent()
      reads this, buffer
    {
      && Sizes()
      && Holds(buffer[..], End(), base, stream)
      && |stream| == produced * unit && base == dropped * unit && base + decodReadPos == decoded * unit
      && demodWritePos + unit <= buffer.Length
      && decodReadPos + block <= End() + unit
      && (!datadecoderReportHandled ==> decodReadPos + block <= lastDemodulatorWrite)
    }

    ghost predicate Valid()
      reads this, buffer
    {
      && Consistent()
      && (lastDemodulatorWrite == End() || (lastDemodulatorWrite == 0 && End() < block))
      && demodulatorDataWaiting == demodulatorWriteBlocked
      && (demodulatorWriteBlocked ==> lastDemodulatorWrite == End() && LagAt(End(), decodReadPos, unit, buffer.Length))
    }

    /** The decoder's next window has been written. */
    ghost predicate WindowComplete()
      reads this
    {
      decodReadPos + block <= lastDemodulatorWrite
    }

    /** CalculateDeqpskBuffer and the positions set on reconfiguration: all but one unit of the first window is zero. */
    constructor (unit: nat, unitsForRead: nat, zero: T)
      requires unit > 0 && unitsForRead > 0
      ensures Valid() && this.unit == unit && this.unitsForRead == unitsForRead && fresh(buffer)
      ensures decoded == 0 && produced == unitsForRead - 1 && datadecoderReportHandled && !demodulatorWriteBlocked
      ensures stream == seq((unitsForRead - 1) * unit, _ => zero) && Standing() == StartUnits(Units())
      ensures Units() == UnitLayout(unit, unitsForRead * unit, 4 * (unitsForRead * unit))
    {
      assert unitsForRead * unit == (unitsForRead - 1) * unit + unit;
      var b := new T[4 * (unitsForRead * unit)](_ => zero);
      var start := (unitsForRead - 1) * unit;
      buffer := b;
      this.unit := unit;
      this.unitsForRead := unitsForRead;
      this.block := unitsForRead * unit;
      demodWritePos, decodReadPos, lastDemodulatorWrite := start, 0, 0;
      demodulatorDataWaiting, demodulatorWriteBlocked, datadecoderReportHandled := false, false, true;
      stream, base, produced, dropped, decoded := seq(start, _ => zero), 0, unitsForRead - 1, 0, 0;
      assert b[..start] == seq(start, _ => zero);
    }

    method ShiftDemodDecodPointersIfPossible()
      requires Consistent() && (demodulatorDataWaiting ==> lastDemodulatorWrite == End())
      requires !demodulatorDataWaiting ==> Valid()
      modifies this`demodWritePos, this`decodReadPos, this`lastDemodulatorWrite, this`demodulatorDataWaiting,
               this`demodulatorWriteBlocked, this`base, this`dropped, buffer
      ensures Valid()
      ensures base + decodReadPos == old(base + decodReadPos)
      ensures base + lastDemodulatorWrite == old(base + lastDemodulatorWrite)
      ensures demodulatorWriteBlocked <==>
                old(demodulatorDataWaiting) && old(LagAt(End(), decodReadPos, unit, buffer.Length))
      ensures Standing() == old(Standing().(blocked := demodulatorDataWaiting)).Released(Units())
    {
      hide Holds;
      if !demodulatorDataWaiting {
        return;
      }
      demodulatorWriteBlocked := false;
      var newPos := demodWritePos + unit;
      var first := decodReadPos;
      if newPos + unit > buffer.Length {
        var freeSpaceNeeded := newPos + unit - buffer.Length;
        var dataSizeToCopy := newPos - first;
        if first <= freeSpaceNeeded || dataSizeToCopy > first {
          demodulatorWriteBlocked := true;
          return;
        }
        demodulatorDataWaiting := false;
        demodWritePos := newPos;
        Compact();
      } else {
        demodulatorDataWaiting := false;
        demodWritePos := newPos;
      }
    }

    /** Move the units from the next window on to the front. */
    method Compact()
      requires Sizes() && Holds(buffer[..], demodWritePos, base, stream)
      requires decodReadPos <= demodWritePos <= 2 * decodReadPos && decodReadPos <= lastDemodulatorWrite
      modifies this`demodWritePos, this`decodReadPos, this`lastDemodulatorWrite, this`base, this`dropped, buffer
      ensures Holds(buffer[..], demodWritePos, base, stream)
      ensures base == old(base + decodReadPos) && dropped == decoded && decodReadPos == 0
      ensures demodWritePos == old(demodWritePos - decodReadPos) &&
                lastDemodulatorWrite == old(lastDemodulatorWrite - decodReadPos)
    {
      var first, n := decodReadPos, demodWritePos - decodReadPos;
      assert demodWritePos <= buffer.Length;
      hide Holds;
      forall i | 0 <= i < n {
        buffer[i] := buffer[first + i];
      }
      assert buffer[..n] == old(buffer[..])[first..demodWritePos];
      HoldsMoved(old(buffer[..]), buffer[..], demodWritePos, base, stream, first);
      demodWritePos := n;
      decodReadPos := 0;
      lastDemodulatorWrite := lastDemodulatorWrite - first;
      base, dropped := base + first, decoded;
    }

    /** The demodulator has written one unit at the write position. */
    method OnDemodulatorReport(u: seq<T>)
      requires Valid() && !demodulatorWriteBlocked && |u| == unit
      modifies this`demodWritePos, this`decodReadPos, this`lastDemodulatorWrite, this`demodulatorDataWaiting,
               this`demodulatorWriteBlocked, this`base, this`dropped, this`stream, this`produced, buffer
      ensures Valid() && stream == old(stream) + u && produced == old(produced) + 1
      ensures base + lastDemodulatorWrite == |stream| && Standing() == old(Standing()).UnitHandled(Units())
    {
      hide Consistent, Holds, LagAt, UnitPlace.Released;
      TakeUnit(u);
      ShiftDemodDecodPointersIfPossible();
    }

    method TakeUnit(u: seq<T>)
      requires Valid() && !demodulatorWriteBlocked && |u| == unit
      modifies this`lastDemodulatorWrite, this`demodulatorDataWaiting, this`stream, this`produced, buffer
      ensures Consistent() && stream == old(stream) + u && produced == old(produced) + 1
      ensures demodulatorDataWaiting && lastDemodulatorWrite == End() && base + lastDemodulatorWrite == |stream|
      ensures Standing().(blocked := true) == old(Standing()).Written(Units())
    {
      WriteAt(demodWritePos, u);
      HoldsAppended(old(buffer[..]), buffer[..], demodWritePos, base, stream, u);
      stream := stream + u;
      produced := produced + 1;
      demodulatorDataWaiting := true;
      lastDemodulatorWrite := demodWritePos + unit;
      assert Holds(buffer[..], End(), base, stream);
      hide Holds;
      OneMore(old(produced), unit);
    }

    method WriteAt(at: nat, w: seq<T>)
      requires at + |w| <= buffer.Length
      modifies buffer
      ensures buffer[..] == Overwritten(old(buffer[..]), at, w)
    {
      forall i | 0 <= i < |w| {
        buffer[at + i] := w[i];
      }
    }

    /** A complete window goes to an idle decoder: the units from the decoded-th on. */
    method ResumeDatadecoderIfReady() returns (resumed: bool)
      requires Valid()
      modifies this`datadecoderReportHandled
      ensures Valid()
      ensures resumed <==> old(datadecoderReportHandled) && !datadecoderReportHandled
      ensures datadecoderReportHandled <==> old(datadecoderReportHandled) && !WindowComplete()
      ensures Standing() == old(Standing()).DecoderResumed(Units())
      ensures resumed ==>
                && decodReadPos + block < buffer.Length && decoded * unit + block <= |stream|
                && buffer[decodReadPos..decodReadPos + block] == stream[decoded * unit..decoded * unit + block]
    {
      hide Holds;
      resumed := false;
      if decodReadPos + block <= lastDemodulatorWrite && datadecoderReportHandled {
        WindowInPlace();
        datadecoderReportHandled := false;
        resumed := true;
      }
    }

    /** The window the decoder works on. */
    method Window() returns (w: seq<T>)
      requires Valid() && !datadecoderReportHandled
      ensures |w| == block && decoded * unit + block <= |stream| && w == stream[decoded * unit..decoded * unit + block]
    {
      WindowInPlace();
      w := buffer[decodReadPos..decodReadPos + block];
    }

    lemma WindowInPlace()
      requires Valid() && WindowComplete()
      ensures decodReadPos + block < buffer.Length && decoded * unit + block <= |stream|
      ensures buffer[decodReadPos..decodReadPos + block] == stream[decoded * unit..decoded * unit + block]
    {
      HoldsSlice(buffer[..], End(), base, stream, decodReadPos, decodReadPos + block);
      hide Holds;
      if demodulatorWriteBlocked {
        LagLeavesWindow(End(), decodReadPos, unit, block, buffer.Length);
      }
    }

    /** The decoder has rewritten its window in place and moves on by one unit. */
    method OnDatadecoderReport(rewritten: seq<T>)
      requires Valid() && !datadecoderReportHandled && |rewritten| == block
      modifies this`demodWritePos, this`decodReadPos, this`lastDemodulatorWrite, this`demodulatorDataWaiting,
               this`demodulatorWriteBlocked, this`base, this`dropped, this`stream, this`decoded,
                 this`datadecoderReportHandled, buffer
      ensures Valid() && datadecoderReportHandled && decoded == old(decoded) + 1
      ensures old(decoded * unit) + block <= |old(stream)|
      ensures stream == Overwritten(old(stream), old(decoded * unit), rewritten)
      ensures base + lastDemodulatorWrite == old(base + lastDemodulatorWrite)
      ensures demodulatorWriteBlocked ==> old(demodulatorWriteBlocked)
      ensures old(base + decodReadPos == decoded * unit) && Standing() == old(Standing()).WindowHandled(Units())
    {
      RewriteWindow(rewritten);
      hide Holds, UnitPlace.Released;
      datadecoderReportHandled := true;
      decodReadPos := decodReadPos + unit;
      decoded := decoded + 1;
      OneMore(old(decoded), unit);
      ShiftDemodDecodPointersIfPossible();
    }

    method RewriteWindow(rewritten: seq<T>)
      requires Valid() && WindowComplete() && |rewritten| == block
      modifies this`stream, buffer
      ensures Valid() && old(decoded * unit) + block <= |old(stream)|
      ensures stream == Overwritten(old(stream), old(decoded * unit), rewritten)
    {
      WriteAt(decodReadPos, rewritten);
      HoldsOverwritten(old(buffer[..]), buffer[..], End(), base, stream, decodReadPos, rewritten);
      hide Holds;
      stream := Overwritten(stream, base + decodReadPos, rewritten);
    }

    /** A blocked demodulator means the decoder has a full window, and some number of decodes lifts the block. */
    lemma BlockedMeansDecodable() returns (k: nat)
      requires Valid() && demodulatorWriteBlocked
      ensures WindowComplete() && k > 0
      ensures !LagAt(End(), decodReadPos + k * unit, unit, buffer.Length)
      ensures forall j: nat :: j < k ==> decodReadPos + j * unit + block <= lastDemodulatorWrite
    {
      LagLeavesWindow(End(), decodReadPos, unit, block, buffer.Length);
      k := LagEnds(End(), decodReadPos, unit, block, buffer.Length);
    }

    /** The same in stream positions, once the decoder has been resumed. */
    lemma BlockedWaits()
      requires Valid() && demodulatorWriteBlocked && (WindowComplete() ==> !datadecoderReportHandled)
      ensures Standing().Waiting(Units())
    {
      var k := BlockedMeansDecodable();
    }

    /** Every position is a whole number of units. */
    lemma PositionsAreMultiples() returns (w: nat, r: nat)
      requires Valid()
      ensures demodWritePos == w * unit && decodReadPos == r * unit
    {
      r := UnitsBetween(dropped, decoded, unit);
      w := UnitsBetween(dropped, if demodulatorDataWaiting then produced - 1 else produced, unit);
    }
  }

  lemma UnitsBetween(a: nat, b: int, unit: nat) returns (k: nat)
    requires unit > 0 && a * unit <= b * unit
    ensures b * unit - a * unit == k * unit
  {
    if b < a { Less(b, a, unit); }
    k := b - a;
  }

  lemma Less(b: int, a: int, unit: nat)
    requires b < a
    ensures a * unit >= b * unit + unit
  {
    assert a * unit == b * unit + unit + (a - b - 1) * unit;
  }
}

/** The sliding sample buffer between the data feeder, the synchroniser and the demodulator. */
module SampleBuffer {
  import opened SamplePositions
  import opened SlidingBuffer

  datatype TransmissionMode = ModeI | ModeII | ModeIII | ModeIV

  function ParametersOf(mode: TransmissionMode): (p: ModeParameters)
    ensures p.Valid()
  {
    match mode
    case ModeI => ModeParameters(2656, 196608)
    case ModeII => ModeParameters(664, 49152)
    case ModeIII => ModeParameters(345, 49152)
    case ModeIV => ModeParameters(1328, 98304)
  }

  /** Symbols of a frame besides the NULL symbol, and the samples of one: guard interval and FFT length. */
  function SymbolsOf(mode: TransmissionMode): (int, int) {
    match mode
    case ModeI => (76, 504 + 2048)
    case ModeII => (76, 126 + 512)
    case ModeIII => (153, 63 + 256)
    case ModeIV => (76, 252 + 1024)
  }

  /** A frame is the NULL symbol and its symbols, and lasts 96, 24, 24 or 48 ms at 2048 samples a millisecond. */
  lemma FrameOfMode(mode: TransmissionMode)
    ensures ParametersOf(mode).frameSize == ParametersOf(mode).nullSize + SymbolsOf(mode).0 * SymbolsOf(mode).1
    ensures ParametersOf(mode).frameSize == 2048 * match mode case ModeI => 96 case ModeIV => 48 case _ => 24
    ensures ParametersOf(mode).SyncReadSize() ==
              2 * match mode case ModeI => 199264 case ModeII => 49816 case ModeIII => 49497 case ModeIV => 99632
  {}

  /** In mode III, and only there, a report that locks on takes the positions off the sample grid: between the real and
      the imaginary part of a sample. */
  lemma OnlyModeIIILeavesGrid(mode: TransmissionMode, p: Place, l: Layout, quality: NullQuality, nullPosition: nat)
    requires l.mode == ParametersOf(mode) && p.sync % 2 == 0
    ensures p.ReportTaken(l, quality, nullPosition).sync % 2 != 0 <==>
              mode == ModeIII && (quality == NullShift || p.CorrectedBy(l, quality, nullPosition))
  {
    p.StaysOnSamples(l, quality, nullPosition);
    hide Place.ReportTaken, Place.CorrectedBy;
  }

  ghost predicate Increasing(q: seq<nat>) {
    forall i, j :: 0 <= i < j < |q| ==> q[i] < q[j]
  }

  /** Positions in the buffer turned into positions in the sample stream. */
  ghost function Rebased(q: seq<nat>, base: nat): (r: seq<nat>)
    ensures |r| == |q|
    ensures forall i :: 0 <= i < |q| ==> r[i] == q[i] + base
  {
    seq(|q|, i requires 0 <= i < |q| => q[i] + base)
  }

  /** In stream positions: reading positions are ordered, and what busy workers were given has been written. */
  ghost predicate WorkersServed(mode: ModeParameters, deqpskBlockSize: nat, sync: int, last: int, end: int,
                                syncBusy: bool, demodBusy: bool, demod: int) {
    && sync <= last <= end
    && (syncBusy ==> sync + mode.SyncReadSize() <= last)
    && (demodBusy ==> demod + deqpskBlockSize < last)
  }

  /** In stream positions: the queue, after the frame being demodulated, is the rest of the frames found, in order. */
  ghost predicate FramesInOrder(mode: ModeParameters, queue: seq<nat>, sync: int, last: int,
                                demodBusy: bool, demod: int, found: seq<nat>, demodulated: nat) {
    && Increasing(found)
    && (forall i :: 0 <= i < |found| ==> found[i] + mode.PointerShift() <= sync + 5 * mode.nullSize && found[i] <= last)
    && demodulated <= |found|
    && queue == found[demodulated..]
    && (demodBusy ==> demodulated > 0 && demod == found[demodulated - 1])
  }

  class SampleBuffer<T(0)> {
    const buffer: array<T>
    const blockSize: nat
    const mode: ModeParameters
    const deqpskBlockSize: nat

    var dataWritePos: nat
    var syncReadPos: nat
    var demodReadPos: nat
    var demodReadPosQueue: seq<nat>
    var lastDataFeederWrite: nat

    var dataStored: bool
    var writeReady: bool
    var synchronizerReportHandled: bool
    var demodulatorReportHandled: bool

    /** Every sample ever stored, and how many of them lie before the buffer's first position. */
    ghost var stream: seq<T>
    ghost var base: nat
    /** Stream positions of all frames found, and how many were handed to the demodulator. */
    ghost var found: seq<nat>
    ghost var demodulated: nat

    /** Where the stored samples end. */
    ghost function End(): nat
      reads this
    {
      dataWritePos + if dataStored then blockSize else 0
    }

    ghost function Sizes(): Layout {
      Layout(buffer.Length, blockSize, mode, deqpskBlockSize)
    }

    /** Every position as a place in the sample stream. */
    ghost function Standing(): Place
      reads this
    {
      Place(base, base + dataWritePos, base + syncReadPos, base + demodReadPos, Rebased(demodReadPosQueue, base),
            base + lastDataFeederWrite, dataStored, synchronizerReportHandled, demodulatorReportHandled)
    }

    ghost predicate Valid()
      reads this, buffer
    {
      && Consistent()
      && dataWritePos + blockSize <= buffer.Length
      && (dataStored ==> !writeReady)
    }

    /** Everything but room for a block at the write position. */
    ghost predicate Consistent()
      reads this, buffer
    {
      mode.Valid() && blockSize > 0 && Positions() && Contents() && Frames()
    }

    ghost predicate Positions()
      reads this
    {
      WorkersServed(mode, deqpskBlockSize, base + syncReadPos, base + lastDataFeederWrite, base + End(),
                    !synchronizerReportHandled, !demodulatorReportHandled, base + demodReadPos)
    }

    /** The buffer up to the end of the stored samples is the sample stream from base on. */
    ghost predicate Contents()
      reads this, buffer
    {
      Holds(buffer[..], End(), base, stream)
    }

    ghost predicate Frames()
      reads this
    {
      FramesInOrder(mode, Rebased(demodReadPosQueue, base), base + syncReadPos, base + lastDataFeederWrite,
                    !demodulatorReportHandled, base + demodReadPos, found, demodulated)
    }

    constructor (buffer: array<T>, blockSize: nat, mode: ModeParameters, deqpskBlockSize: nat)
      requires mode.Valid() && 0 < blockSize <= buffer.Length
      ensures Valid() && this.buffer == buffer && this.blockSize == blockSize && stream == [] && found == []
      ensures Sizes() == Layout(buffer.Length, blockSize, mode, deqpskBlockSize) && Standing() == Start(Sizes())
      ensures demodulated == 0
    {
      this.buffer := buffer;
      this.blockSize := blockSize;
      this.mode := mode;
      this.deqpskBlockSize := deqpskBlockSize;
      dataWritePos, syncReadPos, lastDataFeederWrite := 0, 0, 0;
      demodReadPos := buffer.Length;
      demodReadPosQueue := [];
      dataStored, writeReady := false, true;
      synchronizerReportHandled, demodulatorReportHandled := true, true;
      stream, base, found, demodulated := [], 0, [], 0;
    }

    // --- the data feeder's loop ---

    /** One turn of the feeder: wait while the last block is still held, else store the next block if there is one. */
    method FeederTurn(block: seq<T>, enough: bool) returns (stored: bool)
      requires Valid() && |block| == blockSize
      modifies this`dataStored, this`writeReady, this`stream, buffer
      ensures Valid()
      ensures stored <==> enough && !old(dataStored)
      ensures stream == if stored then old(stream) + block else old(stream)
      ensures Standing() == old(Standing()).Fed(enough)
      ensures !stored ==> buffer[..] == old(buffer[..])
    {
      hide FramesInOrder, Rebased;
      if dataStored {
        if !writeReady {
          return false;
        }
      }
      writeReady := false;
      if enough {
        forall i | 0 <= i < blockSize {
          buffer[dataWritePos + i] := block[i];
        }
        assert buffer[..] == Overwritten(old(buffer[..]), dataWritePos, block);
        HoldsAppended(old(buffer[..]), buffer[..], dataWritePos, base, stream, block);
        dataStored := true;
        stream := stream + block;
        stored := true;
      } else {
        dataStored := false;
        stored := false;
      }
    }

    // --- releasing the block to the feeder ---

    /** The lowest position some consumer still needs. */
    function FirstNeeded(): nat
      reads this
    {
      var first := syncReadPos;
      var first' := if demodReadPosQueue == [] then first else Min(first, demodReadPosQueue[0]);
      Min(first', demodReadPos)
    }

    /** The next block would not fit after this one. */
    predicate NeedsRoom()
      reads this
    {
      dataWritePos + blockSize + blockSize > buffer.Length
    }

    /** The needed samples cannot be moved to the front without overlap and with room for the next block. */
    predicate Lagging()
      reads this
    {
      var newPos := dataWritePos + blockSize;
      NeedsRoom() &&
      (FirstNeeded() <= newPos + blockSize - buffer.Length || newPos > 2 * FirstNeeded())
    }

    lemma LaggingStanding()
      ensures Standing().First() == base + FirstNeeded()
      ensures Standing().NeedsRoom(Sizes()) <==> NeedsRoom()
      ensures Standing().Lagging(Sizes()) <==> Lagging()
    {}

    /** Advance past a stored block, moving the needed samples to the front first when the next would not fit. */
    method ShiftSyncFeederPointersIfPossible()
      requires Valid()
      modifies this`dataWritePos, this`syncReadPos, this`demodReadPos, this`demodReadPosQueue, this`lastDataFeederWrite,
               this`dataStored, this`writeReady, this`base, buffer
      ensures Valid()
      ensures dataStored <==> old(dataStored) && old(Lagging())
      ensures dataStored || !old(dataStored) ==>
                unchanged(this) && buffer[..] == old(buffer[..])
      ensures old(dataStored) && !dataStored ==>
                && writeReady
                && base + dataWritePos == old(base + dataWritePos) + blockSize
                && base == old(base) + (if old(NeedsRoom()) then old(FirstNeeded()) else 0)
      ensures base + syncReadPos == old(base + syncReadPos)
      ensures base + demodReadPos == old(base + demodReadPos)
      ensures base + lastDataFeederWrite == old(base + lastDataFeederWrite)
      ensures Rebased(demodReadPosQueue, base) == old(Rebased(demodReadPosQueue, base))
      ensures Standing() == old(Standing()).Released(Sizes())
    {
      hide FramesInOrder, WorkersServed, Holds, Rebased;
      LaggingStanding();
      if !dataStored {
        return;
      }
      var newPos := dataWritePos + blockSize;
      var first := FirstNeeded();
      if newPos + blockSize > buffer.Length {
        var freeSpaceNeeded := newPos + blockSize - buffer.Length;
        var dataSizeToCopy := newPos - first;
        if first <= freeSpaceNeeded || dataSizeToCopy > first {
          return;
        }
        dataWritePos := newPos;
        dataStored := false;
        Compact(first);
      } else {
        dataWritePos := newPos;
        dataStored := false;
      }
      writeReady := true;
    }

    /** Move the samples from position first on to the front and lower every position by first. */
    method Compact(first: nat)
      requires Consistent() && !dataStored && first <= FirstNeeded() && dataWritePos <= 2 * first
      modifies this`dataWritePos, this`syncReadPos, this`demodReadPos, this`demodReadPosQueue, this`lastDataFeederWrite,
               this`base, buffer
      ensures Consistent() && base == old(base) + first
      ensures dataWritePos == old(dataWritePos) - first && syncReadPos == old(syncReadPos) - first
      ensures demodReadPos == old(demodReadPos) - first && lastDataFeederWrite == old(lastDataFeederWrite) - first
      ensures Rebased(demodReadPosQueue, base) == old(Rebased(demodReadPosQueue, base))
    {
      hide FramesInOrder, WorkersServed, Holds, Rebased, Lowered, FirstNeeded;
      NothingNeededBefore(first);
      LoweredRebased(demodReadPosQueue, base, first);
      ghost var before := buffer[..];
      MoveToFront(first, dataWritePos - first);
      HoldsMoved(before, buffer[..], dataWritePos, base, stream, first);
      dataWritePos, lastDataFeederWrite := dataWritePos - first, lastDataFeederWrite - first;
      syncReadPos, demodReadPos := syncReadPos - first, demodReadPos - first;
      demodReadPosQueue := Lowered(demodReadPosQueue, first);
      base := base + first;
    }

    // --- handing work to the synchroniser and the demodulator ---

    method ResumeSynchronizerIfReady()
      requires Valid()
      modifies this`synchronizerReportHandled
      ensures Valid()
      ensures !synchronizerReportHandled <==>
                !old(synchronizerReportHandled) || syncReadPos + mode.SyncReadSize() <= lastDataFeederWrite
      ensures Standing() == old(Standing()).SyncResumed(Sizes())
    {
      hide FramesInOrder, Holds, Rebased;
      if lastDataFeederWrite >= syncReadPos + mode.SyncReadSize() && synchronizerReportHandled {
        synchronizerReportHandled := false;
      }
    }

    /** The oldest waiting frame goes to an idle demodulator once enough of it has been written. */
    method ResumeDemodulatorIfReady(writeBlocked: bool) returns (resumed: bool)
      requires Valid()
      modifies this`demodReadPos, this`demodReadPosQueue, this`demodulatorReportHandled, this`demodulated
      ensures Valid()
      ensures resumed <==> demodulated > old(demodulated)
      ensures resumed <==> old(demodulatorReportHandled) && !demodulatorReportHandled
      ensures resumed <==> old(Standing().FrameReady(Sizes()) && demodulatorReportHandled) && !writeBlocked
      ensures Standing() == old(Standing()).FrameHandedOver(Sizes(), writeBlocked)
      ensures resumed ==>
                !writeBlocked && demodulated == old(demodulated) + 1 && base + demodReadPos == found[demodulated - 1]
      ensures !resumed ==> unchanged(this)
    {
      resumed := false;
      hide Holds;
      if demodReadPosQueue != [] && demodulatorReportHandled && !writeBlocked {
        var pos := demodReadPosQueue[0];
        if pos + deqpskBlockSize < lastDataFeederWrite {
          FrameTaken(demodReadPosQueue, base, found, demodulated);
          demodReadPos := pos;
          demodReadPosQueue := demodReadPosQueue[1..];
          demodulatorReportHandled := false;
          demodulated := demodulated + 1;
          resumed := true;
        }
      }
    }

    // --- the events of the play loop ---

    /** A block was stored: its samples may now be read. */
    method OnDataFeederEvent()
      requires Valid()
      modifies this, buffer
      ensures Valid() && SameRun() && found == old(found) && demodulatorReportHandled == old(demodulatorReportHandled)
      ensures Standing() == old(Standing()).DataFeederHandled(Sizes())
      ensures old(dataStored) ==> base + lastDataFeederWrite == old(base + End())
    {
      hide FramesInOrder, Holds, Rebased, WorkersServed, Valid, FirstNeeded, NeedsRoom, Lagging, Place.Released;
      NoticeBlock();
      ShiftSyncFeederPointersIfPossible();
      ResumeSynchronizerIfReady();
    }

    method NoticeBlock()
      requires Valid()
      modifies this`lastDataFeederWrite
      ensures Valid() && Standing() == old(Standing()).BlockNoticed(Sizes())
      ensures dataStored ==> lastDataFeederWrite == End()
    {
      hide FramesInOrder, Holds, Rebased;
      if dataStored {
        FramesLater(base + lastDataFeederWrite, base + End());
        lastDataFeederWrite := dataWritePos + blockSize;
      }
    }

    /** Nothing the consumers see of the stream has changed, and frames already handed over stay handed over. */
    twostate predicate SameRun()
      reads this
    {
      stream == old(stream) && demodulated == old(demodulated) && base >= old(base)
    }

    /** The position just before which the NULL symbol was looked for, corrected when it was found. */
    function Corrected(quality: NullQuality, nullPosition: nat): nat
      reads this
    {
      var p := syncReadPos + 2 * nullPosition - mode.nullSize;
      if quality == NullOk && p > 0 then p else syncReadPos
    }

    /** The synchroniser reports: unless the NULL symbol was displaced, a frame was found. */
    method OnSynchronizerReport(quality: NullQuality, nullPosition: nat)
      requires Valid() && !synchronizerReportHandled && 2 * nullPosition <= 3 * mode.nullSize
      modifies this, buffer
      ensures Valid() && SameRun() && demodulatorReportHandled == old(demodulatorReportHandled)
      ensures old(Standing().FrameOf(Sizes(), quality, nullPosition)) >= 0
      ensures Standing() == old(Standing()).SynchronizerHandled(Sizes(), quality, nullPosition)
      ensures found == old(found) +
                if quality == NullShift then [] else [old(Standing().FrameOf(Sizes(), quality, nullPosition))]
    {
      hide FramesInOrder, Holds, Rebased, Corrected;
      TakeReport(quality, nullPosition);
      ShiftSyncFeederPointersIfPossible();
      ResumeSynchronizerIfReady();
    }

    method TakeReport(quality: NullQuality, nullPosition: nat)
      requires Valid() && !synchronizerReportHandled && 2 * nullPosition <= 3 * mode.nullSize
      modifies this`synchronizerReportHandled, this`syncReadPos, this`demodReadPosQueue, this`found
      ensures Valid() && old(Standing().FrameOf(Sizes(), quality, nullPosition)) >= 0
      ensures Standing() == old(Standing()).ReportTaken(Sizes(), quality, nullPosition)
      ensures found == old(found) +
                if quality == NullShift then [] else [old(Standing().FrameOf(Sizes(), quality, nullPosition))]
    {
      hide FramesInOrder, Holds, Rebased, Corrected;
      CorrectedStanding(quality, nullPosition);
      ReportBounds(quality, nullPosition);
      if quality == NullOk || quality == NullNotDetected {
        var at := Corrected(quality, nullPosition);
        var syncedPos := at + 2 * nullPosition + 2 * mode.nullSize;
        FrameFound(syncedPos, at + mode.PointerShift());
        QueueExtended(syncedPos);
        demodReadPosQueue := demodReadPosQueue + [syncedPos];
        found := found + [base + syncedPos];
        syncReadPos := at + mode.PointerShift();
      } else {
        FramesEarlier(base + syncReadPos, base + syncReadPos + 2 * nullPosition - mode.nullSize + mode.PointerShift());
        syncReadPos := syncReadPos + 2 * nullPosition - mode.nullSize + mode.PointerShift();
      }
      synchronizerReportHandled := true;
    }

    lemma CorrectedStanding(quality: NullQuality, nullPosition: nat)
      requires mode.Valid()
      ensures Standing().Corrected(Sizes(), quality, nullPosition) == base + Corrected(quality, nullPosition)
    {}

    lemma QueueExtended(at: nat)
      ensures Rebased(demodReadPosQueue + [at], base) == Rebased(demodReadPosQueue, base) + [base + at]
    {}

    /** Everything a report refers to has been written. */
    lemma ReportBounds(quality: NullQuality, nullPosition: nat)
      requires Valid() && !synchronizerReportHandled && 2 * nullPosition <= 3 * mode.nullSize
      ensures var at := Corrected(quality, nullPosition);
              && at + 2 * nullPosition + 2 * mode.nullSize <= lastDataFeederWrite
              && at + mode.PointerShift() <= lastDataFeederWrite
              && syncReadPos - mode.nullSize <= at <= syncReadPos + 2 * mode.nullSize
      ensures 0 <= syncReadPos + 2 * nullPosition - mode.nullSize + mode.PointerShift() <= lastDataFeederWrite
    {
      hide FramesInOrder, Holds, Rebased;
    }

    /** The demodulator is done with its frame. */
    method OnDemodulatorReport()
      requires Valid()
      modifies this, buffer
      ensures Valid() && SameRun() && found == old(found) && demodulatorReportHandled
      ensures Standing() == old(Standing()).DemodulatorHandled(Sizes())
    {
      hide FramesInOrder, Holds, Rebased, WorkersServed, Valid, FirstNeeded, NeedsRoom, Lagging, Place.Released;
      FinishFrame();
      ShiftSyncFeederPointersIfPossible();
    }

    method FinishFrame()
      requires Valid()
      modifies this`demodulatorReportHandled, this`demodReadPos
      ensures Valid() && Standing() == old(Standing()).FrameFinished(Sizes())
    {
      hide Holds;
      demodulatorReportHandled := true;
      demodReadPos := buffer.Length;
    }

    /** The source's own assertions, and the samples of a frame being demodulated are still in the buffer. */
    lemma AssertionsHold()
      requires Valid()
      ensures forall i :: 0 <= i < |demodReadPosQueue| ==>
                && demodReadPosQueue[i] <= lastDataFeederWrite <= buffer.Length
                && demodReadPosQueue[i] <= syncReadPos + mode.SyncReadSize()
      ensures lastDataFeederWrite <= End() && dataWritePos + blockSize <= buffer.Length
      ensures !demodulatorReportHandled ==>
                buffer[demodReadPos..lastDataFeederWrite] == stream[base + demodReadPos..base + lastDataFeederWrite]
    {
      forall i | 0 <= i < |demodReadPosQueue|
        ensures demodReadPosQueue[i] <= lastDataFeederWrite && demodReadPosQueue[i] <= syncReadPos + mode.SyncReadSize()
      {
        assert Rebased(demodReadPosQueue, base)[i] == found[demodulated + i];
      }
      if !demodulatorReportHandled {
        HoldsSlice(buffer[..], End(), base, stream, demodReadPos, lastDataFeederWrite);
      }
    }

    /** The buffer never reaches further than its own length past what the demodulator's mark holds back. */
    lemma StoredWithinReachOfMark()
      requires Valid()
      ensures base <= Standing().First() <= Standing().demod && |stream| <= Standing().demod + buffer.Length
    {
      NothingNeededBefore(0);
    }

    lemma FramesLater(last: int, last': int)
      requires FramesInOrder(mode, Rebased(demodReadPosQueue, base), base + syncReadPos, last,
                             !demodulatorReportHandled, base + demodReadPos, found, demodulated)
      requires last <= last'
      ensures FramesInOrder(mode, Rebased(demodReadPosQueue, base), base + syncReadPos, last',
                            !demodulatorReportHandled, base + demodReadPos, found, demodulated)
    {}

    lemma FramesEarlier(sync: int, sync': int)
      requires FramesInOrder(mode, Rebased(demodReadPosQueue, base), sync, base + lastDataFeederWrite,
                             !demodulatorReportHandled, base + demodReadPos, found, demodulated)
      requires sync <= sync'
      ensures FramesInOrder(mode, Rebased(demodReadPosQueue, base), sync', base + lastDataFeederWrite,
                            !demodulatorReportHandled, base + demodReadPos, found, demodulated)
    {}

    /** The newly found frame comes after all earlier ones, and the synchroniser's next position after it. */
    lemma FrameFound(syncedPos: nat, next: nat)
      requires Valid() && next + mode.nullSize > syncReadPos + mode.PointerShift() - 1
      requires syncedPos + mode.PointerShift() <= next + 5 * mode.nullSize && syncedPos <= lastDataFeederWrite
      requires syncedPos + mode.PointerShift() >= next + 2 * mode.nullSize
      ensures FramesInOrder(mode, Rebased(demodReadPosQueue + [syncedPos], base), base + next,
                            base + lastDataFeederWrite, !demodulatorReportHandled, base + demodReadPos,
                            found + [base + syncedPos], demodulated)
    {
      hide Holds;
      assert Rebased(demodReadPosQueue + [syncedPos], base) == Rebased(demodReadPosQueue, base) + [base + syncedPos];
    }

    lemma NothingNeededBefore(first: nat)
      requires Consistent() && first <= FirstNeeded()
      ensures first <= demodReadPos && first <= syncReadPos <= lastDataFeederWrite <= End() <= buffer.Length
      ensures forall i :: 0 <= i < |demodReadPosQueue| ==> demodReadPosQueue[i] >= first
    {
      QueueFromFirst(demodReadPosQueue, base, found, demodulated, first);
    }

    /** memcpy of n values from position first to the front; source and target do not overlap. */
    method MoveToFront(first: nat, n: nat)
      requires n <= first && first + n <= buffer.Length
      modifies buffer
      ensures buffer[..n] == old(buffer[first..first + n])
    {
      forall i | 0 <= i < n {
        buffer[i] := buffer[first + i];
      }
    }
  }

  function Lowered(q: seq<nat>, first: nat): (r: seq<nat>)
    requires forall i :: 0 <= i < |q| ==> q[i] >= first
    ensures |r| == |q|
    ensures forall i :: 0 <= i < |q| ==> r[i] == q[i] - first
  {
    seq(|q|, i requires 0 <= i < |q| => q[i] - first)
  }

  lemma LoweredRebased(q: seq<nat>, base: nat, first: nat)
    requires forall i :: 0 <= i < |q| ==> q[i] >= first
    ensures Rebased(Lowered(q, first), base + first) == Rebased(q, base)
  {}

  lemma QueueFromFirst(q: seq<nat>, base: nat, found: seq<nat>, demodulated: nat, first: nat)
    requires Increasing(found) && demodulated <= |found| && Rebased(q, base) == found[demodulated..]
    requires q == [] || first <= q[0]
    ensures forall i :: 0 <= i < |q| ==> q[i] >= first
  {
    forall i | 0 <= i < |q|
      ensures q[i] >= q[0]
    {
      assert Rebased(q, base)[i] == found[demodulated + i] && Rebased(q, base)[0] == found[demodulated];
    }
  }

  lemma FrameTaken(q: seq<nat>, base: nat, found: seq<nat>, demodulated: nat)
    requires q != [] && demodulated <= |found| && Rebased(q, base) == found[demodulated..]
    ensures demodulated < |found| && base + q[0] == found[demodulated]
    ensures Rebased(q[1..], base) == found[demodulated + 1..]
  {
    assert Rebased(q, base)[0] == found[demodulated];
    assert Rebased(q[1..], base) == Rebased(q, base)[1..];
  }
}

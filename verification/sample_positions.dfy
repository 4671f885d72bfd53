/** Where the feeder, the synchroniser and the demodulator stand in the sample stream. */
module SamplePositions {

  datatype NullQuality = NullOk | NullShift | NullNotDetected

  /** Sizes in samples; positions count numbers, two to a sample. */
  datatype ModeParameters = ModeParameters(nullSize: nat, frameSize: nat) {

    /** Far more frame than NULL symbol, as in every transmission mode. */
    ghost predicate Valid() {
      nullSize > 0 && 3 * nullSize < frameSize
    }

    function SyncReadSize(): nat { 2 * (frameSize + nullSize) }

    function PointerShift(): nat { 2 * frameSize }
  }

  function Min(a: int, b: int): int { if a <= b then a else b }

  /** The sizes of the buffer, of a block and of what the demodulator reads. */
  datatype Layout = Layout(size: nat, block: nat, mode: ModeParameters, frame: nat)

  /** Stream positions: the buffer's first sample, the feeder, the synchroniser, the demodulator's mark, the frames
      waiting, and the end of the samples released for reading. */
  datatype Place = Place(base: int, write: int, sync: int, demod: int, queue: seq<int>, last: int,
                         stored: bool, syncIdle: bool, demodIdle: bool) {

    /** The lowest position some consumer still needs. */
    function First(): int {
      Min(if queue == [] then sync else Min(sync, queue[0]), demod)
    }

    /** The block after the next would not fit. */
    predicate NeedsRoom(l: Layout) {
      write + 2 * l.block > base + l.size
    }

    /** The needed samples cannot be moved to the front without overlap and with room for the next block. */
    predicate Lagging(l: Layout) {
      NeedsRoom(l) && (First() + l.size <= write + 2 * l.block || write + l.block - First() > First() - base)
    }

    /** The stored block is handed back to the feeder, unless some consumer lags. */
    function Released(l: Layout): Place {
      if !stored || Lagging(l) then this
      else this.(base := if NeedsRoom(l) then First() else base, write := write + l.block, stored := false)
    }

    function SyncResumed(l: Layout): Place {
      this.(syncIdle := syncIdle && last < sync + l.mode.SyncReadSize())
    }

    /** The oldest frame waiting has been written. */
    predicate FrameReady(l: Layout) {
      queue != [] && queue[0] + l.frame < last
    }

    function FrameHandedOver(l: Layout, blocked: bool): Place {
      if FrameReady(l) && demodIdle && !blocked then this.(demod := queue[0], queue := queue[1..], demodIdle := false)
      else this
    }

    function Fed(enough: bool): Place {
      this.(stored := stored || enough)
    }

    function BlockNoticed(l: Layout): Place {
      if stored then this.(last := write + l.block) else this
    }

    function DataFeederHandled(l: Layout): Place {
      BlockNoticed(l).Released(l).SyncResumed(l)
    }

    /** Where the synchroniser really was, given where it found the NULL symbol. */
    function Corrected(l: Layout, quality: NullQuality, nullPosition: nat): int {
      var p := sync + 2 * nullPosition - l.mode.nullSize;
      if quality == NullOk && p > base then p else sync
    }

    function FrameOf(l: Layout, quality: NullQuality, nullPosition: nat): int {
      Corrected(l, quality, nullPosition) + 2 * nullPosition + 2 * l.mode.nullSize
    }

    /** A report moves the synchroniser on by a frame; unless the NULL symbol was displaced, a frame was found. */
    function ReportTaken(l: Layout, quality: NullQuality, nullPosition: nat): Place {
      if quality == NullShift then
        this.(syncIdle := true, sync := sync + 2 * nullPosition - l.mode.nullSize + l.mode.PointerShift())
      else
        this.(syncIdle := true, sync := Corrected(l, quality, nullPosition) + l.mode.PointerShift(),
              queue := queue + [FrameOf(l, quality, nullPosition)])
    }

    /** Whether a report moves the synchroniser to where the NULL symbol was found. */
    predicate CorrectedBy(l: Layout, quality: NullQuality, nullPosition: nat) {
      quality == NullOk && sync + 2 * nullPosition - l.mode.nullSize > base
    }

    /** After a report that found its NULL symbol, or found it displaced, the next one finds the NULL symbol a frame
        later at half its size, and so on: the synchroniser has locked on the signal. */
    lemma LocksOn(l: Layout, quality: NullQuality, nullPosition: nat, next: nat)
      requires quality == NullShift || CorrectedBy(l, quality, nullPosition)
      requires ReportTaken(l, quality, nullPosition).sync + 2 * next == sync + 2 * nullPosition + 2 * l.mode.frameSize
      ensures 2 * next == l.mode.nullSize
    {}

    /** A locked report moves the synchroniser on by one frame exactly, whatever its quality. */
    lemma StaysLocked(l: Layout, quality: NullQuality, nullPosition: nat)
      requires 2 * nullPosition == l.mode.nullSize
      ensures ReportTaken(l, quality, nullPosition).sync == sync + 2 * l.mode.frameSize
    {}

    /** A frame is taken to begin behind its NULL symbol, except that a correction counts the NULL symbol's distance
        twice: then the position is exact only if the report was locked already. */
    lemma FrameBehindNull(l: Layout, quality: NullQuality, nullPosition: nat)
      ensures FrameOf(l, quality, nullPosition) == sync + 2 * nullPosition + 2 * l.mode.nullSize <==>
              !CorrectedBy(l, quality, nullPosition) || 2 * nullPosition == l.mode.nullSize
    {}

    /** Positions stay on whole samples, real part first, as long as no odd NULL symbol size enters. */
    lemma StaysOnSamples(l: Layout, quality: NullQuality, nullPosition: nat)
      requires sync % 2 == 0
      ensures ReportTaken(l, quality, nullPosition).sync % 2 == 0 <==>
              l.mode.nullSize % 2 == 0 || (quality != NullShift && !CorrectedBy(l, quality, nullPosition))
      ensures FrameOf(l, quality, nullPosition) % 2 == 0 <==>
              l.mode.nullSize % 2 == 0 || !CorrectedBy(l, quality, nullPosition)
    {}

    function SynchronizerHandled(l: Layout, quality: NullQuality, nullPosition: nat): Place {
      ReportTaken(l, quality, nullPosition).Released(l).SyncResumed(l)
    }

    /** The demodulator is done; its idle mark is the end of the buffer as it now lies in the stream. */
    function FrameFinished(l: Layout): Place {
      this.(demodIdle := true, demod := base + l.size)
    }

    function DemodulatorHandled(l: Layout): Place {
      FrameFinished(l).Released(l)
    }
  }

  /** A clean start: an empty buffer, with the demodulator's mark at its end. */
  function Start(l: Layout): Place {
    Place(0, 0, 0, l.size, [], 0, false, true, true)
  }
}

/** The play loop: feeder, synchroniser, demodulator and decoder events over the two sliding buffers. */
module Scheduler {
  import opened SamplePositions
  import opened UnitPositions
  import opened PlayRuns
  import opened FeederStalls
  import S = SampleBuffer
  import D = SymbolBuffer

  class Scheduler<T(0)> {
    const samples: S.SampleBuffer<T>
    const symbols: D.SymbolBuffer<T>

    ghost predicate Separate() {
      samples as object != symbols as object && samples.buffer != symbols.buffer
    }

    ghost predicate Valid()
      reads samples, samples.buffer, symbols, symbols.buffer
    {
      && Separate() && samples.Valid() && symbols.Valid()
      // a unit is only being written when there is room for it
      && (!samples.demodulatorReportHandled ==> !symbols.demodulatorWriteBlocked)
      // a complete window is always being decoded; so is one whenever the demodulator is blocked
      && (symbols.WindowComplete() ==> !symbols.datadecoderReportHandled)
      && (symbols.demodulatorWriteBlocked ==> symbols.WindowComplete())
      // every frame handed over has given exactly one unit, the one in progress excepted
      && symbols.produced + (if samples.demodulatorReportHandled then 0 else 1) ==
           symbols.unitsForRead - 1 + samples.demodulated
    }

    constructor (samples: S.SampleBuffer<T>, symbols: D.SymbolBuffer<T>)
      requires samples as object != symbols as object && samples.buffer != symbols.buffer
      requires samples.Valid() && symbols.Valid()
      requires samples.demodulatorReportHandled && samples.demodulated == 0
      requires !symbols.WindowComplete() && !symbols.demodulatorWriteBlocked &&
                symbols.produced == symbols.unitsForRead - 1
      ensures Valid() && this.samples == samples && this.symbols == symbols && unchanged(samples) && unchanged(symbols)
    {
      this.samples := samples;
      this.symbols := symbols;
    }

    ghost function Sizes(): Setup {
      Setup(samples.Sizes(), symbols.Units())
    }

    /** The streams and places as they now are. */
    ghost function Now(): Snapshot<T>
      reads samples, symbols
    {
      Snapshot(Spots(samples.Standing(), symbols.Standing()), samples.stream, samples.found, symbols.stream)
    }

    /** The event can happen: its worker is busy and what it reports has the agreed size. */
    predicate Possible(e: Event<T>)
      reads samples, symbols
    {
      match e
      case FeederTurn(data, enough) => |data| == samples.blockSize
      case DataFeederProcess => true
      case SynchronizerProcess(quality, nullPosition) =>
        !samples.synchronizerReportHandled && 2 * nullPosition <= 3 * samples.mode.nullSize
      case DemodulatorProcess(unit) => !samples.demodulatorReportHandled && |unit| == symbols.unit
      case DatadecoderProcess(window) => !symbols.datadecoderReportHandled && |window| == symbols.block
    }

    lemma PossibleNow(e: Event<T>)
      ensures Possible(e) <==> CanHappen(Sizes(), Now().at, e)
    {}

    /** One event and everything the loop does in response. */
    method Handle(e: Event<T>)
      requires Valid() && Possible(e)
      modifies samples, samples.buffer, symbols, symbols.buffer
      ensures Valid() && Now() == Next(Sizes(), old(Now()), e)
      ensures old(samples.found) <= samples.found && samples.demodulated >= old(samples.demodulated)
    {
      match e {
        case FeederTurn(data, enough) =>
          var _ := samples.FeederTurn(data, enough);
        case DataFeederProcess =>
          samples.OnDataFeederEvent();
        case SynchronizerProcess(quality, nullPosition) =>
          OnSynchronizer(quality, nullPosition);
        case DemodulatorProcess(unit) =>
          OnDemodulator(unit);
        case DatadecoderProcess(window) =>
          OnDatadecoder(window);
      }
    }

    method OnSynchronizer(quality: NullQuality, nullPosition: nat)
      requires Valid() && !samples.synchronizerReportHandled && 2 * nullPosition <= 3 * samples.mode.nullSize
      modifies samples, samples.buffer
      ensures Valid() && Now() == Next(Sizes(), old(Now()), SynchronizerProcess(quality, nullPosition))
      ensures old(samples.found) <= samples.found && samples.demodulated >= old(samples.demodulated)
    {
      hide Place.Released, Place.FrameHandedOver, Place.SyncResumed, S.SampleBuffer.Valid, S.Rebased;
      samples.OnSynchronizerReport(quality, nullPosition);
      var _ := samples.ResumeDemodulatorIfReady(symbols.demodulatorWriteBlocked);
    }

    method OnDemodulator(unit: seq<T>)
      requires Valid() && !samples.demodulatorReportHandled && |unit| == symbols.unit
      modifies samples, samples.buffer, symbols, symbols.buffer
      ensures Valid() && Now() == Next(Sizes(), old(Now()), DemodulatorProcess(unit))
      ensures samples.demodulated >= old(samples.demodulated)
    {
      hide Place.Released, Place.FrameHandedOver, Place.SyncResumed, S.SampleBuffer.Valid, S.Rebased;
      samples.OnDemodulatorReport();
      symbols.OnDemodulatorReport(unit);
      ResumeBoth();
    }

    method OnDatadecoder(window: seq<T>)
      requires Valid() && !symbols.datadecoderReportHandled && |window| == symbols.block
      modifies samples, symbols, symbols.buffer
      ensures Valid() && Now() == Next(Sizes(), old(Now()), DatadecoderProcess(window))
      ensures samples.demodulated >= old(samples.demodulated)
    {
      hide Place.FrameHandedOver, S.SampleBuffer.Valid, S.Rebased, UnitPlace.WindowHandled, UnitPlace.DecoderResumed;
      hide D.SymbolBuffer.Consistent;
      symbols.OnDatadecoderReport(window);
      ResumeBoth();
    }

    method ResumeBoth()
      requires Separate() && samples.Valid() && symbols.Valid()
      requires !samples.demodulatorReportHandled ==> !symbols.demodulatorWriteBlocked
      requires symbols.produced + (if samples.demodulatorReportHandled then 0 else 1) ==
                symbols.unitsForRead - 1 + samples.demodulated
      modifies samples`demodReadPos, samples`demodReadPosQueue, samples`demodulatorReportHandled, samples`demodulated,
               symbols`datadecoderReportHandled
      ensures Valid() && samples.demodulated >= old(samples.demodulated)
      ensures samples.Standing() ==
                old(samples.Standing()).FrameHandedOver(samples.Sizes(), symbols.demodulatorWriteBlocked)
      ensures symbols.Standing() == old(symbols.Standing()).DecoderResumed(symbols.Units())
    {
      var _ := samples.ResumeDemodulatorIfReady(symbols.demodulatorWriteBlocked);
      var _ := symbols.ResumeDatadecoderIfReady();
      BlockedWindow();
    }

    lemma BlockedWindow()
      requires symbols.Valid()
      ensures symbols.demodulatorWriteBlocked ==> symbols.WindowComplete()
    {
      if symbols.demodulatorWriteBlocked {
        var k := symbols.BlockedMeansDecodable();
      }
    }

    /** The event, or nothing if its worker is idle. */
    method HandleIfPossible(e: Event<T>)
      requires Valid()
      modifies samples, samples.buffer, symbols, symbols.buffer
      ensures Valid() && Now() == Turn(Sizes(), old(Now()), e)
    {
      hide Next, Valid, CanHappen;
      PossibleNow(e);
      if Possible(e) {
        Handle(e);
      }
    }

    /** The workers that can start do so before the first event. */
    method StartWorkers()
      requires Valid()
      modifies samples, symbols
      ensures Valid() && Now() == Started(Sizes(), old(Now()))
    {
      hide Place.SyncResumed, Place.FrameHandedOver, S.SampleBuffer.Valid, S.Rebased;
      samples.ResumeSynchronizerIfReady();
      ResumeBoth();
    }

    /** The event loop over any sequence of events; an event whose worker is idle does not occur. */
    method Play(events: seq<Event<T>>)
      requires Valid()
      modifies samples, samples.buffer, symbols, symbols.buffer
      ensures Valid() && Now() == Played(Sizes(), Started(Sizes(), old(Now())), events)
      ensures var first := Started(Sizes(), old(Now()));
              (forall k :: 0 <= k <= |events| ==> Played(Sizes(), first, events[..k]).at.samples.demodIdle) ==>
                |samples.stream| <= old(Now().at.samples.demod) + samples.buffer.Length
    {
      hide Valid, Turn, Now, Started;
      StartWorkers();
      ghost var first := Now();
      for i := 0 to |events|
        invariant Valid() && Now() == Played(Sizes(), first, events[..i])
      {
        HandleIfPossible(events[i]);
        assert events[..i + 1][..i] == events[..i];
      }
      assert events[..|events|] == events;
      if forall k :: 0 <= k <= |events| ==> Played(Sizes(), first, events[..k]).at.samples.demodIdle {
        assert events[..0] == [];
        MarkStaysWithoutFrames(Sizes(), first, events);
        MarkBefore(Sizes(), old(Now()));
        StoredWithinReachOfMark();
      }
    }

    lemma StoredWithinReachOfMark()
      requires Valid()
      ensures |samples.stream| <= Now().at.samples.demod + samples.buffer.Length
    {
      samples.StoredWithinReachOfMark();
    }

    /** While the demodulator is blocked the decoder is at work, and any run with enough of its reports unblocks it. */
    lemma BlockEndsInRuns(events: seq<Event<T>>)
      requires Valid() && symbols.demodulatorWriteBlocked
      requires WindowsDone(Sizes(), events) * symbols.unit > 3 * symbols.block
      ensures !symbols.datadecoderReportHandled
      ensures exists k :: 0 <= k <= |events| && !Played(Sizes(), Now(), events[..k]).at.units.blocked
    {
      symbols.BlockedWaits();
      BlockEnds(Sizes(), Now(), events);
    }

    /** From a clean start, with every NULL symbol displaced or with every frame found in its place: however it goes on,
        the feeder stops for good after twelve blocks. */
    static method StallingRun(zero: T, r: Reception, unit: nat, unitsForRead: nat, rounds: seq<Round<T>>,
                              more: seq<Event<T>>) returns (s: Scheduler<T>)
      requires unit > 0 && unitsForRead > 0 && (r == Nominal ==> unit == 193536 && unitsForRead == 5)
      requires |rounds| == r.Length() && forall k :: 0 <= k < |rounds| ==> rounds[k].Fits(ModeI(unit, unitsForRead))
      ensures s.Valid() && s.samples.stream == Joined(r, rounds) && |s.samples.stream| == 12 * BLOCK
      ensures Stuck(s.Sizes(), s.Now().at)
    {
      s := CleanStart(zero, unit, unitsForRead);
      hide *;
      ghost var u, was := ModeI(unit, unitsForRead), s.Now();
      s.Play(AllEvents(r, rounds) + more);
      BothStall(u, r, unit, unitsForRead);
      StartedClean(u, was);
      FeederStops(u, r, was, rounds, more);
      JoinedLength(u, r, rounds);
    }

    static method CleanStart(zero: T, unit: nat, unitsForRead: nat) returns (s: Scheduler<T>)
      requires unit > 0 && unitsForRead > 0
      ensures s.Valid() && s.Sizes() == ModeI(unit, unitsForRead) && s.Now().samples == []
      ensures s.Now().at == Spots(Start(s.Sizes().l), StartUnits(s.Sizes().z))
      ensures fresh(s) && fresh(s.samples) && fresh(s.symbols) && fresh(s.samples.buffer) && fresh(s.symbols.buffer)
    {
      hide S.SampleBuffer.Valid, D.SymbolBuffer.Valid;
      var l := ModeI(unit, unitsForRead).l;
      var buffer := new T[l.size];
      var samples := new S.SampleBuffer(buffer, l.block, l.mode, l.frame);
      var symbols := new D.SymbolBuffer(unit, unitsForRead, zero);
      s := new Scheduler(samples, symbols);
    }
  }
}

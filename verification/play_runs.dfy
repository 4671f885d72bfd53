/** Runs of the play loop on values: what each event makes of the two streams and of the places in them. */
module PlayRuns {
  import opened SamplePositions
  import opened UnitPositions
  import opened SlidingBuffer
  import opened Division

  /** What may happen next: a turn of the feeder thread, or a report with what the worker did. */
  datatype Event<T> =
    | FeederTurn(data: seq<T>, enough: bool)
    | DataFeederProcess
    | SynchronizerProcess(quality: NullQuality, nullPosition: nat)
    | DemodulatorProcess(unit: seq<T>)
    | DatadecoderProcess(window: seq<T>)

  /** The sizes of the two buffers. */
  datatype Setup = Setup(l: Layout, z: UnitLayout)

  /** The places in both streams. */
  datatype Spots = Spots(samples: Place, units: UnitPlace)

  /** The places, the two streams, and the frames found. */
  datatype Snapshot<T> = Snapshot(at: Spots, samples: seq<T>, found: seq<int>, symbols: seq<T>)

  /** The event's worker is busy and what it reports has the agreed size. */
  ghost predicate CanHappen<T>(u: Setup, s: Spots, e: Event<T>) {
    match e
    case FeederTurn(data, enough) => |data| == u.l.block
    case DataFeederProcess => true
    case SynchronizerProcess(quality, nullPosition) => !s.samples.syncIdle && 2 * nullPosition <= 3 * u.l.mode.nullSize
    case DemodulatorProcess(unit) => !s.samples.demodIdle && |unit| == u.z.unit
    case DatadecoderProcess(window) => !s.units.idle && |window| == u.z.window
  }

  /** The places after an event. */
  ghost function After<T>(u: Setup, s: Spots, e: Event<T>): Spots {
    match e
    case FeederTurn(data, enough) => s.(samples := s.samples.Fed(enough))
    case DataFeederProcess => s.(samples := s.samples.DataFeederHandled(u.l))
    case SynchronizerProcess(quality, nullPosition) =>
      s.(samples := s.samples.SynchronizerHandled(u.l, quality, nullPosition).FrameHandedOver(u.l, s.units.blocked))
    case DemodulatorProcess(unit) =>
      var n := s.units.UnitHandled(u.z);
      Spots(s.samples.DemodulatorHandled(u.l).FrameHandedOver(u.l, n.blocked), n.DecoderResumed(u.z))
    case DatadecoderProcess(window) =>
      var n := s.units.WindowHandled(u.z);
      Spots(s.samples.FrameHandedOver(u.l, n.blocked), n.DecoderResumed(u.z))
  }

  /** The window at the decoder's place replaced by what the decoder made of it. */
  ghost function Rewritten<T>(symbols: seq<T>, at: int, window: seq<T>): seq<T> {
    if 0 <= at && at + |window| <= |symbols| then Overwritten(symbols, at, window) else symbols
  }

  ghost function Next<T>(u: Setup, a: Snapshot<T>, e: Event<T>): Snapshot<T> {
    Snapshot(After(u, a.at, e),
             a.samples + (if e.FeederTurn? && e.enough && !a.at.samples.stored then e.data else []),
             a.found + (if e.SynchronizerProcess? && e.quality != NullShift
                        then [a.at.samples.FrameOf(u.l, e.quality, e.nullPosition)] else []),
             if e.DemodulatorProcess? then a.symbols + e.unit
             else if e.DatadecoderProcess? then Rewritten(a.symbols, a.at.units.read, e.window)
             else a.symbols)
  }

  /** An event that cannot happen does not. */
  ghost function Turn<T>(u: Setup, a: Snapshot<T>, e: Event<T>): Snapshot<T> {
    if CanHappen(u, a.at, e) then Next(u, a, e) else a
  }

  ghost function Played<T>(u: Setup, a: Snapshot<T>, events: seq<Event<T>>): Snapshot<T> {
    if events == [] then a else Turn(u, Played(u, a, events[..|events| - 1]), events[|events| - 1])
  }

  lemma {:induction false} PlayedOn<T>(u: Setup, a: Snapshot<T>, events: seq<Event<T>>, more: seq<Event<T>>)
    ensures Played(u, a, events + more) == Played(u, Played(u, a, events), more)
  {
    if more == [] {
      assert events + more == events;
    } else {
      var n := |more| - 1;
      assert (events + more)[..|events| + n] == events + more[..n];
      PlayedOn(u, a, events, more[..n]);
    }
  }

  /** Before the first event the workers that can start do so. */
  ghost function Started<T>(u: Setup, a: Snapshot<T>): Snapshot<T> {
    a.(at := Spots(a.at.samples.SyncResumed(u.l).FrameHandedOver(u.l, a.at.units.blocked),
                   a.at.units.DecoderResumed(u.z)))
  }

  lemma StartedClean<T>(u: Setup, a: Snapshot<T>)
    requires a.at == Spots(Start(u.l), StartUnits(u.z)) && u.l.mode.Valid() && u.z.window > 0
    ensures Started(u, a) == a
  {}

  // --- a stuck feeder ---

  /** Neither consumer works or can start, the feeder's last block has been noticed, and the decoder is idle, too, or
      its report changes nothing for the demodulator. */
  ghost predicate Settled(u: Setup, s: Spots) {
    var p := s.samples;
    && p.syncIdle && p.last < p.sync + u.l.mode.SyncReadSize()
    && p.demodIdle && (s.units.idle || !p.FrameReady(u.l))
    && p.last == p.write + if p.stored then u.l.block else 0
  }

  /** The feeder holds a block that is never released. */
  ghost predicate Stuck(u: Setup, s: Spots) {
    Settled(u, s) && s.samples.stored && s.samples.Lagging(u.l)
  }

  lemma StuckStays<T>(u: Setup, a: Snapshot<T>, e: Event<T>)
    requires Stuck(u, a.at)
    ensures var b := Turn(u, a, e);
            Stuck(u, b.at) && b.at.samples == a.at.samples && b.samples == a.samples && b.found == a.found
  {}

  /** A stuck feeder stores nothing more, whatever happens. */
  lemma {:induction false} StuckForGood<T>(u: Setup, a: Snapshot<T>, events: seq<Event<T>>)
    requires Stuck(u, a.at)
    ensures var b := Played(u, a, events);
            Stuck(u, b.at) && b.at.samples == a.at.samples && b.samples == a.samples && b.found == a.found
  {
    if events != [] {
      StuckForGood(u, a, events[..|events| - 1]);
      StuckStays(u, Played(u, a, events[..|events| - 1]), events[|events| - 1]);
    }
  }

  /** In a settled state the feeder holds a block and a consumer lags exactly when no run from there stores anything. */
  lemma StuckIffNothingStored<T>(u: Setup, a: Snapshot<T>, zero: T)
    requires Settled(u, a.at) && u.l.block > 0
    ensures a.at.samples.stored && a.at.samples.Lagging(u.l) <==>
            forall events: seq<Event<T>> :: Played(u, a, events).samples == a.samples
  {
    if a.at.samples.stored && a.at.samples.Lagging(u.l) {
      forall events: seq<Event<T>>
        ensures Played(u, a, events).samples == a.samples
      {
        StuckForGood(u, a, events);
      }
    } else {
      var block := seq(u.l.block, _ => zero);
      var events := [DataFeederProcess, FeederTurn(block, true)];
      assert events[..1] == [DataFeederProcess];
      assert Played(u, a, events[..1]) == Turn(u, a, DataFeederProcess) by {
        assert events[..1][..0] == [];
      }
      assert |Played(u, a, events).samples| > |a.samples|;
    }
  }

  // --- a feeder without frames ---

  /** No report finds a frame. */
  ghost predicate WithoutFrames<T>(events: seq<Event<T>>) {
    forall k :: 0 <= k < |events| && events[k].SynchronizerProcess? ==> events[k].quality == NullShift
  }

  /** The demodulator's mark is where the start left it, and holds the buffer back. */
  ghost predicate HeldBack<T>(u: Setup, a: Snapshot<T>) {
    var p := a.at.samples;
    && p.queue == [] && p.demodIdle && p.demod == u.l.size
    && p.base <= p.First() && p.write + u.l.block <= p.base + u.l.size
    && |a.samples| == p.write + if p.stored then u.l.block else 0
  }

  lemma HeldBackStays<T>(u: Setup, a: Snapshot<T>, e: Event<T>)
    requires HeldBack(u, a) && u.l.mode.Valid() && (e.SynchronizerProcess? ==> e.quality == NullShift)
    ensures HeldBack(u, Turn(u, a, e))
  {}

  /** From a clean start, in any order of events, the feeder stores at most twice what the buffer holds while no report
      finds a frame. */
  lemma {:induction false} FeedNeedsFrames<T>(u: Setup, a: Snapshot<T>, events: seq<Event<T>>)
    requires u.l.mode.Valid() && u.l.block <= u.l.size && a.at.samples == Start(u.l) && a.samples == []
    requires WithoutFrames(events)
    ensures HeldBack(u, Played(u, a, events)) && |Played(u, a, events).samples| <= 2 * u.l.size
  {
    if events != [] {
      var n := |events| - 1;
      FeedNeedsFrames(u, a, events[..n]);
      HeldBackStays(u, Played(u, a, events[..n]), events[n]);
    }
  }

  /** As long as the demodulator has no frame its mark stays where it is. */
  lemma {:induction false} MarkStaysWithoutFrames<T>(u: Setup, a: Snapshot<T>, events: seq<Event<T>>)
    requires forall k :: 0 <= k <= |events| ==> Played(u, a, events[..k]).at.samples.demodIdle
    ensures Played(u, a, events).at.samples.demod == a.at.samples.demod
  {
    if events != [] {
      var n := |events| - 1;
      forall k | 0 <= k <= n
        ensures Played(u, a, events[..n][..k]).at.samples.demodIdle
      {
        assert events[..n][..k] == events[..k];
      }
      assert events[..n + 1] == events;
      MarkStaysWithoutFrames(u, a, events[..n]);
      MarkStays(u, Played(u, a, events[..n]), events[n]);
    }
  }

  lemma MarkStays<T>(u: Setup, a: Snapshot<T>, e: Event<T>)
    requires a.at.samples.demodIdle && Turn(u, a, e).at.samples.demodIdle
    ensures Turn(u, a, e).at.samples.demod == a.at.samples.demod
  {}

  lemma MarkBefore<T>(u: Setup, a: Snapshot<T>)
    requires Started(u, a).at.samples.demodIdle
    ensures Started(u, a).at.samples.demod == a.at.samples.demod
  {}

  // --- a blocked demodulator ---

  ghost predicate WindowDone<T>(u: Setup, e: Event<T>) {
    e.DatadecoderProcess? && |e.window| == u.z.window
  }

  /** The number of windows the decoder has reported. */
  ghost function WindowsDone<T>(u: Setup, events: seq<Event<T>>): nat {
    if events == [] then 0
    else WindowsDone(u, events[..|events| - 1]) + if WindowDone(u, events[|events| - 1]) then 1 else 0
  }

  ghost predicate Blocked(u: Setup, s: Spots) {
    s.units.Waiting(u.z) && s.samples.demodIdle
  }

  /** While the demodulator stays blocked every window done moves the decoder on by a unit. */
  lemma BlockedTurn<T>(u: Setup, a: Snapshot<T>, e: Event<T>)
    requires Blocked(u, a.at) && Turn(u, a, e).at.units.blocked
    ensures Blocked(u, Turn(u, a, e).at)
    ensures Turn(u, a, e).at.units ==
              a.at.units.(read := a.at.units.read + if WindowDone(u, e) then u.z.unit else 0)
  {
    a.at.units.WindowHelps(u.z);
  }

  lemma {:induction false} StillBlocked<T>(u: Setup, a: Snapshot<T>, events: seq<Event<T>>)
    requires Blocked(u, a.at) && forall k :: 0 <= k <= |events| ==> Played(u, a, events[..k]).at.units.blocked
    ensures Blocked(u, Played(u, a, events).at)
    ensures Played(u, a, events).at.units ==
              a.at.units.(read := a.at.units.read + WindowsDone(u, events) * u.z.unit)
  {
    if events != [] {
      var n := |events| - 1;
      forall k | 0 <= k <= n
        ensures Played(u, a, events[..n][..k]).at.units.blocked
      {
        assert events[..n][..k] == events[..k];
      }
      assert events[..n + 1] == events;
      hide Turn, Blocked, WindowDone;
      StillBlocked(u, a, events[..n]);
      BlockedTurn(u, Played(u, a, events[..n]), events[n]);
      OneMore(WindowsDone(u, events[..n]), u.z.unit);
    }
  }

  /** In any run from a blocked state, the demodulator is unblocked before the decoder has done more than three windows'
      worth of units; until then the decoder is at work. */
  lemma BlockEnds<T>(u: Setup, a: Snapshot<T>, events: seq<Event<T>>)
    requires Blocked(u, a.at) && WindowsDone(u, events) * u.z.unit > 3 * u.z.window
    ensures exists k :: 0 <= k <= |events| && !Played(u, a, events[..k]).at.units.blocked
  {
    if forall k :: 0 <= k <= |events| ==> Played(u, a, events[..k]).at.units.blocked {
      StillBlocked(u, a, events);
      Played(u, a, events).at.units.WindowHelps(u.z);
    }
  }
}

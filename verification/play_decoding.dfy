/** Runs of the play loop in which the decoder undoes the time interleaving of what the demodulator delivers. */
module PlayDecoding {
  import opened UnitPositions
  import opened PlayRuns
  import opened Division
  import opened SlidingBuffer
  import Time = TimeDeinterleaver
  import Msc = MscDecoder

  /** The symbol buffer is laid out for the station. */
  ghost predicate Matches(z: UnitLayout, l: Time.Layout) {
    l.Valid() &&
      z == UnitLayout(l.UnitSize(), (l.UnitsBack() + 1) * l.UnitSize(), 4 * ((l.UnitsBack() + 1) * l.UnitSize()))
  }

  /** The units delivered, how many they are, and the number of windows decoded. */
  datatype Story<T> = Story(raw: seq<T>, units: nat, decoded: nat)

  ghost function ToldOne<T>(u: Setup, a: Snapshot<T>, s: Story<T>, e: Event<T>): Story<T> {
    if !CanHappen(u, a.at, e) then s
    else if e.DemodulatorProcess? then Story(s.raw + e.unit, s.units + 1, s.decoded)
    else if e.DatadecoderProcess? then s.(decoded := s.decoded + 1)
    else s
  }

  /** The story of a run. */
  ghost function Told<T>(u: Setup, a: Snapshot<T>, s: Story<T>, events: seq<Event<T>>): Story<T> {
    if events == [] then s
    else
      var before := events[..|events| - 1];
      ToldOne(u, Played(u, a, before), Told(u, a, s, before), events[|events| - 1])
  }

  /** The decoder de-interleaves its window in place. */
  ghost predicate Deinterleaves<T>(l: Time.Layout, a: Snapshot<T>, e: Event<T>)
    requires l.Valid()
  {
    var at := a.at.units.read;
    e.DatadecoderProcess? && 0 <= at && at + |e.window| <= |a.symbols| ==>
      Time.Fits(l, l.Offset(), |e.window|) &&
        Time.Deinterleaved(l, l.Offset(), a.symbols[at..at + |e.window|], e.window)
  }

  ghost predicate Decodes<T>(u: Setup, l: Time.Layout, a: Snapshot<T>, events: seq<Event<T>>)
    requires l.Valid()
  {
    forall k :: 0 <= k < |events| ==> Deinterleaves(l, Played(u, a, events[..k]), events[k])
  }

  /** The positions fit the stream of units: the demodulator writes at its end, and the decoder's window is complete. */
  ghost predicate PositionsFit(z: UnitLayout, p: UnitPlace, n: nat) {
    && p.write + (if p.blocked then z.unit else 0) == n && p.last <= n
    && (!p.idle ==> p.WindowReady(z))
  }

  /** What every run keeps: the symbol stream is what the windows decoded so far make of the units delivered. */
  ghost predicate Follows<T>(u: Setup, l: Time.Layout, a: Snapshot<T>, s: Story<T>) {
    && Matches(u.z, l) && Msc.StreamState(l, s.raw, a.symbols, s.units, s.decoded)
    && a.at.units.read == s.decoded * u.z.unit
    && PositionsFit(u.z, a.at.units, |a.symbols|)
    && (!a.at.samples.demodIdle ==> !a.at.units.blocked)
  }

  /** A clean start, after a window of zeros but for its last unit. */
  lemma StartFollows<T>(u: Setup, l: Time.Layout, a: Snapshot<T>)
    requires Matches(u.z, l) && a.at.units == StartUnits(u.z) && a.at.samples.demodIdle
    requires |a.symbols| == l.UnitsBack() * l.UnitSize()
    ensures Follows(u, l, a, Story(a.symbols, l.UnitsBack(), 0))
  {
    OneMore(l.UnitsBack(), l.UnitSize());
    Msc.StreamStart(l, a.symbols);
    hide Msc.StreamState;
  }

  lemma TurnFollows<T>(u: Setup, l: Time.Layout, a: Snapshot<T>, s: Story<T>, e: Event<T>)
    requires Follows(u, l, a, s) && Deinterleaves(l, a, e)
    ensures Follows(u, l, Turn(u, a, e), ToldOne(u, a, s, e))
  {
    hide Deinterleaves, Msc.StreamState;
    if CanHappen(u, a.at, e) {
      if e.DemodulatorProcess? {
        UnitFollows(u, l, a, s, e);
      } else if e.DatadecoderProcess? {
        WindowFollows(u, l, a, s, e);
      }
    }
  }

  lemma UnitFollows<T>(u: Setup, l: Time.Layout, a: Snapshot<T>, s: Story<T>, e: Event<T>)
    requires Follows(u, l, a, s) && e.DemodulatorProcess? && CanHappen(u, a.at, e)
    ensures Follows(u, l, Turn(u, a, e), ToldOne(u, a, s, e))
  {
    hide Msc.StreamState;
    Msc.UnitArrives(l, s.raw, a.symbols, s.units, s.decoded, e.unit);
  }

  lemma WindowFollows<T>(u: Setup, l: Time.Layout, a: Snapshot<T>, s: Story<T>, e: Event<T>)
    requires Follows(u, l, a, s) && Deinterleaves(l, a, e) && e.DatadecoderProcess? && CanHappen(u, a.at, e)
    ensures Follows(u, l, Turn(u, a, e), ToldOne(u, a, s, e))
  {
    WindowPositions(u.z, a.at.units, |a.symbols|);
    OneMore(s.decoded, u.z.unit);
    var at := WindowFacts(u, l, a, s, e);
    hide PositionsFit, UnitPlace.WindowHandled, UnitPlace.DecoderResumed, Msc.StreamState, Overwritten, Deinterleaves;
  }

  lemma WindowPositions(z: UnitLayout, p: UnitPlace, n: nat)
    requires PositionsFit(z, p, n) && !p.idle
    ensures p.read + z.window <= n
    ensures PositionsFit(z, p.WindowHandled(z).DecoderResumed(z), n)
    ensures p.WindowHandled(z).DecoderResumed(z).read == p.read + z.unit
  {}

  lemma WindowStream<T>(l: Time.Layout, symbols: seq<T>, s: Story<T>, at: nat, window: seq<T>, rewritten: seq<T>)
    requires l.Valid() && Msc.StreamState(l, s.raw, symbols, s.units, s.decoded) && at == s.decoded * l.UnitSize()
    requires |rewritten| == |window| == (l.UnitsBack() + 1) * l.UnitSize()
    requires at + |window| <= |symbols| && window == symbols[at..at + |window|]
    requires Time.Fits(l, l.Offset(), |window|) && Time.Deinterleaved(l, l.Offset(), window, rewritten)
    ensures s.decoded + l.UnitsBack() < s.units
    ensures Msc.StreamState(l, s.raw, Overwritten(symbols, at, rewritten), s.units, s.decoded + 1)
  {
    hide *;
    Msc.WindowKeepsStream(l, s.raw, symbols, s.units, s.decoded, window, rewritten);
  }

  /** Every run keeps it. */
  lemma {:induction false} RunFollows<T>(u: Setup, l: Time.Layout, a: Snapshot<T>, s: Story<T>, events: seq<Event<T>>)
    requires l.Valid() && Follows(u, l, a, s) && Decodes(u, l, a, events)
    ensures Follows(u, l, Played(u, a, events), Told(u, a, s, events))
  {
    if events != [] {
      var n := |events| - 1;
      forall k | 0 <= k < n
        ensures Deinterleaves(l, Played(u, a, events[..n][..k]), events[..n][k])
      {
        assert events[..n][..k] == events[..k];
      }
      RunFollows(u, l, a, s, events[..n]);
      TurnFollows(u, l, Played(u, a, events[..n]), Told(u, a, s, events[..n]), events[n]);
    }
  }

  // --- what is handed on ---

  /** The sub-channel's samples of CIF i of the oldest unit of a window. */
  ghost function OldestCif<T>(l: Time.Layout, w: seq<T>, i: nat): (cif: seq<T>)
    requires l.Valid() && Time.Fits(l, l.Offset(), |w|) && i < l.numberOfCif
    ensures Msc.InUnit(l, w, i, cif)
  {
    seq(l.audioSize, k requires 0 <= k < l.audioSize => w[l.Offset() + l.Addr(i, k)])
  }

  /** CIF i of the oldest unit of a window is logical frame f. */
  ghost predicate HoldsFrame<T>(l: Time.Layout, w: seq<T>, i: nat, f: nat, frame: (int, nat) -> T) {
    && l.Valid() && Time.Fits(l, l.Offset(), |w|) && i < l.numberOfCif
    && forall k: nat :: k < l.audioSize ==> OldestCif(l, w, i)[k] == frame(f, k)
  }

  /** Once the gate is open the oldest unit of a window holds logical frames of the transmitter, whole and in order. */
  lemma WindowGivesFrames<T>(u: Setup, l: Time.Layout, a: Snapshot<T>, s: Story<T>, e: Event<T>, frame: (int, nat) -> T,
                             i: nat)
    requires Follows(u, l, a, s) && Deinterleaves(l, a, e) && e.DatadecoderProcess? && CanHappen(u, a.at, e)
    requires Msc.TimeInterleaved(l, s.raw, s.units, frame) && s.decoded * l.numberOfCif >= 16 && i < l.numberOfCif
    ensures HoldsFrame(l, e.window, i, s.decoded * l.numberOfCif + i + 1, frame)
  {
    hide *;
    var at := WindowFacts(u, l, a, s, e);
    FrameInCif(l, a.symbols, s, at, e.window, frame, i, s.decoded * l.numberOfCif + i);
  }

  /** A window reported lies in the stream where the last one ended its first unit, and rewriting it there is one more.
      */
  lemma WindowFacts<T>(u: Setup, l: Time.Layout, a: Snapshot<T>, s: Story<T>, e: Event<T>) returns (at: nat)
    requires Follows(u, l, a, s) && Deinterleaves(l, a, e) && e.DatadecoderProcess? && CanHappen(u, a.at, e)
    ensures l.Valid() && at == a.at.units.read == s.decoded * l.UnitSize() && at + |e.window| <= |a.symbols|
    ensures Time.Fits(l, l.Offset(), |e.window|) && |s.raw| == s.units * l.UnitSize()
    ensures s.decoded + l.UnitsBack() < s.units
    ensures Msc.StreamState(l, s.raw, Overwritten(a.symbols, at, e.window), s.units, s.decoded + 1)
  {
    hide *;
    FollowsParts(u, l, a, s);
    WindowDue(u, a, e);
    WindowPositions(u.z, a.at.units, |a.symbols|);
    at := a.at.units.read;
    DeinterleavesAt(l, a, e, at);
    WindowStream(l, a.symbols, s, at, a.symbols[at..at + |e.window|], e.window);
  }

  lemma FollowsParts<T>(u: Setup, l: Time.Layout, a: Snapshot<T>, s: Story<T>)
    requires Follows(u, l, a, s)
    ensures l.Valid() && u.z.unit == l.UnitSize() && u.z.window == (l.UnitsBack() + 1) * l.UnitSize()
    ensures Msc.StreamState(l, s.raw, a.symbols, s.units, s.decoded) && |s.raw| == s.units * l.UnitSize()
    ensures 0 <= a.at.units.read == s.decoded * l.UnitSize() && PositionsFit(u.z, a.at.units, |a.symbols|)
  {
    hide PositionsFit, Msc.Restored;
  }

  lemma WindowDue<T>(u: Setup, a: Snapshot<T>, e: Event<T>)
    requires e.DatadecoderProcess? && CanHappen(u, a.at, e)
    ensures |e.window| == u.z.window && !a.at.units.idle
  {}

  lemma DeinterleavesAt<T>(l: Time.Layout, a: Snapshot<T>, e: Event<T>, at: nat)
    requires l.Valid() && Deinterleaves(l, a, e) && e.DatadecoderProcess?
    requires at == a.at.units.read && at + |e.window| <= |a.symbols|
    ensures Time.Fits(l, l.Offset(), |e.window|)
    ensures Time.Deinterleaved(l, l.Offset(), a.symbols[at..at + |e.window|], e.window)
  {
    hide Time.Fits, Time.Deinterleaved;
  }

  lemma FrameInCif<T>(l: Time.Layout, symbols: seq<T>, s: Story<T>, at: nat, w: seq<T>, frame: (int, nat) -> T, i: nat,
                      q: nat)
    requires l.Valid() && Time.Fits(l, l.Offset(), |w|) && i < l.numberOfCif && at + |w| <= |symbols|
    requires at == s.decoded * l.UnitSize() && q == s.decoded * l.numberOfCif + i && q >= 16 + i
    requires s.decoded + l.UnitsBack() < s.units && |s.raw| == s.units * l.UnitSize()
    requires Msc.StreamState(l, s.raw, Overwritten(symbols, at, w), s.units, s.decoded + 1)
    requires Msc.TimeInterleaved(l, s.raw, s.units, frame)
    ensures HoldsFrame(l, w, i, q + 1, frame)
  {
    LaterCif(l, s.decoded, s.units, q, i);
    hide *;
    Msc.CifOfUnit(l, s.raw, symbols, w, at, OldestCif(l, w, i), s.units, s.decoded, i, q);
    Msc.DelaysCancel(l, s.raw, s.units, frame, OldestCif(l, w, i), q);
    FrameHeld(l, w, i, q + 1, frame);
  }

  lemma FrameHeld<T>(l: Time.Layout, w: seq<T>, i: nat, f: nat, frame: (int, nat) -> T)
    requires l.Valid() && Time.Fits(l, l.Offset(), |w|) && i < l.numberOfCif
    requires forall k: nat :: k < l.audioSize ==> OldestCif(l, w, i)[k] == frame(f, k)
    ensures HoldsFrame(l, w, i, f, frame)
  {
    hide Time.Fits;
  }

  lemma LaterCif(l: Time.Layout, d: nat, units: nat, q: nat, i: nat)
    requires l.Valid() && i < l.numberOfCif && q == d * l.numberOfCif + i && d + l.UnitsBack() < units
    ensures q + 16 < units * l.numberOfCif
  {
    var n, back := l.numberOfCif, l.UnitsBack();
    Msc.FirstUnits(l);
    MulMonotone(d + back + 1, units, n);
    assert (d + back + 1) * n == d * n + back * n + n;
  }

  /** In any run of the play loop from a clean start, however its events interleave: if the decoder de-interleaves every
      window it is given, and what the demodulator delivers was time-interleaved by the transmitter, then the window
      reported at event j, once the gate is open, holds logical frames. */
  lemma RunGivesFrames<T>(u: Setup, l: Time.Layout, a: Snapshot<T>, events: seq<Event<T>>, j: nat, s: Story<T>,
                          frame: (int, nat) -> T, i: nat)
    requires Matches(u.z, l) && a.at.units == StartUnits(u.z) && a.at.samples.demodIdle && i < l.numberOfCif
    requires |a.symbols| == l.UnitsBack() * l.UnitSize() && Decodes(u, l, a, events) && j < |events|
    requires events[j].DatadecoderProcess? && CanHappen(u, Played(u, a, events[..j]).at, events[j])
    requires s == Told(u, a, Story(a.symbols, l.UnitsBack(), 0), events[..j])
    requires s.decoded * l.numberOfCif >= 16 && Msc.TimeInterleaved(l, s.raw, s.units, frame)
    ensures HoldsFrame(l, events[j].window, i, s.decoded * l.numberOfCif + i + 1, frame)
  {
    StartFollows(u, l, a);
    DecodesPrefix(u, l, a, events, j);
    hide *;
    RunFollows(u, l, a, Story(a.symbols, l.UnitsBack(), 0), events[..j]);
    WindowGivesFrames(u, l, Played(u, a, events[..j]), s, events[j], frame, i);
  }

  lemma DecodesPrefix<T>(u: Setup, l: Time.Layout, a: Snapshot<T>, events: seq<Event<T>>, j: nat)
    requires l.Valid() && Decodes(u, l, a, events) && j < |events|
    ensures Decodes(u, l, a, events[..j]) && Deinterleaves(l, Played(u, a, events[..j]), events[j])
  {
    hide Deinterleaves, Played;
    forall k | 0 <= k < j
      ensures Deinterleaves(l, Played(u, a, events[..j][..k]), events[..j][k])
    {
      assert events[..j][..k] == events[..k];
    }
  }
}

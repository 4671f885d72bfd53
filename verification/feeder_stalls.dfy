/** Two runs from a clean start in transmission mode I that leave the feeder stuck. */
module FeederStalls {
  import opened SamplePositions
  import opened UnitPositions
  import opened PlayRuns

  const BLOCK: nat := 262144

  /** Transmission mode I with ten frames' worth of buffer. */
  function ModeI(unit: nat, unitsForRead: nat): Setup {
    var window := unit * unitsForRead;
    Setup(Layout(1966080, BLOCK, ModeParameters(2656, 196608), window), UnitLayout(unit, window, 4 * window))
  }

  /** What the workers hand in during one round. */
  datatype Round<T> = Round(block: seq<T>, unit: seq<T>, window: seq<T>) {

    ghost predicate Fits(u: Setup) {
      |block| == u.l.block && |unit| == u.z.unit && |window| == u.z.window
    }
  }

  /** No frame found, every NULL symbol displaced; or every frame found, the NULL symbol in its place in mid-window. */
  datatype Reception = Displaced | Nominal {

    function Quality(): NullQuality { if Displaced? then NullShift else NullOk }

    /** Rounds until the feeder is stuck. */
    function Length(): nat { if Displaced? then 12 else 13 }

    /** The round, if any, in which the feeder still waits for its last block. */
    function Refused(): nat { if Displaced? then 12 else 7 }
  }

  /** The feeder stores a block, the loop notices it, and every worker that has something to report does so at once. */
  function EventsOf<T>(r: Reception, d: Round<T>): seq<Event<T>> {
    [FeederTurn(d.block, true), DataFeederProcess, SynchronizerProcess(r.Quality(), 1328), DemodulatorProcess(d.unit),
     DatadecoderProcess(d.window)]
  }

  function AllEvents<T>(r: Reception, rounds: seq<Round<T>>): seq<Event<T>> {
    if rounds == [] then [] else AllEvents(r, rounds[..|rounds| - 1]) + EventsOf(r, rounds[|rounds| - 1])
  }

  function Joined<T>(r: Reception, rounds: seq<Round<T>>): seq<T> {
    if rounds == [] then [] else
      var n := |rounds| - 1;
      Joined(r, rounds[..n]) + if n == r.Refused() then [] else rounds[n].block
  }

  /** Mode I with a sub-channel of fifteen symbols to a CIF. */
  ghost predicate Fifteen(u: Setup) {
    && u.l.size == 1966080 && u.l.block == 262144 && u.l.mode.nullSize == 2656 && u.l.mode.frameSize == 196608
    && u.l.frame == 967680 && u.z.unit == 193536 && u.z.window == 967680 && u.z.size == 3870720
  }

  /** The places after one round: the feeder and the synchroniser, then the demodulator, then the decoder. */
  function RoundOf(u: Setup, r: Reception, s: Spots): Spots {
    Decoded(u, Demodulated(u, s.(samples := Synchronized(u, r, s.samples, s.units.blocked))))
  }

  function Synchronized(u: Setup, r: Reception, p: Place, blocked: bool): Place {
    var q := p.Fed(true).DataFeederHandled(u.l);
    if q.syncIdle then q else q.SynchronizerHandled(u.l, r.Quality(), 1328).FrameHandedOver(u.l, blocked)
  }

  function Demodulated(u: Setup, s: Spots): Spots {
    var n := s.units.UnitHandled(u.z);
    if s.samples.demodIdle then s
    else Spots(s.samples.DemodulatorHandled(u.l).FrameHandedOver(u.l, n.blocked), n.DecoderResumed(u.z))
  }

  function Decoded(u: Setup, s: Spots): Spots {
    var n := s.units.WindowHandled(u.z);
    if s.units.idle then s else Spots(s.samples.FrameHandedOver(u.l, n.blocked), n.DecoderResumed(u.z))
  }

  lemma RoundPlayed<T>(u: Setup, r: Reception, a: Snapshot<T>, d: Round<T>)
    requires d.Fits(u) && u.l.mode == ModeParameters(2656, 196608)
    ensures Played(u, a, EventsOf(r, d)).at == RoundOf(u, r, a.at)
    ensures Played(u, a, EventsOf(r, d)).samples == a.samples + if a.at.samples.stored then [] else d.block
  {
    var e := EventsOf(r, d);
    var b := Turn(u, a, e[0]);
    var c := Turn(u, b, e[1]);
    var f := Turn(u, c, e[2]);
    var g := Turn(u, f, e[3]);
    FiveTurns(u, a, e[0], e[1], e[2], e[3], e[4]);
    assert e == [e[0], e[1], e[2], e[3], e[4]];
    hide Played, Place.Released, Place.FrameHandedOver, Place.SyncResumed, UnitPlace.Released;
  }

  lemma FiveTurns<T>(u: Setup, a: Snapshot<T>, e0: Event<T>, e1: Event<T>, e2: Event<T>, e3: Event<T>, e4: Event<T>)
    ensures Played(u, a, [e0, e1, e2, e3, e4]) == Turn(u, Turn(u, Turn(u, Turn(u, Turn(u, a, e0), e1), e2), e3), e4)
  {
    hide Turn;
    var e := [e0, e1, e2, e3, e4];
    assert Played(u, a, e[..0]) == a;
    hide Played;
    PlayedOne(u, a, e, 0);
    PlayedOne(u, a, e, 1);
    PlayedOne(u, a, e, 2);
    PlayedOne(u, a, e, 3);
    PlayedOne(u, a, e, 4);
    assert e[..5] == e;
  }

  lemma PlayedOne<T>(u: Setup, a: Snapshot<T>, events: seq<Event<T>>, k: nat)
    requires k < |events|
    ensures Played(u, a, events[..k + 1]) == Turn(u, Played(u, a, events[..k]), events[k])
  {
    assert events[..k + 1][..k] == events[..k];
  }

  /** The places after so many rounds without frames. */
  function DisplacedSpots(z: UnitLayout, rounds: nat): Spots
    requires rounds <= 12
  {
    var sync := [0, 0, 1, 1, 2, 3, 3, 4, 5, 5, 6, 7, 7][rounds] * 393216;
    var held := if rounds == 12 then BLOCK else 0;
    Spots(Place(if rounds < 7 then 0 else 1179648, rounds * BLOCK - held, sync, 1966080, [], rounds * BLOCK,
                rounds == 12, true, true), StartUnits(z))
  }

  lemma DisplacedRound(u: Setup, rounds: nat)
    requires u.l == Layout(1966080, BLOCK, ModeParameters(2656, 196608), u.l.frame) && rounds < 12
    ensures RoundOf(u, Displaced, DisplacedSpots(u.z, rounds)) == DisplacedSpots(u.z, rounds + 1)
    ensures DisplacedSpots(u.z, rounds).samples.stored <==> rounds == 12
  {}

  // --- nominal reception, round by round ---

  function Nominal0(): Spots {
    Spots(Place(0, 0, 0, 1966080, [], 0, false, true, true),
          UnitPlace(0, 774144, 0, 0, false, true))
  }

  function Nominal1(): Spots {
    Spots(Place(0, 262144, 0, 1966080, [], 262144, false, true, true),
          UnitPlace(0, 774144, 0, 0, false, true))
  }

  function Nominal2(): Spots {
    Spots(Place(0, 524288, 393216, 1966080, [7968], 524288, false, true, true),
          UnitPlace(0, 774144, 0, 0, false, true))
  }

  function Nominal3(): Spots {
    Spots(Place(0, 786432, 393216, 1966080, [7968], 786432, false, true, true),
          UnitPlace(0, 774144, 0, 0, false, true))
  }

  function Nominal4(): Spots {
    Spots(Place(0, 1048576, 786432, 1966080, [401184], 1048576, false, true, true),
          UnitPlace(0, 967680, 193536, 967680, false, true))
  }

  function Nominal5(): Spots {
    Spots(Place(0, 1310720, 1179648, 1966080, [401184, 794400], 1310720, false, true, true),
          UnitPlace(0, 967680, 193536, 967680, false, true))
  }

  function Nominal6(): Spots {
    Spots(Place(0, 1572864, 1179648, 1966080, [401184, 794400], 1572864, false, true, true),
          UnitPlace(0, 967680, 193536, 967680, false, true))
  }

  function Nominal7(): Spots {
    Spots(Place(0, 1572864, 1572864, 794400, [1187616], 1835008, true, true, false),
          UnitPlace(0, 1161216, 387072, 1161216, false, true))
  }

  function Nominal8(): Spots {
    Spots(Place(1187616, 1835008, 1572864, 1966080, [1187616], 1835008, false, true, true),
          UnitPlace(0, 1354752, 580608, 1354752, false, true))
  }

  function Nominal9(): Spots {
    Spots(Place(1187616, 2097152, 1966080, 1966080, [1187616, 1580832], 2097152, false, true, true),
          UnitPlace(0, 1354752, 580608, 1354752, false, true))
  }

  function Nominal10(): Spots {
    Spots(Place(1187616, 2359296, 1966080, 1966080, [1187616, 1580832], 2359296, false, true, true),
          UnitPlace(0, 1354752, 580608, 1354752, false, true))
  }

  function Nominal11(): Spots {
    Spots(Place(1187616, 2621440, 2359296, 1580832, [1974048], 2621440, false, true, false),
          UnitPlace(0, 1548288, 774144, 1548288, false, true))
  }

  function Nominal12(): Spots {
    Spots(Place(1187616, 2883584, 2752512, 3153696, [1974048, 2367264], 2883584, false, true, true),
          UnitPlace(0, 1741824, 967680, 1741824, false, true))
  }

  function Nominal13(): Spots {
    Spots(Place(1187616, 2883584, 2752512, 3153696, [1974048, 2367264], 3145728, true, true, true),
          UnitPlace(0, 1741824, 967680, 1741824, false, true))
  }

  lemma NominalRound0(u: Setup, s: Spots)
    requires Fifteen(u) && s == Nominal0()
    ensures RoundOf(u, Nominal, s) == Nominal1() && !s.samples.stored
  {}

  lemma NominalRound1(u: Setup, s: Spots)
    requires Fifteen(u) && s == Nominal1()
    ensures RoundOf(u, Nominal, s) == Nominal2() && !s.samples.stored
  {
    NominalFrame1(u, s.samples);
    hide Synchronized;
    NominalUnit1(u, s.(samples := Synchronized(u, Nominal, s.samples, false)));
    hide Demodulated, Decoded;
  }

  lemma NominalFrame1(u: Setup, p: Place)
    requires Fifteen(u) && p == Place(0, 262144, 0, 1966080, [], 262144, false, true, true)
    ensures Synchronized(u, Nominal, p, false) == Place(0, 524288, 393216, 1966080, [7968], 524288, false, true, true)
  {
    Appended(p.queue, 7968);
  }

  lemma NominalUnit1(u: Setup, s: Spots)
    requires Fifteen(u) && s == Nominal2()
    ensures Decoded(u, Demodulated(u, s)) == Nominal2()
  {}

  lemma NominalRound2(u: Setup, s: Spots)
    requires Fifteen(u) && s == Nominal2()
    ensures RoundOf(u, Nominal, s) == Nominal3() && !s.samples.stored
  {}

  lemma NominalRound3(u: Setup, s: Spots)
    requires Fifteen(u) && s == Nominal3()
    ensures RoundOf(u, Nominal, s) == Nominal4() && !s.samples.stored
  {
    NominalFrame3(u, s.samples);
    hide Synchronized;
    NominalUnit3(u, s.(samples := Synchronized(u, Nominal, s.samples, false)));
    hide Demodulated, Decoded;
  }

  lemma NominalFrame3(u: Setup, p: Place)
    requires Fifteen(u) && p == Place(0, 786432, 393216, 1966080, [7968], 786432, false, true, true)
    ensures Synchronized(u, Nominal, p, false) == Place(0, 1048576, 786432, 7968, [401184], 1048576, false, true, false)
  {
    assert [7968] + [401184] == [7968, 401184];
    assert [7968, 401184][1..] == [401184];
  }

  lemma NominalUnit3(u: Setup, s: Spots)
    requires Fifteen(u)
    requires s == Spots(Place(0, 1048576, 786432, 7968, [401184], 1048576, false, true, false),
                        UnitPlace(0, 774144, 0, 0, false, true))
    ensures Decoded(u, Demodulated(u, s)) == Nominal4()
  {}

  lemma NominalRound4(u: Setup, s: Spots)
    requires Fifteen(u) && s == Nominal4()
    ensures RoundOf(u, Nominal, s) == Nominal5() && !s.samples.stored
  {
    NominalFrame4(u, s.samples);
    hide Synchronized;
    NominalUnit4(u, s.(samples := Synchronized(u, Nominal, s.samples, false)));
    hide Demodulated, Decoded;
  }

  lemma NominalFrame4(u: Setup, p: Place)
    requires Fifteen(u) && p == Place(0, 1048576, 786432, 1966080, [401184], 1048576, false, true, true)
    ensures Synchronized(u, Nominal, p, false) ==
              Place(0, 1310720, 1179648, 1966080, [401184, 794400], 1310720, false, true, true)
  {
    assert [401184] + [794400] == [401184, 794400];
  }

  lemma NominalUnit4(u: Setup, s: Spots)
    requires Fifteen(u) && s == Nominal5()
    ensures Decoded(u, Demodulated(u, s)) == Nominal5()
  {}

  lemma NominalRound5(u: Setup, s: Spots)
    requires Fifteen(u) && s == Nominal5()
    ensures RoundOf(u, Nominal, s) == Nominal6() && !s.samples.stored
  {}

  lemma NominalRound6(u: Setup, s: Spots)
    requires Fifteen(u) && s == Nominal6()
    ensures RoundOf(u, Nominal, s) == Nominal7() && !s.samples.stored
  {
    NominalFrame6(u, s.samples);
    hide Synchronized;
    NominalUnit6(u, s.(samples := Synchronized(u, Nominal, s.samples, false)));
    hide Demodulated, Decoded;
  }

  lemma NominalFrame6(u: Setup, p: Place)
    requires Fifteen(u) && p == Place(0, 1572864, 1179648, 1966080, [401184, 794400], 1572864, false, true, true)
    ensures Synchronized(u, Nominal, p, false) ==
              Place(0, 1572864, 1572864, 401184, [794400, 1187616], 1835008, true, true, false)
  {
    Handed([401184, 794400], 1187616);
  }

  lemma NominalUnit6(u: Setup, s: Spots)
    requires Fifteen(u)
    requires s == Spots(Place(0, 1572864, 1572864, 401184, [794400, 1187616], 1835008, true, true, false),
                        UnitPlace(0, 967680, 193536, 967680, false, true))
    ensures Decoded(u, Demodulated(u, s)) == Nominal7()
  {
    assert [794400, 1187616][1..] == [1187616];
  }

  lemma NominalRound7(u: Setup, s: Spots)
    requires Fifteen(u) && s == Nominal7()
    ensures RoundOf(u, Nominal, s) == Nominal8() && s.samples.stored
  {
    NominalFrame7(u, s.samples);
    hide Synchronized;
    NominalUnit7(u, s.(samples := Synchronized(u, Nominal, s.samples, false)));
    hide Demodulated, Decoded;
  }

  lemma NominalFrame7(u: Setup, p: Place)
    requires Fifteen(u) && p == Place(0, 1572864, 1572864, 794400, [1187616], 1835008, true, true, false)
    ensures Synchronized(u, Nominal, p, false) ==
              Place(0, 1572864, 1572864, 794400, [1187616], 1835008, true, true, false)
  {}

  lemma NominalUnit7(u: Setup, s: Spots)
    requires Fifteen(u) && s == Nominal7()
    ensures Decoded(u, Demodulated(u, s)) == Nominal8()
  {}

  lemma NominalRound8(u: Setup, s: Spots)
    requires Fifteen(u) && s == Nominal8()
    ensures RoundOf(u, Nominal, s) == Nominal9() && !s.samples.stored
  {
    NominalFrame8(u, s.samples);
    hide Synchronized;
    NominalUnit8(u, s.(samples := Synchronized(u, Nominal, s.samples, false)));
    hide Demodulated, Decoded;
  }

  lemma NominalFrame8(u: Setup, p: Place)
    requires Fifteen(u) && p == Place(1187616, 1835008, 1572864, 1966080, [1187616], 1835008, false, true, true)
    ensures Synchronized(u, Nominal, p, false) ==
              Place(1187616, 2097152, 1966080, 1966080, [1187616, 1580832], 2097152, false, true, true)
  {
    assert [1187616] + [1580832] == [1187616, 1580832];
  }

  lemma NominalUnit8(u: Setup, s: Spots)
    requires Fifteen(u) && s == Nominal9()
    ensures Decoded(u, Demodulated(u, s)) == Nominal9()
  {}

  lemma NominalRound9(u: Setup, s: Spots)
    requires Fifteen(u) && s == Nominal9()
    ensures RoundOf(u, Nominal, s) == Nominal10() && !s.samples.stored
  {}

  lemma NominalRound10(u: Setup, s: Spots)
    requires Fifteen(u) && s == Nominal10()
    ensures RoundOf(u, Nominal, s) == Nominal11() && !s.samples.stored
  {
    NominalFrame10(u, s.samples);
    hide Synchronized;
    NominalUnit10(u, s.(samples := Synchronized(u, Nominal, s.samples, false)));
    hide Demodulated, Decoded;
  }

  lemma NominalFrame10(u: Setup, p: Place)
    requires Fifteen(u) &&
              p == Place(1187616, 2359296, 1966080, 1966080, [1187616, 1580832], 2359296, false, true, true)
    ensures Synchronized(u, Nominal, p, false) ==
              Place(1187616, 2621440, 2359296, 1187616, [1580832, 1974048], 2621440, false, true, false)
  {
    Handed([1187616, 1580832], 1974048);
  }

  lemma NominalUnit10(u: Setup, s: Spots)
    requires Fifteen(u) &&
              s == Spots(Place(1187616, 2621440, 2359296, 1187616, [1580832, 1974048], 2621440, false, true, false),
                         UnitPlace(0, 1354752, 580608, 1354752, false, true))
    ensures Decoded(u, Demodulated(u, s)) == Nominal11()
  {
    assert [1580832, 1974048][1..] == [1974048];
  }

  lemma NominalRound11(u: Setup, s: Spots)
    requires Fifteen(u) && s == Nominal11()
    ensures RoundOf(u, Nominal, s) == Nominal12() && !s.samples.stored
  {
    NominalFrame11(u, s.samples);
    hide Synchronized;
    NominalUnit11(u, s.(samples := Synchronized(u, Nominal, s.samples, false)));
    hide Demodulated, Decoded;
  }

  lemma NominalFrame11(u: Setup, p: Place)
    requires Fifteen(u) && p == Place(1187616, 2621440, 2359296, 1580832, [1974048], 2621440, false, true, false)
    ensures Synchronized(u, Nominal, p, false) ==
              Place(1187616, 2883584, 2752512, 1580832, [1974048, 2367264], 2883584, false, true, false)
  {
    assert [1974048] + [2367264] == [1974048, 2367264];
  }

  lemma NominalUnit11(u: Setup, s: Spots)
    requires Fifteen(u) &&
              s == Spots(Place(1187616, 2883584, 2752512, 1580832, [1974048, 2367264], 2883584, false, true, false),
                         UnitPlace(0, 1548288, 774144, 1548288, false, true))
    ensures Decoded(u, Demodulated(u, s)) == Nominal12()
  {}

  lemma NominalRound12(u: Setup, s: Spots)
    requires Fifteen(u) && s == Nominal12()
    ensures RoundOf(u, Nominal, s) == Nominal13() && !s.samples.stored
  {}

  lemma Appended(q: seq<int>, x: int)
    requires q == []
    ensures q + [x] == [x]
  {}

  lemma Handed(q: seq<int>, x: int)
    requires |q| == 2
    ensures (q + [x])[0] == q[0] && (q + [x])[1..] == [q[1], x]
  {}

  // --- the two runs ---

  ghost function SpotsAfter(u: Setup, r: Reception, rounds: nat): Spots {
    if rounds == 0 then Spots(Start(u.l), StartUnits(u.z)) else RoundOf(u, r, SpotsAfter(u, r, rounds - 1))
  }

  lemma SpotsNext(u: Setup, r: Reception, rounds: nat)
    ensures SpotsAfter(u, r, rounds + 1) == RoundOf(u, r, SpotsAfter(u, r, rounds))
  {}

  /** The feeder waits only in the round named, and is stuck in the end. */
  ghost predicate Stalls(u: Setup, r: Reception) {
    && (forall k: nat :: k < r.Length() ==> (SpotsAfter(u, r, k).samples.stored <==> k == r.Refused()))
    && Stuck(u, SpotsAfter(u, r, r.Length()))
    && (r == Nominal ==> SpotsAfter(u, r, r.Length()).samples.FrameReady(u.l))
  }

  lemma {:induction false} DisplacedSpotsAfter(u: Setup, rounds: nat)
    requires u.l == Layout(1966080, BLOCK, ModeParameters(2656, 196608), u.l.frame) && rounds <= 12
    ensures SpotsAfter(u, Displaced, rounds) == DisplacedSpots(u.z, rounds)
  {
    hide RoundOf, DisplacedSpots, SpotsAfter;
    if rounds == 0 {
      DisplacedStart(u, rounds);
    } else {
      DisplacedSpotsAfter(u, rounds - 1);
      DisplacedRound(u, rounds - 1);
      SpotsNext(u, Displaced, rounds - 1);
    }
  }

  lemma DisplacedStart(u: Setup, rounds: nat)
    requires u.l.size == 1966080 && rounds == 0
    ensures SpotsAfter(u, Displaced, rounds) == DisplacedSpots(u.z, rounds)
  {}

  lemma DisplacedStalls(u: Setup)
    requires u.l == Layout(1966080, BLOCK, ModeParameters(2656, 196608), u.l.frame)
    ensures Stalls(u, Displaced)
  {
    hide SpotsAfter, RoundOf;
    forall k: nat | k <= 12
      ensures SpotsAfter(u, Displaced, k) == DisplacedSpots(u.z, k)
    {
      DisplacedSpotsAfter(u, k);
    }
  }

  function NominalAt(rounds: nat): Spots
    requires rounds <= 13
  {
    match rounds
    case 0 => Nominal0()
    case 1 => Nominal1()
    case 2 => Nominal2()
    case 3 => Nominal3()
    case 4 => Nominal4()
    case 5 => Nominal5()
    case 6 => Nominal6()
    case 7 => Nominal7()
    case 8 => Nominal8()
    case 9 => Nominal9()
    case 10 => Nominal10()
    case 11 => Nominal11()
    case 12 => Nominal12()
    case _ => Nominal13()
  }

  lemma NominalRoundAt(u: Setup, rounds: nat)
    requires Fifteen(u) && rounds < 13
    ensures RoundOf(u, Nominal, NominalAt(rounds)) == NominalAt(rounds + 1)
    ensures NominalAt(rounds).samples.stored <==> rounds == 7
  {
    hide RoundOf, Fifteen, Nominal0, Nominal1, Nominal2, Nominal3, Nominal4, Nominal5, Nominal6;
    hide Nominal7, Nominal8, Nominal9, Nominal10, Nominal11, Nominal12, Nominal13;
    match rounds
    case 0 => NominalRound0(u, NominalAt(rounds));
    case 1 => NominalRound1(u, NominalAt(rounds));
    case 2 => NominalRound2(u, NominalAt(rounds));
    case 3 => NominalRound3(u, NominalAt(rounds));
    case 4 => NominalRound4(u, NominalAt(rounds));
    case 5 => NominalRound5(u, NominalAt(rounds));
    case 6 => NominalRound6(u, NominalAt(rounds));
    case 7 => NominalRound7(u, NominalAt(rounds));
    case 8 => NominalRound8(u, NominalAt(rounds));
    case 9 => NominalRound9(u, NominalAt(rounds));
    case 10 => NominalRound10(u, NominalAt(rounds));
    case 11 => NominalRound11(u, NominalAt(rounds));
    case _ => NominalRound12(u, NominalAt(rounds));
  }

  lemma {:induction false} NominalSpotsAfter(u: Setup, rounds: nat)
    requires Fifteen(u) && rounds <= 13
    ensures SpotsAfter(u, Nominal, rounds) == NominalAt(rounds)
  {
    if rounds == 0 {
      NominalStart(u, rounds);
    } else {
      hide RoundOf, SpotsAfter, NominalAt, Fifteen;
      NominalSpotsAfter(u, rounds - 1);
      NominalRoundAt(u, rounds - 1);
      SpotsNext(u, Nominal, rounds - 1);
    }
  }

  lemma NominalStart(u: Setup, rounds: nat)
    requires Fifteen(u) && rounds == 0
    ensures SpotsAfter(u, Nominal, rounds) == NominalAt(rounds)
  {}

  lemma NominalStuck(u: Setup, rounds: nat)
    requires Fifteen(u) && rounds == 13
    ensures Stuck(u, NominalAt(rounds)) && NominalAt(rounds).samples.FrameReady(u.l)
  {
    assert NominalAt(rounds) == Nominal13();
  }

  lemma NominalStalls(u: Setup)
    requires Fifteen(u)
    ensures Stalls(u, Nominal)
  {
    hide SpotsAfter, NominalAt, Fifteen, Stuck, Place.FrameReady;
    forall k: nat | k < 13
      ensures SpotsAfter(u, Nominal, k).samples.stored <==> k == 7
    {
      NominalSpotsAfter(u, k);
      NominalRoundAt(u, k);
    }
    NominalSpotsAfter(u, 13);
    NominalStuck(u, 13);
  }

  lemma BothStall(u: Setup, r: Reception, unit: nat, unitsForRead: nat)
    requires u == ModeI(unit, unitsForRead) && (r == Nominal ==> unit == 193536 && unitsForRead == 5)
    ensures Stalls(u, r)
  {
    if r == Displaced {
      DisplacedStalls(u);
    } else {
      NominalStalls(u);
    }
  }

  lemma {:induction false} JoinedSize<T>(u: Setup, r: Reception, rounds: seq<Round<T>>)
    requires u.l.block == BLOCK && forall k :: 0 <= k < |rounds| ==> rounds[k].Fits(u)
    ensures |Joined(r, rounds)| == (|rounds| - if |rounds| > r.Refused() then 1 else 0) * BLOCK
  {
    if rounds != [] {
      JoinedSize(u, r, rounds[..|rounds| - 1]);
    }
  }

  lemma JoinedLength<T>(u: Setup, r: Reception, rounds: seq<Round<T>>)
    requires u.l.block == BLOCK && (forall k :: 0 <= k < |rounds| ==> rounds[k].Fits(u)) && |rounds| == r.Length()
    ensures |Joined(r, rounds)| == 12 * BLOCK
  {
    JoinedSize(u, r, rounds);
  }

  lemma NothingPlayed<T>(u: Setup, r: Reception, a: Snapshot<T>, rounds: seq<Round<T>>)
    requires rounds == []
    ensures Played(u, a, AllEvents(r, rounds)) == a && Joined(r, rounds) == []
  {}

  lemma LastRound<T>(r: Reception, rounds: seq<Round<T>>)
    requires rounds != []
    ensures var n := |rounds| - 1;
            && AllEvents(r, rounds) == AllEvents(r, rounds[..n]) + EventsOf(r, rounds[n])
            && Joined(r, rounds) == Joined(r, rounds[..n]) + if n == r.Refused() then [] else rounds[n].block
  {}

  lemma StoredAt(u: Setup, r: Reception, k: nat)
    requires Stalls(u, r) && k < r.Length()
    ensures SpotsAfter(u, r, k).samples.stored <==> k == r.Refused()
  {
    hide SpotsAfter, Stuck;
  }

  lemma {:induction false} RoundsPlayed<T>(u: Setup, r: Reception, a: Snapshot<T>, rounds: seq<Round<T>>)
    requires u.l.mode == ModeParameters(2656, 196608) && Stalls(u, r) && |rounds| <= r.Length()
    requires (forall k :: 0 <= k < |rounds| ==> rounds[k].Fits(u)) && a.at == SpotsAfter(u, r, 0) && a.samples == []
    ensures Played(u, a, AllEvents(r, rounds)).at == SpotsAfter(u, r, |rounds|)
    ensures Played(u, a, AllEvents(r, rounds)).samples == Joined(r, rounds)
  {
    hide Stalls, SpotsAfter, RoundOf, EventsOf, AllEvents, Joined, Played, Round.Fits;
    if rounds == [] {
      NothingPlayed(u, r, a, rounds);
    } else {
      var n := |rounds| - 1;
      RoundsPlayed(u, r, a, rounds[..n]);
      LastRound(r, rounds);
      PlayedOn(u, a, AllEvents(r, rounds[..n]), EventsOf(r, rounds[n]));
      RoundPlayed(u, r, Played(u, a, AllEvents(r, rounds[..n])), rounds[n]);
      SpotsNext(u, r, n);
      StoredAt(u, r, n);
    }
  }

  /** Both runs, whatever follows, store no more. With every NULL symbol displaced no frame is found; in nominal
      reception one is ready, but the synchroniser waits for samples that find no room. */
  lemma FeederStops<T>(u: Setup, r: Reception, a: Snapshot<T>, rounds: seq<Round<T>>, more: seq<Event<T>>)
    requires u.l.mode == ModeParameters(2656, 196608) && Stalls(u, r) && |rounds| == r.Length()
    requires (forall k :: 0 <= k < |rounds| ==> rounds[k].Fits(u)) && a.at == SpotsAfter(u, r, 0) && a.samples == []
    ensures var b := Played(u, a, AllEvents(r, rounds) + more);
            Stuck(u, b.at) && b.samples == Joined(r, rounds) && (r == Nominal ==> b.at.samples.FrameReady(u.l))
  {
    RoundsPlayed(u, r, a, rounds);
    PlayedOn(u, a, AllEvents(r, rounds), more);
    hide Played, RoundOf, SpotsAfter;
    StuckForGood(u, Played(u, a, AllEvents(r, rounds)), more);
  }
}

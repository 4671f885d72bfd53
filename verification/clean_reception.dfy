/** Reception with little noise: the bits decoded are the bits sent, whatever state the search picks. */
module CleanReception {
  import opened Division
  import opened Trellis
  import opened MotherCode
  import opened CodeDistances
  import D = DeViterbi
  import Galois

  ghost predicate Proper(p: Path) {
    p.start < 64 && Bits(p.bits)
  }

  /** The state of a path after t steps, and what it has gathered. */
  function StateAt(p: Path, t: nat): nat
    requires t <= |p.bits|
  {
    End(p.start, p.bits[..t])
  }

  function MetricAt(y: seq<int>, p: Path, t: nat): int
    requires |y| >= 4 && t <= |p.bits|
  {
    PathMetric(y, p.start, p.bits[..t])
  }

  function Apartness(p: Path, q: Path, t: nat): Register
    requires t <= |p.bits| && t <= |q.bits|
  {
    Difference(StateAt(p, t), StateAt(q, t))
  }

  /** Code bits in which two paths differ in their first t steps. */
  function Distance(p: Path, q: Path, t: nat): nat
    requires t <= |p.bits| && t <= |q.bits|
  {
    if t == 0 then 0
    else Distance(p, q, t - 1) + Weight(Apartness(p, q, t - 1), p.bits[t - 1] != q.bits[t - 1])
  }

  function Abs(x: int): nat { if x < 0 then -x else x }

  /** How far value k of step t is from the code bit of the path, sent with the given strength. */
  function ValueNoise(y: seq<int>, a: nat, p: Path, t: nat, k: nat): nat
    requires |y| >= 4 && t < |p.bits| && k < 4
  {
    Abs(Received(y, t, k) - Correlate(k, p.bits[t], StateAt(p, t), a))
  }

  function StepNoise(y: seq<int>, a: nat, p: Path, t: nat): nat
    requires |y| >= 4 && t < |p.bits|
  {
    ValueNoise(y, a, p, t, 0) + ValueNoise(y, a, p, t, 1) + ValueNoise(y, a, p, t, 2) + ValueNoise(y, a, p, t, 3)
  }

  function Noise(y: seq<int>, a: nat, p: Path, t: nat): nat
    requires |y| >= 4 && t <= |p.bits|
  {
    if t == 0 then 0 else Noise(y, a, p, t - 1) + StepNoise(y, a, p, t - 1)
  }

  lemma StateInRange(p: Path, t: nat)
    requires Proper(p) && t <= |p.bits|
    ensures StateAt(p, t) < 64
  {
    EndInRange(p.start, p.bits[..t]);
  }

  lemma PathStep(y: seq<int>, p: Path, t: nat)
    requires |y| >= 4 && t < |p.bits|
    ensures StateAt(p, t + 1) == Next(StateAt(p, t), p.bits[t])
    ensures MetricAt(y, p, t + 1) == MetricAt(y, p, t) + Branch(y, t, p.bits[t], StateAt(p, t))
  {
    hide Next, Branch;
    assert p.bits[..t + 1][..t] == p.bits[..t];
  }

  lemma ApartnessStep(p: Path, q: Path, t: nat)
    requires Proper(p) && Proper(q) && t < |p.bits| && t < |q.bits|
    ensures Apartness(p, q, t + 1) == Shifted(Apartness(p, q, t), p.bits[t] != q.bits[t])
  {
    hide StateAt, Difference, Shifted;
    PathStep([0, 0, 0, 0], p, t);
    PathStep([0, 0, 0, 0], q, t);
    StateInRange(p, t);
    StateInRange(q, t);
    NextDifference(StateAt(p, t), p.bits[t], StateAt(q, t), q.bits[t]);
  }

  // --- a path close to what was sent has the better metric ---

  /** One value: c is sent, r and q are the outputs of two other paths. */
  lemma ValueGap(v: int, a: int, n: nat, c: nat, r: nat, q: nat)
    requires c < 2 && r < 2 && q < 2 && n == Abs(v - (if c == 0 then a else 0 - a))
    ensures (if r == 0 then v else -v) - (if q == 0 then v else -v)
              >= 2 * ((if q != c then a else 0) - (if r != c then a else 0)) - 2 * n
  {}

  /** The strength of a code bit that differs. */
  function Cost(a: nat, k: nat, d: Register, e: bool): nat
    requires k < 4
  {
    if Differs(k, d, e) then a else 0
  }

  lemma OutputGap(y: seq<int>, a: nat, p: Path, t: nat, k: nat, r: Path, q: Path)
    requires |y| >= 4 && k < 4 && Proper(p) && Proper(r) && Proper(q)
    requires t < |p.bits| && t < |r.bits| && t < |q.bits|
    ensures Correlate(k, r.bits[t], StateAt(r, t), Received(y, t, k)) -
            Correlate(k, q.bits[t], StateAt(q, t), Received(y, t, k))
              >= 2 * (Cost(a, k, Apartness(p, q, t), p.bits[t] != q.bits[t]) -
                      Cost(a, k, Apartness(p, r, t), p.bits[t] != r.bits[t])) -
                 2 * ValueNoise(y, a, p, t, k)
  {
    StateInRange(p, t);
    StateInRange(q, t);
    StateInRange(r, t);
    OutputsDiffer(k, StateAt(p, t), p.bits[t], StateAt(q, t), q.bits[t]);
    OutputsDiffer(k, StateAt(p, t), p.bits[t], StateAt(r, t), r.bits[t]);
    D.MotherBitIsBit(k, p.bits[t], StateAt(p, t));
    D.MotherBitIsBit(k, q.bits[t], StateAt(q, t));
    D.MotherBitIsBit(k, r.bits[t], StateAt(r, t));
    hide StateAt, Differs, Difference, MotherBit, Received, Abs;
    ValueGap(Received(y, t, k), a, ValueNoise(y, a, p, t, k), MotherBit(k, p.bits[t], StateAt(p, t)),
             MotherBit(k, r.bits[t], StateAt(r, t)), MotherBit(k, q.bits[t], StateAt(q, t)));
  }

  lemma Weighed(a: nat, d: Register, e: bool)
    ensures a * Weight(d, e) == Cost(a, 0, d, e) + Cost(a, 1, d, e) + Cost(a, 2, d, e) + Cost(a, 3, d, e)
  {
    hide Differs;
    TimesOne(a, Differs(0, d, e));
    TimesOne(a, Differs(1, d, e));
    TimesOne(a, Differs(2, d, e));
    TimesOne(a, Differs(3, d, e));
    hide One;
  }

  lemma TimesOne(a: nat, b: bool)
    ensures a * One(b) == if b then a else 0
  {}

  lemma StepGap(y: seq<int>, a: nat, p: Path, t: nat, r: Path, q: Path)
    requires |y| >= 4 && Proper(p) && Proper(r) && Proper(q) && t < |p.bits| && t < |r.bits| && t < |q.bits|
    ensures Branch(y, t, r.bits[t], StateAt(r, t)) - Branch(y, t, q.bits[t], StateAt(q, t))
              >= 2 * (a * Weight(Apartness(p, q, t), p.bits[t] != q.bits[t]) -
                      a * Weight(Apartness(p, r, t), p.bits[t] != r.bits[t])) - 2 * StepNoise(y, a, p, t)
  {
    FourOutputs(y, a, p, t, r, q);
    hide *;
    Weighed(a, Apartness(p, q, t), p.bits[t] != q.bits[t]);
    Weighed(a, Apartness(p, r, t), p.bits[t] != r.bits[t]);
    OutputGap(y, a, p, t, 0, r, q);
    OutputGap(y, a, p, t, 1, r, q);
    OutputGap(y, a, p, t, 2, r, q);
    OutputGap(y, a, p, t, 3, r, q);
  }

  lemma FourOutputs(y: seq<int>, a: nat, p: Path, t: nat, r: Path, q: Path)
    requires |y| >= 4 && t < |p.bits| && t < |r.bits| && t < |q.bits|
    ensures StepNoise(y, a, p, t) == ValueNoise(y, a, p, t, 0) + ValueNoise(y, a, p, t, 1) +
                                     ValueNoise(y, a, p, t, 2) + ValueNoise(y, a, p, t, 3)
    ensures Branch(y, t, r.bits[t], StateAt(r, t)) ==
              Correlate(0, r.bits[t], StateAt(r, t), Received(y, t, 0)) +
              Correlate(1, r.bits[t], StateAt(r, t), Received(y, t, 1)) +
              Correlate(2, r.bits[t], StateAt(r, t), Received(y, t, 2)) +
              Correlate(3, r.bits[t], StateAt(r, t), Received(y, t, 3))
    ensures Branch(y, t, q.bits[t], StateAt(q, t)) ==
              Correlate(0, q.bits[t], StateAt(q, t), Received(y, t, 0)) +
              Correlate(1, q.bits[t], StateAt(q, t), Received(y, t, 1)) +
              Correlate(2, q.bits[t], StateAt(q, t), Received(y, t, 2)) +
              Correlate(3, q.bits[t], StateAt(q, t), Received(y, t, 3))
  {
    hide StateAt, Correlate, Received, ValueNoise;
  }

  /** The metrics of two paths differ as their distances from the path sent, but for the noise. */
  lemma {:induction false} MetricGap(y: seq<int>, a: nat, p: Path, t: nat, r: Path, q: Path)
    requires |y| >= 4 && Proper(p) && Proper(r) && Proper(q) && t <= |p.bits| && t <= |r.bits| && t <= |q.bits|
    ensures MetricAt(y, r, t) - MetricAt(y, q, t)
              >= 2 * (a * Distance(p, q, t) - a * Distance(p, r, t)) - 2 * Noise(y, a, p, t)
  {
    hide Weight, StepNoise, StateAt, Difference, MetricAt, Branch, Apartness;
    if t == 0 {
      NothingGathered(y, r);
      NothingGathered(y, q);
    } else {
      MetricGap(y, a, p, t - 1, r, q);
      StepGap(y, a, p, t - 1, r, q);
      PathStep(y, r, t - 1);
      PathStep(y, q, t - 1);
      DistanceStep(a, p, q, t - 1);
      DistanceStep(a, p, r, t - 1);
    }
  }

  lemma NothingGathered(y: seq<int>, p: Path)
    requires |y| >= 4
    ensures MetricAt(y, p, 0) == 0
  {}

  lemma DistanceStep(a: nat, p: Path, q: Path, t: nat)
    requires t < |p.bits| && t < |q.bits|
    ensures a * Distance(p, q, t + 1) ==
              a * Distance(p, q, t) + a * Weight(Apartness(p, q, t), p.bits[t] != q.bits[t])
  {
    hide Weight, Apartness;
  }

  // --- a path to any state that stays close to what was sent ---

  lemma {:induction false} OnPrefixes(p: Path, q: Path, r: Path, t: nat)
    requires t <= |p.bits| && t <= |q.bits| && t <= |r.bits| && q.start == r.start && q.bits[..t] == r.bits[..t]
    ensures StateAt(q, t) == StateAt(r, t) && Distance(p, q, t) == Distance(p, r, t)
  {
    hide Weight, Difference;
    if t > 0 {
      assert q.bits[..t - 1] == q.bits[..t][..t - 1] && r.bits[..t - 1] == r.bits[..t][..t - 1];
      assert q.bits[t - 1] == q.bits[..t][t - 1] && r.bits[t - 1] == r.bits[..t][t - 1];
      OnPrefixes(p, q, r, t - 1);
    }
  }

  /** Of the two states before f one has the wanted difference from s. */
  lemma StateBefore(s: nat, b: nat, f: nat, x: bool) returns (q: nat)
    requires s < 64 && b < 2 && f < 64
    ensures q < 64 && Next(q, f / 32) == f && f / 32 < 2
    ensures Difference(s, q) == Before(Difference(Next(s, b), f), x) && Difference(Next(s, b), f).d0 == (b != f / 32)
  {
    Enters(f);
    NextDifference(s, b, Even(f), f / 32);
    NextDifference(s, b, Odd(f), f / 32);
    LastBits(f);
    hide Next, Even, Odd, StateBit;
    q := if Difference(s, Even(f)).d5 == x then Even(f) else Odd(f);
    StateBitIsBit(s, 5);
  }

  lemma LastBits(f: nat)
    ensures StateBit(Even(f), 5) == 0 && StateBit(Odd(f), 5) == 1
  {}

  lemma {:induction false} PathTo(p: Path, t: nat, f: nat) returns (r: Path)
    requires Proper(p) && t <= |p.bits| && f < 64
    ensures Proper(r) && |r.bits| == t && StateAt(r, t) == f
    ensures Distance(p, r, t) <= Reach(Difference(StateAt(p, t), f)) <= 15
  {
    hide *;
    if t == 0 {
      r := Path(f, []);
      NoStepYet(p, r);
      ReachStep(Difference(StateAt(p, t), f));
    } else {
      var s, b := StateAt(p, t - 1), p.bits[t - 1];
      OneStepBack(p, t);
      var d := Difference(StateAt(p, t), f);
      ReachStep(d);
      var x := !(Reach(Before(d, false)) + Weight(Before(d, false), d.d0) <= Reach(d));
      var q := StateBefore(s, b, f, x);
      var r' := PathTo(p, t - 1, q);
      r := Path(r'.start, r'.bits + [f / 32]);
      LongerBy(p, r', r, t, f / 32);
    }
  }

  lemma NoStepYet(p: Path, r: Path)
    requires r.bits == [] && r.start < 64
    ensures Proper(r) && StateAt(r, 0) == r.start && Distance(p, r, 0) == 0
  {}

  lemma OneStepBack(p: Path, t: nat)
    requires Proper(p) && 0 < t <= |p.bits|
    ensures StateAt(p, t - 1) < 64 && p.bits[t - 1] < 2 && StateAt(p, t) == Next(StateAt(p, t - 1), p.bits[t - 1])
  {
    hide StateAt, Next;
    StateInRange(p, t - 1);
    PathStep([0, 0, 0, 0], p, t - 1);
  }

  /** One step more. */
  lemma LongerBy(p: Path, r: Path, r': Path, t: nat, c: nat)
    requires 0 < t <= |p.bits| && Proper(r) && |r.bits| == t - 1 && r' == Path(r.start, r.bits + [c]) && c < 2
    ensures Proper(r') && |r'.bits| == t && StateAt(r', t) == Next(StateAt(r, t - 1), c)
    ensures Distance(p, r', t) ==
              Distance(p, r, t - 1) + Weight(Difference(StateAt(p, t - 1), StateAt(r, t - 1)), p.bits[t - 1] != c)
  {
    hide Weight, Difference, Next;
    assert r'.bits[..t - 1] == r.bits[..t - 1];
    OnPrefixes(p, r', r, t - 1);
    PathStep([0, 0, 0, 0], r', t - 1);
    hide StateAt;
  }

  // --- a path with another bit stays apart, or has differed in many code bits when it comes back ---

  lemma {:induction false} ApartOrBack(p: Path, q: Path, u: nat, j: nat) returns (m: nat)
    requires Proper(p) && Proper(q) && u + 1 + j <= |p.bits| && u + 1 + j <= |q.bits| && p.bits[u] != q.bits[u]
    ensures m == 0 ==> Apartness(p, q, u + 1 + j) != SAME && StaysApart(p, q, u + 1 + j, j)
    ensures m > 0 ==> u < m <= u + 1 + j && Apartness(p, q, m) == SAME && Distance(p, q, m) >= 10
  {
    hide *;
    if j == 0 {
      BitDiffers(p, q, u);
      m := 0;
    } else {
      m := ApartOrBack(p, q, u, j - 1);
      if m == 0 {
        StillApart(p, q, u + j, j - 1);
        if Apartness(p, q, u + 1 + j) == SAME {
          m := u + 1 + j;
        }
      }
    }
  }

  ghost predicate StaysApart(p: Path, q: Path, t: nat, j: nat)
    requires t <= |p.bits| && t <= |q.bits|
  {
    && Distance(p, q, t) + Leave(Apartness(p, q, t)) >= 10
    && 4 * Distance(p, q, t) >= 3 * j + Apart(Apartness(p, q, t))
  }

  lemma BitDiffers(p: Path, q: Path, u: nat)
    requires Proper(p) && Proper(q) && u < |p.bits| && u < |q.bits| && p.bits[u] != q.bits[u]
    ensures Apartness(p, q, u + 1) != SAME && StaysApart(p, q, u + 1, 0)
  {
    hide Apartness, Leave, Apart, Distance;
    ApartnessStep(p, q, u);
    var d := Apartness(p, q, u + 1);
    assert d.d0;
    LeaveStep(d, false);
    ApartAtFirst(d);
  }

  lemma StillApart(p: Path, q: Path, t: nat, j: nat)
    requires Proper(p) && Proper(q) && t < |p.bits| && t < |q.bits| && Apartness(p, q, t) != SAME
    requires StaysApart(p, q, t, j)
    ensures if Apartness(p, q, t + 1) == SAME then Distance(p, q, t + 1) >= 10 else StaysApart(p, q, t + 1, j + 1)
  {
    hide Apartness, Leave, Apart, Weight, Shifted;
    ApartnessStep(p, q, t);
    var d, e := Apartness(p, q, t), p.bits[t] != q.bits[t];
    LeaveStep(d, e);
    if Shifted(d, e) != SAME {
      ApartStep(d, e);
    }
  }

  // --- what is decoded ---

  /** From a state both pass the other path's rest may follow. */
  lemma {:induction false} Rejoined(p: Path, q: Path, m: nat, r: Path, t: nat)
    requires Proper(p) && Proper(q) && m <= t <= |q.bits| <= |p.bits| && StateAt(p, m) == StateAt(q, m)
    requires r == Path(p.start, p.bits[..m] + q.bits[m..])
    ensures Proper(r) && |r.bits| == |q.bits| && StateAt(r, t) == StateAt(q, t)
    ensures Distance(p, q, t) - Distance(p, r, t) == Distance(p, q, m)
  {
    hide *;
    JoinedIsProper(p, q, m, r);
    if t == m {
      OnPrefixes(p, r, p, m);
      NoDistance(p, m);
    } else {
      Rejoined(p, q, m, r, t - 1);
      PathStep([0, 0, 0, 0], q, t - 1);
      PathStep([0, 0, 0, 0], r, t - 1);
      LastStep(p, q, t);
      LastStep(p, r, t);
    }
  }

  lemma JoinedIsProper(p: Path, q: Path, m: nat, r: Path)
    requires Proper(p) && Proper(q) && m <= |q.bits| <= |p.bits| && r == Path(p.start, p.bits[..m] + q.bits[m..])
    ensures Proper(r) && |r.bits| == |q.bits| && r.bits[..m] == p.bits[..m]
    ensures forall i :: m <= i < |q.bits| ==> r.bits[i] == q.bits[i]
  {}

  lemma LastStep(p: Path, q: Path, t: nat)
    requires 0 < t <= |p.bits| && t <= |q.bits|
    ensures Distance(p, q, t) ==
              Distance(p, q, t - 1) + Weight(Difference(StateAt(p, t - 1), StateAt(q, t - 1)),
                                             p.bits[t - 1] != q.bits[t - 1])
  {
    hide Weight, Difference, StateAt;
  }

  lemma {:induction false} NoDistance(p: Path, t: nat)
    requires t <= |p.bits|
    ensures Distance(p, p, t) == 0
  {
    if t > 0 { NoDistance(p, t - 1); }
  }

  /** Of two paths to the same state one that is closer to what was sent by seven code bits would be selected. */
  lemma CloserWins(y: seq<int>, a: nat, p: Path, t: nat, r: Path, q: Path)
    requires |y| >= 4 && Proper(p) && Proper(r) && Proper(q) && t <= |p.bits| && t <= |r.bits| && t <= |q.bits|
    requires Noise(y, a, p, t) < 7 * a && Distance(p, q, t) >= Distance(p, r, t) + 7
    ensures MetricAt(y, r, t) > MetricAt(y, q, t)
  {
    hide *;
    MetricGap(y, a, p, t, r, q);
    SevenTimes(a, Distance(p, q, t), Distance(p, r, t));
  }

  lemma SevenTimes(a: nat, d: nat, e: nat)
    requires d >= e + 7
    ensures a * d - a * e >= 7 * a
  {
    MulMonotone(e + 7, d, a);
    assert (e + 7) * a == a * e + 7 * a;
  }

  lemma SelectedIsBest(y: seq<int>, t: nat, f: nat, r: Path)
    requires |y| >= 4 && f < 64 && Proper(r) && |r.bits| == t && StateAt(r, t) == f
    ensures var q := Survivor(y, t, f); Proper(q) && StateAt(q, t) == f && MetricAt(y, r, t) <= MetricAt(y, q, t)
  {
    hide Survivor, Best, PathMetric, End;
    SurvivorAchieves(y, t, f);
    var q := Survivor(y, t, f);
    assert q.bits[..t] == q.bits && r.bits[..t] == r.bits;
    BestIsUpperBound(y, r.start, r.bits);
  }

  /** Whatever state is traced back from, the bit thirty selections before the last is the one sent. */
  lemma BitDecoded(y: seq<int>, a: nat, p: Path, u: nat, f: nat)
    requires |y| >= 4 && Proper(p) && u + 31 <= |p.bits| && f < 64 && Noise(y, a, p, u + 31) < 7 * a
    ensures Survivor(y, u + 31, f).bits[u] == p.bits[u]
  {
    hide *;
    var t, q := u + 31, Survivor(y, u + 31, f);
    var r := PathTo(p, t, f);
    SelectedIsBest(y, t, f, r);
    if q.bits[u] != p.bits[u] {
      var m := ApartOrBack(p, q, u, 30);
      if m == 0 {
        FarFromSent(p, q, t);
      } else {
        r := Path(p.start, p.bits[..m] + q.bits[m..]);
        BackTogether(p, q, m);
        Rejoined(p, q, m, r, t);
        SelectedIsBest(y, t, f, r);
      }
      CloserWins(y, a, p, t, r, q);
    }
  }

  lemma BackTogether(p: Path, q: Path, m: nat)
    requires Proper(p) && Proper(q) && m <= |p.bits| && m <= |q.bits| && Apartness(p, q, m) == SAME
    ensures StateAt(p, m) == StateAt(q, m)
  {
    hide StateAt, Difference;
    StateInRange(p, m);
    StateInRange(q, m);
    SameStates(StateAt(p, m), StateAt(q, m));
  }

  lemma FarFromSent(p: Path, q: Path, t: nat)
    requires t <= |p.bits| && t <= |q.bits| && Apartness(p, q, t) != SAME && StaysApart(p, q, t, 30)
    ensures Distance(p, q, t) >= Reach(Difference(StateAt(p, t), StateAt(q, t))) + 7
  {
    hide Reach, Apart, Distance, StateAt, Difference;
    ApartOrReach(Apartness(p, q, t));
  }

  /** Into the state the sent path ends in its bits are selected ... */
  lemma SentBitsSelected(y: seq<int>, a: nat, p: Path, u: nat)
    requires |y| >= 4 && Proper(p) && u < |p.bits| && Noise(y, a, p, |p.bits|) < 7 * a
    ensures Survivor(y, |p.bits|, StateAt(p, |p.bits|)).bits[u] == p.bits[u]
  {
    hide *;
    var t := |p.bits|;
    var f := StateAt(p, t);
    StateInRange(p, t);
    var q := Survivor(y, t, f);
    SelectedIsBest(y, t, f, p);
    if q.bits[u] != p.bits[u] {
      var m := ApartOrBack(p, q, u, t - u - 1);
      if m == 0 {
        SameEnd(p, q, t);
      } else {
        var r := Path(p.start, p.bits[..m] + q.bits[m..]);
        BackTogether(p, q, m);
        Rejoined(p, q, m, r, t);
        SelectedIsBest(y, t, f, r);
        CloserWins(y, a, p, t, r, q);
      }
    }
  }

  lemma SameEnd(p: Path, q: Path, t: nat)
    requires t <= |p.bits| && t <= |q.bits| && StateAt(p, t) == StateAt(q, t)
    ensures Apartness(p, q, t) == SAME
  {
    hide StateAt, StateBit;
  }

  /** ... and without noise the sent path's metric, all of the signal, is the best of its end state. */
  lemma SentPathIsBest(y: seq<int>, a: nat, p: Path)
    requires |y| >= 4 && Proper(p) && Noise(y, a, p, |p.bits|) == 0
    ensures PathMetric(y, p.start, p.bits) == Best(y, |p.bits|, End(p.start, p.bits)) == 4 * a * |p.bits|
  {
    hide *;
    var t := |p.bits|;
    var f := StateAt(p, t);
    StateInRange(p, t);
    var q := Survivor(y, t, f);
    SelectedIsBest(y, t, f, p);
    MetricGap(y, a, p, t, p, q);
    NoDistance(p, t);
    assert a * Distance(p, p, t) == 0;
    SurvivorAchieves(y, t, f);
    WholePath(y, p);
    WholePath(y, q);
    AllOfTheSignal(y, a, p, t);
  }

  lemma WholePath(y: seq<int>, p: Path)
    requires |y| >= 4
    ensures StateAt(p, |p.bits|) == End(p.start, p.bits)
    ensures MetricAt(y, p, |p.bits|) == PathMetric(y, p.start, p.bits)
  {
    assert p.bits[..|p.bits|] == p.bits;
    hide End, PathMetric;
  }

  lemma {:induction false} AllOfTheSignal(y: seq<int>, a: nat, p: Path, t: nat)
    requires |y| >= 4 && Proper(p) && t <= |p.bits| && Noise(y, a, p, t) == 0
    ensures MetricAt(y, p, t) == 4 * a * t
  {
    hide *;
    if t == 0 {
      NothingGathered(y, p);
    } else {
      LastNoise(y, a, p, t);
      AllOfTheSignal(y, a, p, t - 1);
      PathStep(y, p, t - 1);
      CleanStep(y, a, p, t - 1);
      assert 4 * a * (t - 1) == 4 * a * t - 4 * a;
    }
  }

  lemma LastNoise(y: seq<int>, a: nat, p: Path, t: nat)
    requires |y| >= 4 && 0 < t <= |p.bits|
    ensures Noise(y, a, p, t) == Noise(y, a, p, t - 1) + StepNoise(y, a, p, t - 1)
  {
    hide StepNoise;
  }

  lemma CleanStep(y: seq<int>, a: nat, p: Path, t: nat)
    requires |y| >= 4 && t < |p.bits| && StepNoise(y, a, p, t) == 0
    ensures Branch(y, t, p.bits[t], StateAt(p, t)) == 4 * a
  {
    hide StateAt, MotherBit, Received;
  }

  // --- what the decoder puts out ---

  /** As long as the received values lie within the block, the bits put out are the bits sent. */
  lemma OutputIsSent(y: seq<int>, a: nat, p: Path, starts: seq<nat>, output: seq<Galois.Byte>, u: nat)
    requires |y| >= 4 && Proper(p) && D.DecodedBits(y, starts, output) && u < |starts|
    requires u + 31 <= |p.bits| && Noise(y, a, p, u + 31) < 7 * a
    ensures u / 8 < |output| && (D.OutBit(output, u) <==> p.bits[u] == 1)
  {
    DecodedAt(y, starts, output, u);
    hide *;
    BitDecoded(y, a, p, u, starts[u]);
  }

  lemma DecodedAt(y: seq<int>, starts: seq<nat>, output: seq<Galois.Byte>, u: nat)
    requires |y| >= 4 && D.DecodedBits(y, starts, output) && u < |starts|
    ensures starts[u] < 64 && u / 8 < |output|
    ensures D.OutBit(output, u) <==> Survivor(y, u + 31, starts[u]).bits[u] == 1
  {
    hide Survivor, D.OutBit, D.StartsAt, D.ReadBehind;
    assert D.DecodedBit(y, starts[u], u, output);
  }

  function Zeros(n: nat): (z: seq<nat>)
    ensures |z| == n && forall i :: 0 <= i < n ==> z[i] == 0
  {
    seq(n, _ => 0)
  }

  /** A path that ends with seven zeros: the last of the data and the six tail bits. */
  ghost predicate EndsWithZeros(p: Path) {
    |p.bits| >= 7 && forall i :: |p.bits| - 7 <= i < |p.bits| ==> p.bits[i] == 0
  }

  /** Six zeros clear the state, and from there on zeros send the same code word over and over. */
  lemma {:induction false} ZerosClear(p: Path, n: nat, i: nat)
    requires Proper(p) && 6 <= n <= i <= |p.bits| && forall j :: n - 6 <= j < i ==> p.bits[j] == 0
    ensures StateAt(p, i) == 0
  {
    forall d: nat | d < 6
      ensures StateBit(StateAt(p, i), d) == 0
    {
      StateHoldsInputs(p.start, p.bits[..i], d);
    }
    StateInRange(p, i);
    StateIsItsBits(StateAt(p, i));
    hide StateAt, StateBit;
  }

  /** Past the end of the block the last four values are read again and again. */
  lemma {:induction false} TailNoise(y: seq<int>, a: nat, p: Path, n: nat, t: nat)
    requires Proper(p) && 7 <= n <= t <= |p.bits| && |y| == 4 * n && forall i :: n - 7 <= i < t ==> p.bits[i] == 0
    ensures Noise(y, a, p, t) == Noise(y, a, p, n) + (t - n) * StepNoise(y, a, p, n - 1)
  {
    hide *;
    if t > n {
      TailNoise(y, a, p, n, t - 1);
      LastNoise(y, a, p, t);
      ZerosClear(p, n - 1, n - 1);
      ZerosClear(p, n - 1, t - 1);
      SameNoise(y, a, p, n, t - 1);
      OneMore(t - 1 - n, StepNoise(y, a, p, n - 1));
    }
  }

  lemma SameNoise(y: seq<int>, a: nat, p: Path, n: nat, t: nat)
    requires 1 <= n <= t < |p.bits| && |y| == 4 * n
    requires StateAt(p, t) == StateAt(p, n - 1) && p.bits[t] == p.bits[n - 1]
    ensures StepNoise(y, a, p, t) == StepNoise(y, a, p, n - 1)
  {
    hide StateAt, Correlate, Abs;
    forall k: nat | k < 4
      ensures Received(y, t, k) == Received(y, n - 1, k)
    {}
    hide Received;
  }

  /** A block that was closed with zeros comes out whole. */
  lemma BlockIsSent(y: seq<int>, a: nat, p: Path, starts: seq<nat>, output: seq<Galois.Byte>)
    requires Proper(p) && EndsWithZeros(p) && |y| == 4 * |p.bits|
    requires Noise(y, a, p, |p.bits|) + 30 * StepNoise(y, a, p, |p.bits| - 1) < 7 * a
    requires D.DecodedBits(y, starts, output) && |starts| <= |p.bits|
    ensures forall u: nat :: u < |starts| ==> u / 8 < |output| && (D.OutBit(output, u) <==> p.bits[u] == 1)
  {
    hide *;
    var n := |p.bits|;
    var q := Path(p.start, p.bits + Zeros(30));
    Extended(y, a, p, q);
    forall u: nat | u < |starts|
      ensures u / 8 < |output| && (D.OutBit(output, u) <==> p.bits[u] == 1)
    {
      ExtendedNoise(y, a, q, n, u + 31);
      OutputIsSent(y, a, q, starts, output, u);
    }
  }

  lemma Extended(y: seq<int>, a: nat, p: Path, q: Path)
    requires Proper(p) && EndsWithZeros(p) && |y| == 4 * |p.bits| && q == Path(p.start, p.bits + Zeros(30))
    ensures Proper(q) && |q.bits| == |p.bits| + 30 && forall i :: 0 <= i < |p.bits| ==> q.bits[i] == p.bits[i]
    ensures |p.bits| >= 7 && forall i :: |p.bits| - 7 <= i < |q.bits| ==> q.bits[i] == 0
    ensures Noise(y, a, q, |p.bits|) == Noise(y, a, p, |p.bits|)
    ensures StepNoise(y, a, q, |p.bits| - 1) == StepNoise(y, a, p, |p.bits| - 1)
  {
    hide StepNoise, Noise;
    assert q.bits[..|p.bits|] == p.bits;
    NoiseOfPrefix(y, a, p, q, |p.bits|);
    StepNoiseOfPrefix(y, a, p, q, |p.bits| - 1);
  }

  lemma StepNoiseOfPrefix(y: seq<int>, a: nat, p: Path, q: Path, t: nat)
    requires |y| >= 4 && t < |p.bits| <= |q.bits| && q.start == p.start && q.bits[..|p.bits|] == p.bits
    ensures StepNoise(y, a, q, t) == StepNoise(y, a, p, t)
  {
    hide Correlate, Received, Abs;
    assert q.bits[..t] == p.bits[..t] && q.bits[t] == p.bits[t];
  }

  lemma {:induction false} NoiseOfPrefix(y: seq<int>, a: nat, p: Path, q: Path, t: nat)
    requires |y| >= 4 && t <= |p.bits| <= |q.bits| && q.start == p.start && q.bits[..|p.bits|] == p.bits
    ensures Noise(y, a, q, t) == Noise(y, a, p, t)
  {
    hide StepNoise;
    if t > 0 {
      NoiseOfPrefix(y, a, p, q, t - 1);
      StepNoiseOfPrefix(y, a, p, q, t - 1);
    }
  }

  lemma ExtendedNoise(y: seq<int>, a: nat, q: Path, n: nat, t: nat)
    requires Proper(q) && 7 <= n && |y| == 4 * n && |q.bits| == n + 30 && t <= n + 30
    requires forall i :: n - 7 <= i < |q.bits| ==> q.bits[i] == 0
    ensures Noise(y, a, q, t) <= Noise(y, a, q, n) + 30 * StepNoise(y, a, q, n - 1)
  {
    hide *;
    if t <= n {
      NoiseGrows(y, a, q, t, n);
    } else {
      TailNoise(y, a, q, n, t);
      MulMonotone(t - n, 30, StepNoise(y, a, q, n - 1));
    }
  }

  lemma {:induction false} NoiseGrows(y: seq<int>, a: nat, p: Path, t: nat, n: nat)
    requires |y| >= 4 && t <= n <= |p.bits|
    ensures Noise(y, a, p, t) <= Noise(y, a, p, n)
  {
    hide StepNoise;
    if t < n { NoiseGrows(y, a, p, t, n - 1); }
  }
}

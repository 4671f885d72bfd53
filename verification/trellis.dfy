/** The rate 1/4 mother code of EN 300 401 section 11.1 as a trellis, and its best paths. */
module Trellis {

  /** The input bit delay + 1 steps back, as the state holds it: newest bit highest. */
  function StateBit(s: nat, delay: nat): nat
    requires delay < 6
  {
    match delay
    case 0 => s / 32 % 2
    case 1 => s / 16 % 2
    case 2 => s / 8 % 2
    case 3 => s / 4 % 2
    case 4 => s / 2 % 2
    case _ => s % 2
  }

  /** Output k of the mother code for input b in state s: generators 133, 171, 145, 133 (octal). */
  function MotherBit(k: nat, b: nat, s: nat): nat
    requires k < 4
  {
    match k
    case 1 => (b + StateBit(s, 0) + StateBit(s, 1) + StateBit(s, 2) + StateBit(s, 5)) % 2
    case 2 => (b + StateBit(s, 0) + StateBit(s, 3) + StateBit(s, 5)) % 2
    case _ => (b + StateBit(s, 1) + StateBit(s, 2) + StateBit(s, 4) + StateBit(s, 5)) % 2
  }

  /** Bit 0 is sent as +1 and bit 1 as -1. */
  function Correlate(k: nat, b: nat, s: nat, y: int): int
    requires k < 4
  {
    if MotherBit(k, b, s) == 0 then y else -y
  }

  /** The four received values of step i; past the end the last four are repeated. */
  function Received(y: seq<int>, i: nat, k: nat): int
    requires |y| >= 4 && k < 4
  {
    if i < |y| / 4 then y[4 * i + k] else y[|y| - 4 + k]
  }

  function Branch(y: seq<int>, i: nat, b: nat, s: nat): int
    requires |y| >= 4
  {
    Correlate(0, b, s, Received(y, i, 0)) + Correlate(1, b, s, Received(y, i, 1))
    + Correlate(2, b, s, Received(y, i, 2)) + Correlate(3, b, s, Received(y, i, 3))
  }

  function Next(s: nat, b: nat): nat {
    32 * b + s / 2
  }

  ghost predicate Bits(bits: seq<nat>) {
    forall i :: 0 <= i < |bits| ==> bits[i] < 2
  }

  /** The state reached from start by the given input bits. */
  function End(start: nat, bits: seq<nat>): nat {
    if bits == [] then start else Next(End(start, bits[..|bits| - 1]), bits[|bits| - 1])
  }

  /** The correlation of what was received with what the path sends. */
  function PathMetric(y: seq<int>, start: nat, bits: seq<nat>): int
    requires |y| >= 4
  {
    if bits == [] then 0 else
      var last := |bits| - 1;
      PathMetric(y, start, bits[..last]) + Branch(y, last, bits[last], End(start, bits[..last]))
  }

  /** The two states a state can be entered from. */
  function Even(s: nat): nat { 2 * (s % 32) }

  function Odd(s: nat): nat { 2 * (s % 32) + 1 }

  /** Add, compare, select: the metric of s after t steps. */
  function Best(y: seq<int>, t: nat, s: nat): int
    requires |y| >= 4
  {
    if t == 0 then 0 else
      var v1 := Best(y, t - 1, Even(s)) + Branch(y, t - 1, s / 32, Even(s));
      var v2 := Best(y, t - 1, Odd(s)) + Branch(y, t - 1, s / 32, Odd(s));
      if v1 > v2 then v1 else v2
  }

  /** The state the selected path came from. */
  function Pred(y: seq<int>, t: nat, s: nat): nat
    requires |y| >= 4 && t > 0
  {
    var v1 := Best(y, t - 1, Even(s)) + Branch(y, t - 1, s / 32, Even(s));
    var v2 := Best(y, t - 1, Odd(s)) + Branch(y, t - 1, s / 32, Odd(s));
    if v1 > v2 then Even(s) else Odd(s)
  }

  lemma Entered(p: nat, b: nat, s: nat)
    requires p < 64 && b < 2 && s == Next(p, b)
    ensures s < 64 && b == s / 32 && (p == Even(s) || p == Odd(s))
  {
    assert p == 2 * (p / 2) + p % 2;
  }

  lemma Enters(s: nat)
    requires s < 64
    ensures Even(s) < 64 && Odd(s) < 64 && Next(Even(s), s / 32) == s && Next(Odd(s), s / 32) == s && s / 32 < 2
  {}

  lemma {:induction false} EndInRange(start: nat, bits: seq<nat>)
    requires start < 64 && Bits(bits)
    ensures End(start, bits) < 64
  {
    if bits != [] { EndInRange(start, bits[..|bits| - 1]); }
  }

  /** No path to s, from any start state, does better than the metric of s. */
  lemma {:induction false} BestIsUpperBound(y: seq<int>, start: nat, bits: seq<nat>)
    requires |y| >= 4 && start < 64 && Bits(bits)
    ensures PathMetric(y, start, bits) <= Best(y, |bits|, End(start, bits))
  {
    hide Branch, Even, Odd;
    if bits != [] {
      var last := |bits| - 1;
      var init := bits[..last];
      BestIsUpperBound(y, start, init);
      EndInRange(start, init);
      Entered(End(start, init), bits[last], End(start, bits));
    }
  }

  // --- the selected path ---

  datatype Path = Path(start: nat, bits: seq<nat>)

  function Survivor(y: seq<int>, t: nat, s: nat): (p: Path)
    requires |y| >= 4
    ensures |p.bits| == t
  {
    if t == 0 then Path(s, []) else
      var p := Survivor(y, t - 1, Pred(y, t, s));
      Path(p.start, p.bits + [s / 32])
  }

  /** A path to s that is as good as any path to s. */
  ghost predicate Optimal(y: seq<int>, p: Path, s: nat)
    requires |y| >= 4
  {
    && p.start < 64 && Bits(p.bits) && End(p.start, p.bits) == s
    && forall q: Path :: q.start < 64 && Bits(q.bits) && |q.bits| == |p.bits| && End(q.start, q.bits) == s ==>
         PathMetric(y, q.start, q.bits) <= PathMetric(y, p.start, p.bits)
  }

  /** The selected path reaches s and achieves its metric. */
  lemma {:induction false} SurvivorAchieves(y: seq<int>, t: nat, s: nat)
    requires |y| >= 4 && s < 64
    ensures var p := Survivor(y, t, s);
            && p.start < 64 && Bits(p.bits) && End(p.start, p.bits) == s
            && PathMetric(y, p.start, p.bits) == Best(y, t, s)
  {
    hide *;
    if t == 0 {
      EmptyPath(y, s);
    } else {
      var s' := Pred(y, t, s);
      BestThroughPred(y, t, s);
      SurvivorAchieves(y, t - 1, s');
      var p := Survivor(y, t - 1, s');
      LongerPath(y, p.start, p.bits, s / 32);
      SurvivorUnfold(y, t, s);
    }
  }

  lemma EmptyPath(y: seq<int>, s: nat)
    requires |y| >= 4 && s < 64
    ensures var p := Survivor(y, 0, s);
            && p.start < 64 && Bits(p.bits) && End(p.start, p.bits) == s
            && PathMetric(y, p.start, p.bits) == Best(y, 0, s)
  {}

  lemma SurvivorUnfold(y: seq<int>, t: nat, s: nat)
    requires |y| >= 4 && t > 0
    ensures var p := Survivor(y, t - 1, Pred(y, t, s));
            Survivor(y, t, s) == Path(p.start, p.bits + [s / 32])
  {
    hide Pred;
  }

  /** The selection is one of the two ways into s, and the better one. */
  lemma BestThroughPred(y: seq<int>, t: nat, s: nat)
    requires |y| >= 4 && t > 0 && s < 64
    ensures Pred(y, t, s) < 64 && s / 32 < 2 && Next(Pred(y, t, s), s / 32) == s
    ensures Best(y, t, s) == Best(y, t - 1, Pred(y, t, s)) + Branch(y, t - 1, s / 32, Pred(y, t, s))
  {
    hide Branch, Even, Odd, Next;
    Enters(s);
  }

  lemma LongerPath(y: seq<int>, start: nat, bits: seq<nat>, b: nat)
    requires |y| >= 4
    ensures End(start, bits + [b]) == Next(End(start, bits), b)
    ensures Bits(bits) && b < 2 ==> Bits(bits + [b])
    ensures PathMetric(y, start, bits + [b]) == PathMetric(y, start, bits) + Branch(y, |bits|, b, End(start, bits))
  {
    hide Branch, Next;
    assert (bits + [b])[..|bits|] == bits;
  }

  lemma SurvivorIsOptimal(y: seq<int>, t: nat, s: nat)
    requires |y| >= 4 && s < 64
    ensures Optimal(y, Survivor(y, t, s), s)
  {
    hide Survivor, Best, PathMetric, End;
    SurvivorAchieves(y, t, s);
    forall q: Path | q.start < 64 && Bits(q.bits) && |q.bits| == t && End(q.start, q.bits) == s
      ensures PathMetric(y, q.start, q.bits) <= Best(y, t, s)
    {
      BestIsUpperBound(y, q.start, q.bits);
    }
  }

  /** The metric is the maximum over all paths to s. */
  lemma BestIsMaximum(y: seq<int>, t: nat, s: nat)
    requires |y| >= 4 && s < 64
    ensures forall q: Path :: q.start < 64 && Bits(q.bits) && |q.bits| == t && End(q.start, q.bits) == s ==>
              PathMetric(y, q.start, q.bits) <= Best(y, t, s)
    ensures exists q: Path :: q.start < 64 && Bits(q.bits) && |q.bits| == t && End(q.start, q.bits) == s &&
              PathMetric(y, q.start, q.bits) == Best(y, t, s)
  {
    hide Survivor, Best, PathMetric, End;
    SurvivorAchieves(y, t, s);
    SurvivorIsOptimal(y, t, s);
  }

  /** Following n selections back from state s at time t. */
  function Trace(y: seq<int>, t: nat, s: nat, n: nat): nat
    requires |y| >= 4 && n <= t
  {
    if n == 0 then s else Pred(y, t - n + 1, Trace(y, t, s, n - 1))
  }

  lemma {:induction false} TraceFromPred(y: seq<int>, t: nat, s: nat, n: nat)
    requires |y| >= 4 && 0 < n <= t
    ensures Trace(y, t, s, n) == Trace(y, t - 1, Pred(y, t, s), n - 1)
  {
    hide Pred;
    if n > 1 {
      TraceFromPred(y, t, s, n - 1);
    } else {
      assert Trace(y, t, s, 0) == s;
    }
  }

  lemma {:induction false} TraceInRange(y: seq<int>, t: nat, s: nat, n: nat)
    requires |y| >= 4 && n <= t && s < 64
    ensures Trace(y, t, s, n) < 64
  {
    hide Best, Branch;
    if n > 0 {
      TraceInRange(y, t, s, n - 1);
    }
  }

  /** The newest bit of the state n selections back is the selected path's bit at that step. */
  lemma {:induction false} TraceIsSurvivorBit(y: seq<int>, t: nat, s: nat, n: nat)
    requires |y| >= 4 && n < t && s < 64
    ensures Survivor(y, t, s).bits[t - 1 - n] == Trace(y, t, s, n) / 32
    decreases n
  {
    hide Pred;
    if n > 0 {
      TraceFromPred(y, t, s, n);
      PredInRange(y, t, s);
      TraceIsSurvivorBit(y, t - 1, Pred(y, t, s), n - 1);
    }
  }

  lemma PredInRange(y: seq<int>, t: nat, s: nat)
    requires |y| >= 4 && t > 0 && s < 64
    ensures Pred(y, t, s) < 64
  {
    hide Best, Branch;
  }
}

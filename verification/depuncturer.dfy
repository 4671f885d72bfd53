/** The depuncturer: protection profiles, and zeros put back where the transmitter left values out. */
module DePuncturer {
  import opened Division
  import opened RateMatching
  import opened SlidingBuffer

  /** The kept places filled from data in order, the punctured ones with zero. */
  function Filled<T>(kept: seq<bool>, data: seq<T>, zero: T): (r: seq<T>)
    requires Count(kept) <= |data|
    ensures |r| == |kept|
  {
    if kept == [] then []
    else
      var n := |kept| - 1;
      Filled(kept[..n], data, zero) + [if kept[n] then data[Count(kept[..n])] else zero]
  }

  /** What the transmitter sends of x. */
  function Punctured<T>(kept: seq<bool>, x: seq<T>): (r: seq<T>)
    requires |kept| == |x|
    ensures |r| == Count(kept)
  {
    if kept == [] then []
    else
      var n := |kept| - 1;
      Punctured(kept[..n], x[..n]) + if kept[n] then [x[n]] else []
  }

  /** The data come out again in their order ... */
  lemma {:induction false} PuncturedFilled<T>(kept: seq<bool>, data: seq<T>, zero: T)
    requires Count(kept) <= |data|
    ensures Punctured(kept, Filled(kept, data, zero)) == data[..Count(kept)]
  {
    if kept != [] {
      var n := |kept| - 1;
      PuncturedFilled(kept[..n], data, zero);
      assert Filled(kept, data, zero)[..n] == Filled(kept[..n], data, zero);
    }
  }

  /** ... and every transmitted value returns to its place, with zeros elsewhere. */
  lemma {:induction false} FilledPunctured<T>(kept: seq<bool>, x: seq<T>, more: seq<T>, zero: T)
    requires |kept| == |x|
    ensures forall j ::
              0 <= j < |x| ==> Filled(kept, Punctured(kept, x) + more, zero)[j] == if kept[j] then x[j] else zero
  {
    if kept != [] {
      var n := |kept| - 1;
      var last := if kept[n] then [x[n]] else [];
      FilledPunctured(kept[..n], x[..n], last + more, zero);
      assert Punctured(kept, x) + more == Punctured(kept[..n], x[..n]) + (last + more);
    }
  }

  lemma FilledStep<T>(kept: seq<bool>, k: bool, data: seq<T>, zero: T)
    requires Count(kept + [k]) <= |data|
    ensures Count(kept) <= |data| && Count(kept + [k]) == Count(kept) + (if k then 1 else 0)
    ensures Filled(kept + [k], data, zero) == Filled(kept, data, zero) + [if k then data[Count(kept)] else zero]
  {
    assert (kept + [k])[..|kept|] == kept;
  }

  /** Block lengths and vectors: L1 and L2 vectors of 128 places, then the 24 tail places. */
  datatype Profile = Profile(n: nat, pi1: nat, pi2: nat, len1: nat, len2: nat, kbps: nat)

  /** Capacity units of one step of a profile. */
  function StepSize(protection: nat, isB: bool): nat
    requires protection < 4
  {
    if isB then (if protection == 0 then 27 else if protection == 1 then 21 else if protection == 2 then 18 else 15)
    else (if protection == 0 then 12 else if protection == 1 then 8 else if protection == 2 then 6 else 4)
  }

  /** The vector of the first block in section 11.3.2 of EN 300 401, for a bit rate of n steps; the second block's is
      the one below. */
  ghost function FirstVector(protection: nat, isB: bool, n: nat): nat
    requires protection < 4
  {
    match protection
    case 0 => if isB then 10 else 24
    case 1 => if isB then 6 else if n == 1 then 13 else 14
    case 2 => if isB then 4 else 8
    case _ => if isB then 2 else 3
  }

  /** Its number of blocks under the second vector, and under both. */
  ghost function SecondLength(protection: nat, isB: bool, n: nat): nat
    requires protection < 4
  {
    if isB || protection in {0, 2} then 3
    else if protection == 3 then 2 * n + 3
    else if n == 1 then 1
    else 4 * n + 3
  }

  ghost function BothLengths(isB: bool, n: nat): nat { if isB then 24 * n else 6 * n }

  /** The blocks of section 11.3.2: 128 places of vector v take 4 (v + 8) samples, the tail 12. */
  ghost predicate StandardBlocks(lrange: seq<nat>, lpi: seq<nat>, protection: nat, isB: bool, n: nat)
    requires protection < 4
  {
    var v, second := FirstVector(protection, isB, n), SecondLength(protection, isB, n);
    && lpi == [v, v - 1, 8, 0, 0]
    && lrange == [4 * ((BothLengths(isB, n) - second) * (v + 8)), 4 * (second * (v + 7)), 12, 0, 0]
  }

  /** The profile of the standard for a protection level. */
  ghost predicate IsProfile(p: Profile, subChSize: nat, protection: nat, isB: bool)
    requires protection < 4
  {
    && p.n == subChSize / StepSize(protection, isB)
    && p.pi1 == FirstVector(protection, isB, p.n) && p.pi2 + 1 == p.pi1
    && p.len2 == SecondLength(protection, isB, p.n) && p.len1 + p.len2 == BothLengths(isB, p.n)
  }

  /** The profile's lengths add up: 64 samples to a capacity unit, 24 bits a millisecond and bit rate. */
  ghost predicate Balanced(p: Profile, step: nat) {
    && 1 <= p.pi1 <= 24 && 1 <= p.pi2 <= 24
    && 4 * (p.len1 * (p.pi1 + 8)) + 4 * (p.len2 * (p.pi2 + 8)) + 12 == 64 * (step * p.n)
    && 128 * p.len1 + 128 * p.len2 + 24 == 4 * (24 * p.kbps + 6)
  }


  lemma ProfileBalanced(p: Profile, subChSize: nat, protection: nat, isB: bool)
    requires protection < 4 && IsProfile(p, subChSize, protection, isB) && p.n > 0
    requires p.kbps == (if isB then 32 else 8) * p.n
    ensures Balanced(p, StepSize(protection, isB))
  {
    if isB {
      BalancedB(p, subChSize, protection);
    } else {
      BalancedA(p, subChSize, protection);
    }
  }

  lemma BalancedB(p: Profile, subChSize: nat, protection: nat)
    requires protection < 4 && IsProfile(p, subChSize, protection, true) && p.n > 0 && p.kbps == 32 * p.n
    ensures Balanced(p, StepSize(protection, true))
  {}

  lemma BalancedA(p: Profile, subChSize: nat, protection: nat)
    requires protection < 4 && IsProfile(p, subChSize, protection, false) && p.n > 0 && p.kbps == 8 * p.n
    ensures Balanced(p, StepSize(protection, false))
  {}

  function Devpi(pi: nat): (d: nat) {
    if pi >= 24 then 24 else pi
  }

  /** The places of block q. */
  function BlockPlaces(lrange: seq<nat>, lpi: seq<nat>, q: nat): (kept: seq<bool>)
    requires q < |lrange| && q < |lpi| && lpi[q] > 0
  {
    BlockKept(Devpi(lpi[q]), Originals(lrange[q], lpi[q]))
  }

  /** Places a block of lrange samples fills. */
  function Originals(lrange: nat, pi: nat): nat {
    lrange * 32 / (Devpi(pi) + 8)
  }

  const TOP_BIT: nat := 31

  /** The highest bit of the vector moved up by o places: ((v << o) >> 31) & 1. */
  function Place(v: nat, o: nat): bool {
    v * Pow2(o) / Pow2(TOP_BIT) % 2 == 1
  }

  predicate ThreeBlocks(lrange: seq<nat>, lpi: seq<nat>) {
    |lrange| == |lpi| == 5 && forall q :: 0 <= q < 3 ==> lpi[q] > 0
  }

  /** The places of the first q blocks. */
  function Places(lrange: seq<nat>, lpi: seq<nat>, q: nat): (kept: seq<bool>)
    requires ThreeBlocks(lrange, lpi) && q <= 3
  {
    if q == 0 then [] else Places(lrange, lpi, q - 1) + BlockPlaces(lrange, lpi, q - 1)
  }

  function Total(lrange: seq<nat>, lpi: seq<nat>, q: nat): (t: nat)
    requires q <= |lrange| == |lpi|
  {
    if q == 0 then 0 else Total(lrange, lpi, q - 1) + lrange[q - 1] * 32 / (lpi[q - 1] + 8)
  }

  /** Samples taken by a block of 128 * len places. */
  function BlockRangeOf(len: nat, pi: nat): (lrange: nat) {
    len * 128 * (pi + 8) / 32
  }

  /** A block of 128 * len places: whole vectors, which keep as many places as samples are taken. */
  lemma WholeBlock(pi: nat, len: nat)
    requires 1 <= pi <= 24
    ensures BlockRangeOf(len, pi) == 4 * (len * (pi + 8)) && BlockRangeOf(len, pi) * 32 / (pi + 8) == 128 * len
    ensures Count(BlockKept(pi, 128 * len)) == BlockRangeOf(len, pi)
  {
    hide BlockKept, Count;
    BlockRange(len, pi + 8, BlockRangeOf(len, pi));
    BlockCount(pi, 4 * len);
    assert 32 * (4 * len) == 128 * len;
    Regroup(len, pi + 8);
  }

  lemma Regroup(len: nat, w: nat)
    ensures 4 * len * w == 4 * (len * w)
  {}

  lemma BlockRange(len: nat, w: nat, lrange: nat)
    requires w > 0 && lrange == len * 128 * w / 32
    ensures lrange == 4 * (len * w) && lrange * 32 / w == 128 * len
  {
    assert len * 128 * w == 4 * (len * w) * 32;
    QuotientUnique(len * 128 * w, 4 * (len * w), 0, 32);
    assert lrange * 32 == 128 * len * w;
    QuotientUnique(lrange * 32, 128 * len, 0, w);
  }

  /** Two blocks of whole vectors and the tail. */
  lemma ThreeBlockPlaces(lrange: seq<nat>, lpi: seq<nat>, pi1: nat, pi2: nat, len1: nat, len2: nat)
    requires 1 <= pi1 <= 24 && 1 <= pi2 <= 24 && lpi == [pi1, pi2, 8, 0, 0]
    requires lrange == [BlockRangeOf(len1, pi1), BlockRangeOf(len2, pi2), 12, 0, 0]
    ensures ThreeBlocks(lrange, lpi)
    ensures |Places(lrange, lpi, 3)| == 128 * len1 + 128 * len2 + 24 == Total(lrange, lpi, 5)
    ensures Count(Places(lrange, lpi, 3)) == 4 * (len1 * (pi1 + 8)) + 4 * (len2 * (pi2 + 8)) + 12
  {
    hide BlockKept, Count, BlockRangeOf;
    WholeBlock(pi1, len1);
    WholeBlock(pi2, len2);
    TailCount(24, 8);
    var a, b, c := BlockPlaces(lrange, lpi, 0), BlockPlaces(lrange, lpi, 1), BlockPlaces(lrange, lpi, 2);
    assert a == BlockKept(pi1, 128 * len1) && b == BlockKept(pi2, 128 * len2) && c == BlockKept(8, 24);
    PlacesOfThree(lrange, lpi);
    CountSum(a, b);
    CountSum(a + b, c);
    TotalOfFive(lrange, lpi);
  }

  lemma PlacesOfThree(lrange: seq<nat>, lpi: seq<nat>)
    requires ThreeBlocks(lrange, lpi)
    ensures Places(lrange, lpi, 3) ==
              BlockPlaces(lrange, lpi, 0) + BlockPlaces(lrange, lpi, 1) + BlockPlaces(lrange, lpi, 2)
  {
    hide BlockPlaces;
    assert Places(lrange, lpi, 1) == BlockPlaces(lrange, lpi, 0);
    assert Places(lrange, lpi, 2) == Places(lrange, lpi, 1) + BlockPlaces(lrange, lpi, 1);
  }

  lemma TotalOfFive(lrange: seq<nat>, lpi: seq<nat>)
    requires |lrange| == |lpi| == 5 && lrange[2..] == [12, 0, 0] && lpi[2..] == [8, 0, 0]
    ensures Total(lrange, lpi, 5) == lrange[0] * 32 / (lpi[0] + 8) + lrange[1] * 32 / (lpi[1] + 8) + 24
  {
    assert lrange[2] == lrange[2..][0] && lrange[3] == lrange[2..][1] && lrange[4] == lrange[2..][2];
    assert lpi[2] == lpi[2..][0] && lpi[3] == lpi[2..][1] && lpi[4] == lpi[2..][2];
    assert Total(lrange, lpi, 1) == lrange[0] * 32 / (lpi[0] + 8);
    assert Total(lrange, lpi, 3) == Total(lrange, lpi, 2) + 24;
    assert Total(lrange, lpi, 5) == Total(lrange, lpi, 4);
  }

  class DePuncturer<T> {
    const zero: T
    const modeIII: bool

    var lrangeFic: seq<nat>
    var lpiFic: seq<nat>
    var totalFic: nat
    var lrangeMsc: seq<nat>
    var lpiMsc: seq<nat>
    var totalMsc: nat
    var audioKbps: nat

    constructor (zero: T, modeIII: bool)
      ensures this.zero == zero && this.modeIII == modeIII
    {
      this.zero, this.modeIII := zero, modeIII;
      lrangeFic, lpiFic, totalFic, lrangeMsc, lpiMsc, totalMsc, audioKbps := [], [], 0, [], [], 0, 0;
    }

    /** The equal error protection half of DePuncturerMSCInit. */
    method DePuncturerMSCInit(subChSize: nat, protection: nat, isB: bool)
      requires protection < 4 && subChSize >= StepSize(protection, isB)
      modifies this`lrangeMsc, this`lpiMsc, this`totalMsc, this`audioKbps
      ensures ThreeBlocks(lrangeMsc, lpiMsc)
      ensures StandardBlocks(lrangeMsc, lpiMsc, protection, isB, subChSize / StepSize(protection, isB))
      ensures audioKbps == (if isB then 32 else 8) * (subChSize / StepSize(protection, isB))
      ensures |Places(lrangeMsc, lpiMsc, 3)| == 4 * (24 * audioKbps + 6) == totalMsc
      ensures Count(Places(lrangeMsc, lpiMsc, 3)) ==
                64 * (StepSize(protection, isB) * (subChSize / StepSize(protection, isB)))
    {
      hide Places, Count, BlockRangeOf, Total;
      var p := SelectProfile(subChSize, protection, isB);
      audioKbps := p.kbps;
      lpiMsc := [p.pi1, p.pi2, 8, 0, 0];
      lrangeMsc := [BlockRangeOf(p.len1, p.pi1), BlockRangeOf(p.len2, p.pi2), 12, 0, 0];
      ThreeBlockPlaces(lrangeMsc, lpiMsc, p.pi1, p.pi2, p.len1, p.len2);
      ProfileBlocks(p, subChSize, protection, isB, lrangeMsc, lpiMsc);
      totalMsc := SumBlocks(lrangeMsc, lpiMsc);
    }

    static lemma ProfileBlocks(p: Profile, subChSize: nat, protection: nat, isB: bool, lrange: seq<nat>, lpi: seq<nat>)
      requires protection < 4 && IsProfile(p, subChSize, protection, isB)
      requires 1 <= p.pi1 <= 24 && 1 <= p.pi2 <= 24 && lpi == [p.pi1, p.pi2, 8, 0, 0]
      requires lrange == [BlockRangeOf(p.len1, p.pi1), BlockRangeOf(p.len2, p.pi2), 12, 0, 0]
      ensures StandardBlocks(lrange, lpi, protection, isB, p.n)
    {
      hide BlockRangeOf, FirstVector, SecondLength, BothLengths, StepSize, BlockKept, Count;
      BlockSamples(p.pi1, p.len1, FirstVector(protection, isB, p.n),
                   BothLengths(isB, p.n) - SecondLength(protection, isB, p.n));
      BlockSamples(p.pi2, p.len2, FirstVector(protection, isB, p.n) - 1, SecondLength(protection, isB, p.n));
    }

    static lemma BlockSamples(pi: nat, len: nat, v: int, n: int)
      requires 1 <= pi <= 24 && pi == v && len == n
      ensures BlockRangeOf(len, pi) == 4 * (n * (v + 8))
    {
      WholeBlock(pi, len);
    }

    static method SumBlocks(lrange: seq<nat>, lpi: seq<nat>) returns (total: nat)
      requires |lrange| == |lpi| == 5
      ensures total == Total(lrange, lpi, 5)
    {
      total := 0;
      var i := 0;
      while i < 5
        invariant 0 <= i <= 5 && total == Total(lrange, lpi, i)
      {
        total := total + lrange[i] * 32 / (lpi[i] + 8);
        i := i + 1;
      }
    }

    method SelectProfile(subChSize: nat, protection: nat, isB: bool) returns (p: Profile)
      requires protection < 4 && subChSize >= StepSize(protection, isB)
      ensures p.n == subChSize / StepSize(protection, isB) && p.kbps == (if isB then 32 else 8) * p.n
      ensures Balanced(p, StepSize(protection, isB)) && IsProfile(p, subChSize, protection, isB)
    {
      hide Balanced, IsProfile;
      if isB {
        p := SelectB(subChSize, protection);
      } else {
        p := SelectA(subChSize, protection);
      }
      ProfileBalanced(p, subChSize, protection, isB);
    }

    /** The EEP-B profiles. */
    method SelectB(subChSize: nat, protection: nat) returns (p: Profile)
      requires protection < 4 && subChSize >= StepSize(protection, true)
      ensures p.n == subChSize / StepSize(protection, true) && p.kbps == 32 * p.n
      ensures IsProfile(p, subChSize, protection, true)
    {
      if protection == 0 {
        var n := subChSize / 27;
        p := Profile(n, 10, 9, 24 * n - 3, 3, n * 32);
      } else if protection == 1 {
        var n := subChSize / 21;
        p := Profile(n, 6, 5, 24 * n - 3, 3, n * 32);
      } else if protection == 2 {
        var n := subChSize / 18;
        p := Profile(n, 4, 3, 24 * n - 3, 3, n * 32);
      } else {
        var n := subChSize / 15;
        p := Profile(n, 2, 1, 24 * n - 3, 3, n * 32);
      }
    }

    /** The EEP-A profiles. */
    method SelectA(subChSize: nat, protection: nat) returns (p: Profile)
      requires protection < 4 && subChSize >= StepSize(protection, false)
      ensures p.n == subChSize / StepSize(protection, false) && p.kbps == 8 * p.n
      ensures IsProfile(p, subChSize, protection, false)
    {
      if protection == 0 {
        var n := subChSize / 12;
        p := Profile(n, 24, 23, 6 * n - 3, 3, n * 8);
      } else if protection == 1 {
        var n := subChSize / 8;
        if n == 1 {
          p := Profile(n, 13, 12, 5, 1, n * 8);
        } else {
          p := Profile(n, 14, 13, 2 * n - 3, 4 * n + 3, n * 8);
        }
      } else if protection == 2 {
        var n := subChSize / 6;
        p := Profile(n, 8, 7, 6 * n - 3, 3, n * 8);
      } else {
        var n := subChSize / 4;
        p := Profile(n, 3, 2, 4 * n - 3, 2 * n + 3, n * 8);
      }
    }

    /** DePuncturerFICInit: 768 or, in mode III, 1024 bits of the FIC and their six tail bits. */
    method DePuncturerFICInit()
      modifies this`lrangeFic, this`lpiFic, this`totalFic
      ensures ThreeBlocks(lrangeFic, lpiFic)
      ensures |Places(lrangeFic, lpiFic, 3)| == 4 * ((if modeIII then 1024 else 768) + 6) == totalFic
      ensures Count(Places(lrangeFic, lpiFic, 3)) == if modeIII then 3072 else 2304
      ensures lpiFic == [16, 15, 8, 0, 0] && lrangeFic == [if modeIII then 2784 else 2016, 276, 12, 0, 0]
    {
      hide Places, Count, Total, BlockRangeOf;
      FicRanges();
      if !modeIII {
        lrangeFic, lpiFic := [2016, 276, 12, 0, 0], [16, 15, 8, 0, 0];
        ThreeBlockPlaces(lrangeFic, lpiFic, 16, 15, 21, 3);
      } else {
        lrangeFic, lpiFic := [2784, 276, 12, 0, 0], [16, 15, 8, 0, 0];
        ThreeBlockPlaces(lrangeFic, lpiFic, 16, 15, 29, 3);
      }
      totalFic := SumBlocks(lrangeFic, lpiFic);
    }

    static lemma FicRanges()
      ensures BlockRangeOf(21, 16) == 2016 && BlockRangeOf(29, 16) == 2784 && BlockRangeOf(3, 15) == 276
    {}

    /** Places as configured, for the MSC or the FIC. */
    function Configured(msc: bool): (kept: seq<bool>)
      reads this
      requires if msc then ThreeBlocks(lrangeMsc, lpiMsc) else ThreeBlocks(lrangeFic, lpiFic)
    {
      if msc then Places(lrangeMsc, lpiMsc, 3) else Places(lrangeFic, lpiFic, 3)
    }

    /** Kept places take the data in order, punctured ones become zero; as many data are used as places kept. */
    method DePuncturerProcess(data: seq<T>, depunctur: array<T>, at: nat, msc: bool) returns (used: nat)
      requires if msc then ThreeBlocks(lrangeMsc, lpiMsc) else ThreeBlocks(lrangeFic, lpiFic)
      requires Count(Configured(msc)) <= |data| && at + |Configured(msc)| <= depunctur.Length
      modifies depunctur
      ensures used == Count(Configured(msc))
      ensures depunctur[..] == Overwritten(old(depunctur[..]), at, Filled(Configured(msc), data, zero))
    {
      hide BlockPlaces, BlockKept, Count, Filled, FilledUpTo, Places;
      var lrange, lpi := if msc then lrangeMsc else lrangeFic, if msc then lpiMsc else lpiFic;
      ghost var before := depunctur[..];
      used := 0;
      var end := at;
      var q := 0;
      NothingFilled(before, at, data);
      NoPlaces(lrange, lpi);
      while q < 3
        invariant 0 <= q <= 3
        invariant end == at + |Places(lrange, lpi, q)| &&
                  FilledUpTo(before, depunctur[..], at, Places(lrange, lpi, q), data, used)
      {
        PlacesPrefix(lrange, lpi, q + 1);
        used, end := ProcessBlock(before, data, depunctur, at, Places(lrange, lpi, q), used, end, lrange[q], lpi[q]);
        q := q + 1;
      }
      AllFilled(before, depunctur[..], at, Places(lrange, lpi, 3), data, used);
    }

    lemma AllFilled(before: seq<T>, after: seq<T>, at: nat, kept: seq<bool>, data: seq<T>, used: nat)
      requires FilledUpTo(before, after, at, kept, data, used)
      ensures used == Count(kept) && after == Overwritten(before, at, Filled(kept, data, zero))
    {}

    static lemma NoPlaces(lrange: seq<nat>, lpi: seq<nat>)
      requires ThreeBlocks(lrange, lpi)
      ensures Places(lrange, lpi, 0) == []
    {}

    /** The places kept so far are filled. */
    ghost predicate FilledUpTo(before: seq<T>, after: seq<T>, at: nat, kept: seq<bool>, data: seq<T>, used: nat) {
      && used == Count(kept) <= |data| && at + |kept| <= |before|
      && after == Overwritten(before, at, Filled(kept, data, zero))
    }

    lemma NothingFilled(before: seq<T>, at: nat, data: seq<T>)
      requires at <= |before|
      ensures FilledUpTo(before, before, at, [], data, 0)
    {
      assert before == before[..at] + [] + before[at..];
    }

    static lemma PlacesPrefix(lrange: seq<nat>, lpi: seq<nat>, q: nat)
      requires ThreeBlocks(lrange, lpi) && 1 <= q <= 3
      ensures Places(lrange, lpi, q) ==
                Places(lrange, lpi, q - 1) + BlockKept(Devpi(lpi[q - 1]), Originals(lrange[q - 1], lpi[q - 1]))
      ensures |Places(lrange, lpi, q)| <= |Places(lrange, lpi, 3)| &&
                Count(Places(lrange, lpi, q)) <= Count(Places(lrange, lpi, 3))
    {
      hide Count, BlockKept;
      PlacesGrow(lrange, lpi, q);
    }

    static lemma {:induction false} PlacesGrow(lrange: seq<nat>, lpi: seq<nat>, q: nat)
      requires ThreeBlocks(lrange, lpi) && q <= 3
      ensures |Places(lrange, lpi, q)| <= |Places(lrange, lpi, 3)| &&
                Count(Places(lrange, lpi, q)) <= Count(Places(lrange, lpi, 3))
      decreases 3 - q
    {
      hide Places, BlockPlaces, Count;
      if q < 3 {
        PlacesUnfold(lrange, lpi, q);
        CountSum(Places(lrange, lpi, q), BlockPlaces(lrange, lpi, q));
        PlacesGrow(lrange, lpi, q + 1);
      }
    }

    static lemma PlacesUnfold(lrange: seq<nat>, lpi: seq<nat>, q: nat)
      requires ThreeBlocks(lrange, lpi) && q < 3
      ensures lpi[q] > 0 && Places(lrange, lpi, q + 1) == Places(lrange, lpi, q) + BlockPlaces(lrange, lpi, q)
    {
      hide BlockPlaces;
    }

    method ProcessBlock(ghost before: seq<T>, data: seq<T>, depunctur: array<T>, ghost at: nat, ghost done: seq<bool>,
                        from: nat, start: nat, lrange: nat, pi: nat) returns (used: nat, end: nat)
      requires pi > 0 && start == at + |done|
      requires FilledUpTo(before, depunctur[..], at, done, data, from)
      requires Count(done + BlockKept(Devpi(pi), Originals(lrange, pi))) <= |data|
      requires start + Originals(lrange, pi) <= depunctur.Length
      modifies depunctur
      ensures end == start + Originals(lrange, pi)
      ensures FilledUpTo(before, depunctur[..], at, done + BlockKept(Devpi(pi), Originals(lrange, pi)), data, used)
    {
      var devpi := if pi >= 24 then 24 else pi;
      var originals := lrange * 32 / (devpi + 8);
      PiLength();
      hide BlockKept, Count, Filled, FilledUpTo, Place, PI;
      ghost var kept := BlockKept(devpi, originals);
      forall i: nat | i < originals
        ensures kept[i] == Place(PI[devpi - 1], i % 32)
      {
        KeptPlace(devpi, originals, i);
      }
      used, end := FillBlock(before, data, depunctur, at, done, from, start, PI[devpi - 1], originals, kept);
    }

    /** The places of one block, the vector starting again after 32. */
    method FillBlock(ghost before: seq<T>, data: seq<T>, depunctur: array<T>, ghost at: nat, ghost done: seq<bool>,
                     from: nat, start: nat, v: nat, originals: nat, ghost kept: seq<bool>) returns (used: nat, end: nat)
      requires start == at + |done| && FilledUpTo(before, depunctur[..], at, done, data, from)
      requires |kept| == originals && forall i: nat :: i < originals ==> kept[i] == Place(v, i % 32)
      requires Count(done + kept) <= |data| && start + originals <= depunctur.Length
      modifies depunctur
      ensures end == start + originals && FilledUpTo(before, depunctur[..], at, done + kept, data, used)
    {
      hide Count, Filled, FilledUpTo, Place;
      var byteOffset := 0;
      used, end := from, start;
      var i := 0;
      assert done + kept[..0] == done;
      while i < originals
        invariant 0 <= i <= originals && end == start + i
        invariant byteOffset == if i > 0 && i % 32 == 0 then 32 else i % 32
        invariant FilledUpTo(before, depunctur[..], at, done + kept[..i], data, used)
      {
        if byteOffset == 32 {
          byteOffset := 0;
        }
        var taken := Place(v, byteOffset);
        PrefixCount(done, kept, i);
        used := PutPlace(before, data, depunctur, at, done + kept[..i], used, end, taken);
        assert done + kept[..i] + [taken] == done + kept[..i + 1];
        end := end + 1;
        byteOffset := byteOffset + 1;
        i := i + 1;
      }
      assert kept[..originals] == kept;
    }

    /** One place: zero, or the next value of the data. */
    method PutPlace(ghost before: seq<T>, data: seq<T>, depunctur: array<T>, ghost at: nat, ghost kept: seq<bool>,
                    from: nat, end: nat, taken: bool) returns (used: nat)
      requires FilledUpTo(before, depunctur[..], at, kept, data, from)
      requires end == at + |kept| < depunctur.Length && Count(kept + [taken]) <= |data|
      modifies depunctur
      ensures FilledUpTo(before, depunctur[..], at, kept + [taken], data, used)
    {
      hide Count, Filled;
      ghost var mid := depunctur[..];
      FilledStep(kept, taken, data, zero);
      used := from;
      depunctur[end] := zero;
      if taken {
        depunctur[end] := data[used];
        used := used + 1;
      }
      ghost var w := Filled(kept, data, zero);
      ghost var x := if taken then data[from] else zero;
      assert depunctur[..] == mid[end := x];
      OverwrittenStep(before, at, w, x);
    }

    static lemma PiLength()
      ensures |PI| == 24
    {}

    static lemma KeptPlace(k: nat, n: nat, i: nat)
      requires 1 <= k <= 24 && |PI| == 24 && i < n
      ensures BlockKept(k, n)[i] == Place(PI[k - 1], i % 32)
    {
      hide Vector, PI, Place;
      VectorPlace(k, i % 32);
    }

    static lemma VectorPlace(k: nat, o: nat)
      requires 1 <= k <= 24 && |PI| == 24 && o < 32
      ensures Vector(k)[o] == Place(PI[k - 1], o)
    {
      hide Vector, PI, Pow2;
      ShiftedBit(k, o, TOP_BIT);
    }

    static lemma PrefixCount(a: seq<bool>, b: seq<bool>, i: nat)
      requires i < |b|
      ensures Count(a + b[..i] + [b[i]]) <= Count(a + b)
    {
      hide Count;
      assert a + b == a + b[..i] + [b[i]] + b[i + 1..];
      CountSum(a + b[..i] + [b[i]], b[i + 1..]);
    }
  }

  lemma OverwrittenStep<T>(before: seq<T>, at: nat, w: seq<T>, x: T)
    requires at + |w| < |before|
    ensures Overwritten(before, at, w)[at + |w| := x] == Overwritten(before, at, w + [x])
  {}
}

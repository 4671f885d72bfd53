/** The frequency de-interleaver table of EN 300 401 section 14.6, for every FFT size that is a power of two. */
module FrequencyDeinterleaver {
  import opened Pigeonhole
  import opened Division
  import opened Congruential

  /** FFT sizes: powers of two from 8 on. */
  ghost predicate FftSize(n: int) {
    exists m: nat :: m >= 3 && n == Pow2(m)
  }

  lemma FftSizeFactors(n: int)
    requires FftSize(n)
    ensures n >= 8 && n % 8 == 0 && (n / 4 - 1) % 2 == 1
  {
    var m: nat :| m >= 3 && n == Pow2(m);
    assert n == 2 * Pow2(m - 1) && Pow2(m - 1) == 2 * Pow2(m - 2) && Pow2(m - 2) == 2 * Pow2(m - 3);
    hide Pow2;
    EightTimes(n, Pow2(m - 3));
  }

  lemma EightTimes(n: nat, k: nat)
    requires n == 8 * k && k > 0
    ensures n >= 8 && n % 8 == 0 && (n / 4 - 1) % 2 == 1
  {}

  /** The i-th value of the permutation. */
  function Pi(n: int, i: nat): (p: nat)
    requires n >= 8
    ensures p < n
  {
    Visit(n, n / 4 - 1, i)
  }

  /** The values that name a carrier in use. */
  predicate InUse(n: int, p: int) {
    p > n / 8 - 1 && p < n / 8 * 7 + 1 && p != n / 2
  }

  /** Carriers in use from the lowest up, the central one skipped. */
  function CarrierIndex(n: int, p: int): (j: int) {
    var k := p - n / 2;
    if k < 0 then k + n / 8 * 3 else k + n / 8 * 3 - 1
  }

  function CarrierAt(n: int, j: int): (p: int) {
    if j < n / 8 * 3 then j + n / 8 else j + n / 8 + 1
  }

  lemma CarrierIndexBijective(n: int, p: int)
    requires n % 8 == 0 && n >= 8
    ensures InUse(n, p) ==> 0 <= CarrierIndex(n, p) < n / 4 * 3 && CarrierAt(n, CarrierIndex(n, p)) == p
    ensures 0 <= p < n / 4 * 3 ==> InUse(n, CarrierAt(n, p)) && CarrierIndex(n, CarrierAt(n, p)) == p
  {
    var e := n / 8;
    assert n == 8 * e && n / 4 == 2 * e && n / 2 == 4 * e;
  }

  /** The carriers in use among steps 1 to i - 1, in order of their visit: d_0, d_1, ... of the standard. */
  ghost function Chosen(n: int, i: nat): (s: seq<nat>)
    requires n >= 8
  {
    if i <= 1 then []
    else if InUse(n, Pi(n, i - 1)) then Chosen(n, i - 1) + [Pi(n, i - 1)]
    else Chosen(n, i - 1)
  }

  lemma {:induction false} ChosenVisited(n: int, i: nat, t: nat) returns (j: nat)
    requires n >= 8 && t < |Chosen(n, i)|
    ensures 1 <= j < i && Pi(n, j) == Chosen(n, i)[t] && InUse(n, Pi(n, j))
  {
    if t < |Chosen(n, i - 1)| {
      j := ChosenVisited(n, i - 1, t);
    } else {
      j := i - 1;
    }
  }

  lemma {:induction false} VisitedChosen(n: int, i: nat, j: nat)
    requires n >= 8 && 1 <= j < i && InUse(n, Pi(n, j))
    ensures Pi(n, j) in Chosen(n, i)
  {
    if j < i - 1 {
      VisitedChosen(n, i - 1, j);
    }
  }

  lemma PiDiffer(n: int, i: nat, j: nat)
    requires FftSize(n) && n >= 8 && i < j < n
    ensures Pi(n, i) != Pi(n, j)
  {
    FftSizeFactors(n);
    var m: nat :| m >= 3 && n == Pow2(m);
    VisitsDiffer(m, n, n / 4 - 1, i, j);
  }

  /** A step within the period does not come back to a carrier already chosen. */
  lemma NextIsNew(n: int, i: nat)
    requires FftSize(n) && 8 <= n && 1 <= i < n
    ensures Pi(n, i) !in Chosen(n, i)
  {
    forall t: nat | t < |Chosen(n, i)|
      ensures Chosen(n, i)[t] != Pi(n, i)
    {
      var j := ChosenVisited(n, i, t);
      PiDiffer(n, j, i);
    }
  }

  lemma {:induction false} ChosenInjective(n: int, i: nat)
    requires FftSize(n) && 8 <= n && i <= n
    ensures Injective(Chosen(n, i))
  {
    if i > 1 {
      ChosenInjective(n, i - 1);
      NextIsNew(n, i - 1);
    }
  }

  /** Over the whole period every carrier in use is chosen. */
  lemma AllChosen(n: int, p: nat)
    requires FftSize(n) && 8 <= n && InUse(n, p)
    ensures p in Chosen(n, n)
  {
    FftSizeFactors(n);
    var m: nat :| m >= 3 && n == Pow2(m);
    FullPeriod(m, n, n / 4 - 1);
    assert p in Visits(n, n / 4 - 1, n);
    var j: nat :| j < n && Visits(n, n / 4 - 1, n)[j] == p;
    assert Pi(n, j) == p;
    assert Pi(n, 0) == 0;
    VisitedChosen(n, n, j);
  }

  /** The carriers' table indices in the order of the QPSK symbols. */
  ghost function Indices(n: int): (s: seq<int>)
    requires n >= 8
    ensures |s| == |Chosen(n, n)|
  {
    seq(|Chosen(n, n)|, t requires 0 <= t < |Chosen(n, n)| => CarrierIndex(n, Chosen(n, n)[t]))
  }

  /** The standard's mapping is a bijection: three quarters of n carriers, each index of the table exactly once. */
  lemma IndicesBijective(n: int)
    requires FftSize(n) && n >= 8
    ensures |Chosen(n, n)| == n / 4 * 3
    ensures Injective(Indices(n))
    ensures forall j :: j in Indices(n) <==> 0 <= j < n / 4 * 3
  {
    FftSizeFactors(n);
    IndicesInRange(n);
    IndicesInjective(n);
    forall j | 0 <= j < n / 4 * 3
      ensures j in Indices(n)
    {
      IndexReached(n, j);
    }
    InjectiveSize(Indices(n));
    assert Elements(Indices(n)) == Range(n / 4 * 3);
  }

  lemma IndicesInRange(n: int)
    requires n % 8 == 0 && n >= 8
    ensures forall t :: 0 <= t < |Chosen(n, n)| ==> InUse(n, Chosen(n, n)[t]) && 0 <= Indices(n)[t] < n / 4 * 3
  {
    forall t: nat | t < |Chosen(n, n)|
      ensures InUse(n, Chosen(n, n)[t]) && 0 <= Indices(n)[t] < n / 4 * 3
    {
      var j := ChosenVisited(n, n, t);
      CarrierIndexBijective(n, Pi(n, j));
    }
  }

  lemma IndicesInjective(n: int)
    requires FftSize(n) && n >= 8
    ensures Injective(Indices(n))
  {
    FftSizeFactors(n);
    ChosenInjective(n, n);
    IndicesInRange(n);
    forall t, u | 0 <= t < u < |Indices(n)|
      ensures Indices(n)[t] != Indices(n)[u]
    {
      CarrierIndexBijective(n, Chosen(n, n)[t]);
      CarrierIndexBijective(n, Chosen(n, n)[u]);
    }
  }

  lemma IndexReached(n: int, j: int)
    requires FftSize(n) && n >= 8 && 0 <= j < n / 4 * 3
    ensures j in Indices(n)
  {
    FftSizeFactors(n);
    CarrierIndexBijective(n, j);
    AllChosen(n, CarrierAt(n, j));
    var t: nat :| t < |Chosen(n, n)| && Chosen(n, n)[t] == CarrierAt(n, j);
    assert Indices(n)[t] == j;
  }

  /** Carrier number t of the standard's order has its symbol number t + 1 in the table. */
  ghost predicate Numbered(n: int, tab: seq<int>, i: nat)
    requires n >= 8
  {
    forall t :: 0 <= t < |Chosen(n, i)| ==>
      && 0 <= CarrierIndex(n, Chosen(n, i)[t]) < |tab|
      && tab[CarrierIndex(n, Chosen(n, i)[t])] == t + 1
  }

  method GenerateFrequencyDeInterleaverTab(n: int) returns (tab: array<int>)
    requires FftSize(n)
    ensures fresh(tab) && n >= 8 && tab.Length == n / 4 * 3
    ensures Numbered(n, tab[..], n)
  {
    hide *;
    FftSizeFactors(n);
    tab := new int[n * 3 / 4];
    ThreeQuarters(n);
    var pi, d, k, sym := 0, -1, -1, -1;
    var i := 1;
    TableStart(n, tab[..]);
    while i < n
      invariant 1 <= i <= n
      invariant pi == Pi(n, i - 1) && sym == |Chosen(n, i)| - 1
      invariant Numbered(n, tab[..], i)
    {
      pi := (13 * pi + n / 4 - 1) % n;
      PiStep(n, i);
      var inRange := pi > n / 8 - 1 && pi < n / 8 * 7 + 1 && pi != n / 2;
      d := if inRange then pi else -1;
      k := d - n / 2;
      RangeTests(n, pi, d, k);
      if inRange {
        sym := sym + 1;
      }
      ghost var before := tab[..];
      if k >= -n / 8 * 3 && k <= n / 8 * 3 && k != 0 {
        var index := if k < 0 then k + n / 8 * 3 else k + n / 8 * 3 - 1;
        tab[index] := sym + 1;
      }
      NumberedStep(n, i, before, tab[..]);
      i := i + 1;
    }
  }

  lemma ThreeQuarters(n: int)
    requires n % 8 == 0
    ensures n * 3 / 4 == n / 4 * 3
  {
    var e := n / 8;
    assert n == 8 * e;
    assert n * 3 == 6 * e * 4;
  }

  lemma TableStart(n: int, tab: seq<int>)
    requires n >= 8
    ensures Pi(n, 0) == 0 && Chosen(n, 1) == [] && Numbered(n, tab, 1)
  {}

  lemma PiStep(n: int, i: nat)
    requires n >= 8 && i >= 1
    ensures Pi(n, i) == (13 * Pi(n, i - 1) + n / 4 - 1) % n
    ensures Chosen(n, i + 1) == if InUse(n, Pi(n, i)) then Chosen(n, i) + [Pi(n, i)] else Chosen(n, i)
  {}

  /** The loop's two range tests agree, and its index is the carrier's. */
  lemma RangeTests(n: int, p: nat, d: int, k: int)
    requires n % 8 == 0 && n >= 8 && p < n
    requires d == (if p > n / 8 - 1 && p < n / 8 * 7 + 1 && p != n / 2 then p else -1) && k == d - n / 2
    ensures InUse(n, p) <==> p > n / 8 - 1 && p < n / 8 * 7 + 1 && p != n / 2
    ensures InUse(n, p) <==> k >= -n / 8 * 3 && k <= n / 8 * 3 && k != 0
    ensures InUse(n, p) ==> CarrierIndex(n, p) == if k < 0 then k + n / 8 * 3 else k + n / 8 * 3 - 1
    ensures InUse(n, p) ==> 0 <= CarrierIndex(n, p) < n / 4 * 3
  {
    var e := n / 8;
    assert n == 8 * e && n / 4 == 2 * e && n / 2 == 4 * e && -n / 8 == -e;
  }

  lemma NumberedStep(n: int, i: nat, before: seq<int>, after: seq<int>)
    requires FftSize(n) && n >= 8 && 1 <= i < n && |after| == |before| == n / 4 * 3
    requires Numbered(n, before, i)
    requires InUse(n, Pi(n, i)) ==>
      0 <= CarrierIndex(n, Pi(n, i)) < |before| && after == before[CarrierIndex(n, Pi(n, i)) := |Chosen(n, i)| + 1]
    requires !InUse(n, Pi(n, i)) ==> after == before
    ensures Numbered(n, after, i + 1)
  {
    FftSizeFactors(n);
    NextIsNew(n, i);
    if InUse(n, Pi(n, i)) {
      forall t | 0 <= t < |Chosen(n, i)|
        ensures CarrierIndex(n, Chosen(n, i)[t]) != CarrierIndex(n, Pi(n, i))
      {
        var j := ChosenVisited(n, i, t);
        CarrierIndexBijective(n, Pi(n, j));
        CarrierIndexBijective(n, Pi(n, i));
      }
    }
  }

  /** A complete table numbers the carriers from 1 to 3n/4, without gap or repetition. */
  lemma TableIsPermutation(n: int, tab: seq<int>)
    requires FftSize(n) && n >= 8 && |tab| == n / 4 * 3 && Numbered(n, tab, n)
    ensures |Indices(n)| == |tab|
    ensures forall j :: 0 <= j < |tab| ==> 1 <= tab[j] <= |tab| && Indices(n)[tab[j] - 1] == j
    ensures Injective(tab)
    ensures forall v :: 1 <= v <= |tab| ==> v in tab
  {
    IndicesBijective(n);
    forall j | 0 <= j < |tab|
      ensures 1 <= tab[j] <= |tab| && Indices(n)[tab[j] - 1] == j
    {
      assert j in Indices(n);
      var t: nat :| t < |Indices(n)| && Indices(n)[t] == j;
    }
    forall v | 1 <= v <= |tab|
      ensures v in tab
    {
      assert Indices(n)[v - 1] in Indices(n);
      assert tab[Indices(n)[v - 1]] == v;
    }
  }
}

/** The Viterbi decoder: table set-up, double-buffered add-compare-select, circular traceback. */
module DeViterbi {
  import opened Galois
  import opened Trellis

  const N_STATES := 64
  const MEM_DEPTH := 30

  /** The generator rows as stored. */
  const GEN: seq<nat> := [1, 0, 1, 1, 0, 1, 1, 1, 1, 1, 1, 0, 0, 1, 1, 1, 0, 0, 1, 0, 1, 1, 0, 1, 1, 0, 1, 1]

  /** The first n products of generator row k with the new bit and the state's bits. */
  function RowSum(k: nat, b: nat, s: nat, n: nat): nat
    requires k < 4 && 0 < n <= 7
  {
    if n == 1 then b * GEN[7 * k] else RowSum(k, b, s, n - 1) + StateBit(s, n - 2) * GEN[7 * k + n - 1]
  }

  lemma RowSumIsMotherBit(k: nat, b: nat, s: nat)
    requires k < 4
    ensures RowSum(k, b, s, 7) % 2 == MotherBit(k, b, s)
  {
    hide StateBit, RowSum;
    if k == 0 { RowSum0(b, s); }
    else if k == 1 { RowSum1(b, s); }
    else if k == 2 { RowSum2(b, s); }
    else { RowSum3(b, s); }
  }

  lemma RowSumStep(k: nat, b: nat, s: nat, n: nat, g: nat)
    requires k < 4 && 1 < n <= 7 && GEN[7 * k + n - 1] == g <= 1
    ensures RowSum(k, b, s, n) == RowSum(k, b, s, n - 1) + if g == 1 then StateBit(s, n - 2) else 0
  {
    hide StateBit;
    assert StateBit(s, n - 2) * g == if g == 1 then StateBit(s, n - 2) else 0;
  }

  lemma RowSum0(b: nat, s: nat)
    ensures RowSum(0, b, s, 7) == b + StateBit(s, 1) + StateBit(s, 2) + StateBit(s, 4) + StateBit(s, 5)
  {
    hide StateBit, RowSum;
    RowSumStart(0, b, s);
    RowSumStep(0, b, s, 2, 0);
    RowSumStep(0, b, s, 3, 1);
    RowSumStep(0, b, s, 4, 1);
    RowSumStep(0, b, s, 5, 0);
    RowSumStep(0, b, s, 6, 1);
    RowSumStep(0, b, s, 7, 1);
  }

  lemma RowSum1(b: nat, s: nat)
    ensures RowSum(1, b, s, 7) == b + StateBit(s, 0) + StateBit(s, 1) + StateBit(s, 2) + StateBit(s, 5)
  {
    hide StateBit, RowSum;
    RowSumStart(1, b, s);
    RowSumStep(1, b, s, 2, 1);
    RowSumStep(1, b, s, 3, 1);
    RowSumStep(1, b, s, 4, 1);
    RowSumStep(1, b, s, 5, 0);
    RowSumStep(1, b, s, 6, 0);
    RowSumStep(1, b, s, 7, 1);
  }

  lemma RowSum2(b: nat, s: nat)
    ensures RowSum(2, b, s, 7) == b + StateBit(s, 0) + StateBit(s, 3) + StateBit(s, 5)
  {
    hide StateBit, RowSum;
    RowSumStart(2, b, s);
    RowSumStep(2, b, s, 2, 1);
    RowSumStep(2, b, s, 3, 0);
    RowSumStep(2, b, s, 4, 0);
    RowSumStep(2, b, s, 5, 1);
    RowSumStep(2, b, s, 6, 0);
    RowSumStep(2, b, s, 7, 1);
  }

  lemma RowSum3(b: nat, s: nat)
    ensures RowSum(3, b, s, 7) == b + StateBit(s, 1) + StateBit(s, 2) + StateBit(s, 4) + StateBit(s, 5)
  {
    hide StateBit, RowSum;
    RowSumStart(3, b, s);
    RowSumStep(3, b, s, 2, 0);
    RowSumStep(3, b, s, 3, 1);
    RowSumStep(3, b, s, 4, 1);
    RowSumStep(3, b, s, 5, 0);
    RowSumStep(3, b, s, 6, 1);
    RowSumStep(3, b, s, 7, 1);
  }

  lemma RowSumStart(k: nat, b: nat, s: nat)
    requires k < 4
    ensures RowSum(k, b, s, 1) == b
  {
    if k == 0 { assert GEN[0] == 1; }
    else if k == 1 { assert GEN[7] == 1; }
    else if k == 2 { assert GEN[14] == 1; }
    else { assert GEN[21] == 1; }
  }

  /** b with bit k set. */
  function SetBit(b: Byte, k: nat): (c: Byte)
    requires k < 8
    ensures BitOf(c, k)
    ensures forall j: nat :: j < 8 && j != k ==> BitOf(c, j) == BitOf(b, j)
  {
    match k
    case 0 => b.(b0 := true)
    case 1 => b.(b1 := true)
    case 2 => b.(b2 := true)
    case 3 => b.(b3 := true)
    case 4 => b.(b4 := true)
    case 5 => b.(b5 := true)
    case 6 => b.(b6 := true)
    case _ => b.(b7 := true)
  }

  /** Bit u of the packed output, most significant bit of each byte first. */
  function OutBit(output: seq<Byte>, u: nat): bool
    requires u / 8 < |output|
  {
    BitOf(output[u / 8], 7 - u % 8)
  }

  /** The step whose selections slot c holds when slot p is about to be written at step i; negative if none. */
  function SlotStep(c: nat, p: nat, i: nat): int
    requires c < MEM_DEPTH && p < MEM_DEPTH
  {
    if c < p then i - (p - c) else i - (p + MEM_DEPTH - c)
  }

  /** Where the half of the metrics read at step i begins. */
  function HalfRead(i: nat): nat { if i % 2 == 0 then 0 else N_STATES }

  lemma HalvesSwap(i: nat)
    ensures HalfRead(i) in {0, N_STATES} && HalfRead(i + 1) == N_STATES - HalfRead(i)
  {}

  class DeViterbi {
    const inStat1: array<nat>
    const inStat2: array<nat>
    const refOut1: array<int>
    const refOut2: array<int>
    const pathBuff: array2<nat>
    const accMetricBuff: array<int>
    const zeroTail: array<int>

    ghost predicate Valid() {
      && inStat1.Length == inStat2.Length == N_STATES && inStat1 != inStat2
      && refOut1.Length == refOut2.Length == 4 * N_STATES && refOut1 != refOut2
      && pathBuff.Length0 == N_STATES && pathBuff.Length1 == MEM_DEPTH
      && accMetricBuff.Length == 2 * N_STATES && zeroTail.Length == 120
      && accMetricBuff != zeroTail && accMetricBuff != refOut1 && accMetricBuff != refOut2
      && zeroTail != refOut1 && zeroTail != refOut2
    }

    /** The trellis tables hold the predecessors and the signs of the mother code. */
    ghost predicate Ready()
      requires Valid()
      reads inStat1, inStat2, refOut1, refOut2
    {
      && (forall s :: 0 <= s < N_STATES ==> inStat1[s] == Even(s) && inStat2[s] == Odd(s))
      && (forall s, k :: 0 <= s < N_STATES && 0 <= k < 4 ==>
            && (refOut1[4 * s + k] > 0 <==> MotherBit(k, s / 32, Even(s)) == 0)
            && (refOut2[4 * s + k] > 0 <==> MotherBit(k, s / 32, Odd(s)) == 0))
    }

    /** All of the saved tail but its first four values stays zero. */
    ghost predicate TailClear()
      requires Valid()
      reads zeroTail
    {
      forall k :: 4 <= k < 120 ==> zeroTail[k] == 0
    }

    constructor ()
      ensures Valid() && Ready() && TailClear()
      ensures fresh(accMetricBuff) && fresh(pathBuff) && fresh(zeroTail)
    {
      inStat1 := new nat[N_STATES](_ => 0);
      inStat2 := new nat[N_STATES](_ => 0);
      refOut1 := new int[4 * N_STATES](_ => 0);
      refOut2 := new int[4 * N_STATES](_ => 0);
      pathBuff := new nat[N_STATES, MEM_DEPTH]((_, _) => 0);
      accMetricBuff := new int[2 * N_STATES](_ => 0);
      zeroTail := new int[120](_ => 0);
      new;
      DeViterbiInit();
    }

    method InitStates()
      requires Valid()
      modifies inStat1, inStat2
      ensures forall s :: 0 <= s < N_STATES ==> inStat1[s] == Even(s) && inStat2[s] == Odd(s)
    {
      for i := 0 to N_STATES / 2
        invariant forall s :: 0 <= s < i ==> inStat1[s] == 2 * s && inStat2[s] == 2 * s + 1
        invariant forall s :: 32 <= s < 32 + i ==> inStat1[s] == 2 * (s - 32) && inStat2[s] == 2 * (s - 32) + 1
      {
        var ii := 2 * i;
        inStat1[i] := ii;
        inStat1[i + N_STATES / 2] := ii;
        var iip := ii + 1;
        inStat2[i] := iip;
        inStat2[i + N_STATES / 2] := iip;
      }
    }

    /** The sign sent on output k for input b in state s. */
    method Sign(k: nat, b: nat, s: nat) returns (ref: int)
      requires k < 4 && b < 2
      ensures ref == 1 - 2 * MotherBit(k, b, s)
    {
      hide StateBit, MotherBit;
      var acc := b * GEN[7 * k];
      for x := 1 to 7
        invariant acc == RowSum(k, b, s, x)
      {
        acc := acc + StateBit(s, x - 1) * GEN[7 * k + x];
      }
      RowSumIsMotherBit(k, b, s);
      ref := 1 - 2 * (acc % 2);
    }

    /** The signs on the two branches into state i. */
    method InitSigns(i: nat)
      requires Valid() && i < N_STATES && inStat1[i] == Even(i) && inStat2[i] == Odd(i)
      modifies refOut1, refOut2
      ensures forall k :: 0 <= k < 4 ==>
        && refOut1[4 * i + k] == 1 - 2 * MotherBit(k, i / 32, Even(i))
        && refOut2[4 * i + k] == 1 - 2 * MotherBit(k, i / 32, Odd(i))
      ensures forall j :: 0 <= j < 4 * i ==> refOut1[j] == old(refOut1[j]) && refOut2[j] == old(refOut2[j])
    {
      hide StateBit, MotherBit, Even, Odd;
      var newBit := if i < N_STATES / 2 then 0 else 1;
      for k := 0 to 4
        invariant forall m :: 0 <= m < k ==>
          && refOut1[4 * i + m] == 1 - 2 * MotherBit(m, i / 32, Even(i))
          && refOut2[4 * i + m] == 1 - 2 * MotherBit(m, i / 32, Odd(i))
        invariant forall j :: 0 <= j < 4 * i ==> refOut1[j] == old(refOut1[j]) && refOut2[j] == old(refOut2[j])
      {
        refOut1[4 * i + k] := Sign(k, newBit, inStat1[i]);
        refOut2[4 * i + k] := Sign(k, newBit, inStat2[i]);
      }
    }

    method DeViterbiInit()
      requires Valid()
      modifies inStat1, inStat2, refOut1, refOut2, zeroTail
      ensures Ready() && TailClear()
    {
      hide StateBit, MotherBit, Even, Odd;
      InitStates();
      for i := 0 to N_STATES
        invariant forall s :: 0 <= s < N_STATES ==> inStat1[s] == Even(s) && inStat2[s] == Odd(s)
        invariant forall s, k :: 0 <= s < i && 0 <= k < 4 ==>
          && refOut1[4 * s + k] == 1 - 2 * MotherBit(k, s / 32, Even(s))
          && refOut2[4 * s + k] == 1 - 2 * MotherBit(k, s / 32, Odd(s))
      {
        InitSigns(i);
      }
      forall s, k | 0 <= s < N_STATES && 0 <= k < 4
        ensures MotherBit(k, s / 32, Even(s)) < 2 && MotherBit(k, s / 32, Odd(s)) < 2
      {
        MotherBitIsBit(k, s / 32, Even(s));
        MotherBitIsBit(k, s / 32, Odd(s));
      }
      forall i | 0 <= i < 120 {
        zeroTail[i] := 0;
      }
    }

    // --- decoding ---

    /** One half of the metric buffer holds the metrics after t steps. */
    ghost predicate Metrics(y: seq<int>, half: nat, t: nat)
      requires Valid() && |y| >= 4 && half + N_STATES <= 2 * N_STATES
      reads accMetricBuff
    {
      forall s :: 0 <= s < N_STATES ==> accMetricBuff[half + s] == Best(y, t, s)
    }

    /** Every slot other than the next to be written holds the selections of its step. */
    ghost predicate History(y: seq<int>, p: nat, i: nat)
      requires Valid() && |y| >= 4 && p < MEM_DEPTH
      reads pathBuff
    {
      forall s, c :: 0 <= s < N_STATES && 0 <= c < MEM_DEPTH && c != p && SlotStep(c, p, i) >= 0 ==>
        pathBuff[s, c] == Pred(y, SlotStep(c, p, i) + 1, s)
    }

    ghost predicate Selected(y: seq<int>, p: nat, i: nat)
      requires Valid() && |y| >= 4 && p < MEM_DEPTH
      reads pathBuff
    {
      forall s :: 0 <= s < N_STATES ==> pathBuff[s, p] == Pred(y, i + 1, s)
    }

    /** The four values of step i, from the input or from the saved tail. */
    method ReadSymbol(input: array<int>, size: nat, i: nat) returns (y0: int, y1: int, y2: int, y3: int)
      requires Valid() && 4 <= size <= input.Length
      requires forall k :: 0 <= k < 4 ==> zeroTail[k] == input[size - 4 + k]
      ensures y0 == Received(input[..size], i, 0) && y1 == Received(input[..size], i, 1)
      ensures y2 == Received(input[..size], i, 2) && y3 == Received(input[..size], i, 3)
    {
      if i >= size / 4 {
        y0, y1, y2, y3 := zeroTail[0], zeroTail[1], zeroTail[2], zeroTail[3];
      } else {
        y0, y1, y2, y3 := input[4 * i], input[4 * i + 1], input[4 * i + 2], input[4 * i + 3];
      }
    }

    /** The metric of the branch with the given signs, added to the metric it starts from. */
    method BranchValue(ref: array<int>, index: nat, y0: int, y1: int, y2: int, y3: int, acc: int) returns (value: int)
      requires ref.Length == 4 * N_STATES && index < N_STATES
      ensures value == acc + Signed(ref[4 * index], y0) + Signed(ref[4 * index + 1], y1)
                           + Signed(ref[4 * index + 2], y2) + Signed(ref[4 * index + 3], y3)
    {
      if ref[4 * index] > 0 { value := y0; } else { value := -y0; }
      if ref[4 * index + 1] > 0 { value := value + y1; } else { value := value - y1; }
      if ref[4 * index + 2] > 0 { value := value + y2; } else { value := value - y2; }
      if ref[4 * index + 3] > 0 { value := value + (y3 + acc); } else { value := value - (y3 - acc); }
    }

    /** One step: read one half of the metrics, write the other half and one slot of selections. */
    method AddCompareSelect(input: array<int>, size: nat, i: nat, mRead: nat, mWrite: nat, pLast: nat)
      requires Valid() && Ready() && 4 <= size <= input.Length && input != accMetricBuff
      requires forall k :: 0 <= k < 4 ==> zeroTail[k] == input[size - 4 + k]
      requires (mRead == 0 && mWrite == N_STATES) || (mRead == N_STATES && mWrite == 0)
      requires pLast < MEM_DEPTH && Metrics(input[..size], mRead, i)
      modifies accMetricBuff, pathBuff
      ensures Metrics(input[..size], mWrite, i + 1) && Metrics(input[..size], mRead, i)
      ensures Selected(input[..size], pLast, i)
      ensures forall s, c ::
                0 <= s < N_STATES && 0 <= c < MEM_DEPTH && c != pLast ==> pathBuff[s, c] == old(pathBuff[s, c])
    {
      hide Best, Pred, MotherBit, Branch, Even, Odd, Received;
      ghost var y, t := input[..size], i + 1;
      var y0, y1, y2, y3 := ReadSymbol(input, size, i);
      for index := 0 to N_STATES
        invariant Ready() && input[..size] == y
        invariant forall s :: 0 <= s < N_STATES ==> accMetricBuff[mRead + s] == Best(y, i, s)
        invariant forall s :: 0 <= s < index ==> accMetricBuff[mWrite + s] == Best(y, t, s)
        invariant forall s :: 0 <= s < index ==> pathBuff[s, pLast] == Pred(y, t, s)
        invariant forall s, c ::
                  0 <= s < N_STATES && 0 <= c < MEM_DEPTH && c != pLast ==> pathBuff[s, c] == old(pathBuff[s, c])
      {
        PredecessorsInRange(index);
        var value1 := BranchValue(refOut1, index, y0, y1, y2, y3, accMetricBuff[inStat1[index] + mRead]);
        var value2 := BranchValue(refOut2, index, y0, y1, y2, y3, accMetricBuff[inStat2[index] + mRead]);
        SignsGiveBranch(y, i, index / 32, Even(index), refOut1[4 * index], refOut1[4 * index + 1],
                        refOut1[4 * index + 2], refOut1[4 * index + 3]);
        SignsGiveBranch(y, i, index / 32, Odd(index), refOut2[4 * index], refOut2[4 * index + 1],
                        refOut2[4 * index + 2], refOut2[4 * index + 3]);
        Selection(y, t, index);
        if value1 > value2 {
          accMetricBuff[index + mWrite] := value1;
          pathBuff[index, pLast] := inStat1[index];
        } else {
          accMetricBuff[index + mWrite] := value2;
          pathBuff[index, pLast] := inStat2[index];
        }
      }
    }

    /** The metric buffer, and where it is read past its end the saved tail, which lies behind it. */
    function Cell(at: nat): int
      requires Valid() && at < 2 * N_STATES + 120
      reads accMetricBuff, zeroTail
    {
      if at < 2 * N_STATES then accMetricBuff[at] else zeroTail[at - 2 * N_STATES]
    }

    /** The search for the largest of the values behind the half just written; each is compared one turn late. */
    method PickStart(mWrite: nat, ghost w: seq<int>) returns (pos: nat)
      requires Valid() && mWrite <= N_STATES && |w| == N_STATES - 1
      requires forall k :: 0 <= k < |w| ==> Cell(N_STATES + mWrite + k) == w[k]
      ensures StartsAt(w, pos) && pos < N_STATES
    {
      var at := N_STATES + mWrite;
      pos := 0;
      var posmax := Cell(at);
      ghost var m := 0;
      for x := 1 to N_STATES
        invariant at == N_STATES + mWrite + x - 1 && 0 <= m < |w| && m <= x - 1
        invariant posmax == w[m] && pos == (if m == 0 then 0 else m + 1)
        invariant forall k :: 0 <= k < x - 1 ==> w[k] <= w[m]
        invariant forall k :: 0 <= k < m ==> w[k] < w[m]
      {
        assert Cell(N_STATES + mWrite + (x - 1)) == w[x - 1];
        if Cell(at) > posmax {
          posmax := Cell(at);
          pos := x;
          m := x - 1;
        }
        at := at + 1;
      }
      assert FirstMax(w, m);
    }

    /** Behind the half written at step i lie the metrics before that step or, every other time, the saved tail. */
    lemma BehindTheHalf(y: seq<int>, mRead: nat, mWrite: nat, i: nat)
      requires Valid() && |y| >= 4 && TailClear() && forall k :: 0 <= k < 4 ==> zeroTail[k] == y[|y| - 4 + k]
      requires mRead == HalfRead(i) && mWrite == N_STATES - mRead && Metrics(y, mRead, i)
      ensures forall k :: 0 <= k < N_STATES - 1 ==> Cell(N_STATES + mWrite + k) == ReadBehind(y, i)[k]
    {
      hide Best;
    }

    /** Follow the selections of the last MEM_DEPTH steps back through the circular buffer. */
    method TraceBack(ghost y: seq<int>, start: nat, pLast: nat, ghost i: nat) returns (pos: nat)
      requires Valid() && |y| >= 4 && start < N_STATES && pLast < MEM_DEPTH && i + 1 >= MEM_DEPTH
      requires History(y, pLast, i) && Selected(y, pLast, i)
      ensures pos == Trace(y, i + 1, start, MEM_DEPTH) && pos < N_STATES
    {
      hide Pred;
      pos := start;
      for p := 0 to MEM_DEPTH
        invariant pos < N_STATES && pos == Trace(y, i + 1, start, p)
      {
        TraceInRange(y, i + 1, start, p + 1);
        ghost var c := if pLast < p then pLast + MEM_DEPTH - p else pLast - p;
        assert c != pLast ==> SlotStep(c, pLast, i) == i - p;
        if pLast < p {
          pos := pathBuff[pos, pLast + MEM_DEPTH - p];
        } else {
          pos := pathBuff[pos, pLast - p];
        }
      }
    }

    /** Store one decoded bit; the byte is cleared when its first bit arrives. */
    method PutBit(output: array<Byte>, at: nat, bitShift: nat, bit: bool)
      requires at < output.Length && bitShift < 8
      requires bitShift < 7 ==> Clear(output[at], bitShift + 1)
      modifies output
      ensures forall j :: 0 <= j < output.Length && j != at ==> output[j] == old(output[j])
      ensures BitOf(output[at], bitShift) == bit
      ensures Clear(output[at], bitShift)
      ensures forall k: nat :: bitShift < k < 8 ==> BitOf(output[at], k) == old(BitOf(output[at], k))
    {
      hide SetBit, BitOf;
      if bitShift == 7 {
        output[at] := ZERO;
        ClearByte();
      }
      if bit {
        output[at] := SetBit(output[at], bitShift);
      }
    }

    /** The number of bits decoded from a given number of input values. */
    static function BitCount(size: nat): nat {
      if size / 4 < 8 then size / 4 else 8 * (size / 32)
    }

    /** Decode: every output bit is the newest-but-MEM_DEPTH bit of the best path into the state picked. */
    method DeViterbiProcess(input: array<int>, size: nat, output: array<Byte>) returns (ghost starts: seq<nat>)
      requires Valid() && Ready() && TailClear() && 4 <= size <= input.Length && input != accMetricBuff &&
                input != zeroTail
      requires output.Length >= 1 && output.Length >= size / 32
      modifies accMetricBuff, pathBuff, zeroTail, output
      ensures |starts| == BitCount(size) && DecodedBits(input[..size], starts, output[..]) && TailClear()
    {
      hide Survivor, Best, Pred, OutBit, BitOf, DecodedBits, ReadBehind, StartsAt, Clear, Ready, Metrics, History;
      ghost var y := input[..size];
      var ny4, ny48 := size / 4, size / 4 / 8;
      var mRead: nat, mWrite: nat, pLast: nat, bitShift: nat, outputCounter: nat := 0, N_STATES, MEM_DEPTH - 1, 7, 0;
      Prepare(input, size, y);
      starts := [];
      NothingDecoded(y, output[..]);
      var i := 0;
      while i < ny4 + MEM_DEPTH
        invariant 0 <= i <= ny4 + MEM_DEPTH && input[..size] == y && Stage(y, i, mRead, mWrite, pLast)
        invariant |starts| == if i > MEM_DEPTH then i - MEM_DEPTH else 0
        invariant bitShift < 8 && |starts| == 8 * outputCounter + (7 - bitShift)
        invariant outputCounter < output.Length && (ny48 > 0 ==> outputCounter < ny48)
        invariant bitShift < 7 ==> Clear(output[outputCounter], bitShift + 1)
        invariant DecodedBits(y, starts, output[..])
      {
        ghost var start := Step(input, size, y, i, starts, mRead, mWrite, pLast, output, outputCounter, bitShift);
        if i > MEM_DEPTH - 1 {
          starts := starts + [start];
          if bitShift == 0 {
            outputCounter := outputCounter + 1;
            if outputCounter >= ny48 {
              return;
            }
            bitShift := 7;
          } else {
            bitShift := bitShift - 1;
          }
        }
        pLast := pLast + 1;
        if pLast > MEM_DEPTH - 1 {
          pLast := 0;
        }
        if mRead == 0 {
          mRead, mWrite := N_STATES, 0;
        } else {
          mRead, mWrite := 0, N_STATES;
        }
        i := i + 1;
      }
    }

    /** Clear the metrics and save the last symbol. */
    method Prepare(input: array<int>, size: nat, ghost y: seq<int>)
      requires Valid() && Ready() && TailClear() && 4 <= size <= input.Length && y == input[..size]
      requires input != accMetricBuff && input != zeroTail
      modifies accMetricBuff, zeroTail
      ensures Stage(y, 0, 0, N_STATES, MEM_DEPTH - 1)
    {
      hide Pred;
      forall j | 0 <= j < 2 * N_STATES {
        accMetricBuff[j] := 0;
      }
      BestStart(y);
      hide Best;
      zeroTail[0] := input[size - 4];
      zeroTail[1] := input[size - 3];
      zeroTail[2] := input[size - 2];
      zeroTail[3] := input[size - 1];
    }

    /** Before step i: the metrics of the steps so far in the half to be read, and their selections in the slots. */
    ghost predicate Stage(y: seq<int>, i: nat, mRead: nat, mWrite: nat, pLast: nat)
      requires Valid() && |y| >= 4
      reads inStat1, inStat2, refOut1, refOut2, accMetricBuff, pathBuff, zeroTail
    {
      && Ready() && TailClear() && (forall k :: 0 <= k < 4 ==> zeroTail[k] == y[|y| - 4 + k])
      && mRead == HalfRead(i) && mWrite == N_STATES - mRead
      && pLast < MEM_DEPTH && Metrics(y, mRead, i) && History(y, pLast, i)
    }

    /** Writing one slot leaves the selections in the others. */
    method SelectInto(input: array<int>, size: nat, ghost y: seq<int>, i: nat, mRead: nat, mWrite: nat, pLast: nat)
      requires Valid() && 4 <= size <= input.Length && input != accMetricBuff && y == input[..size]
      requires Stage(y, i, mRead, mWrite, pLast)
      modifies accMetricBuff, pathBuff
      ensures Metrics(y, mWrite, i + 1) && Metrics(y, mRead, i) && Selected(y, pLast, i) && History(y, pLast, i)
    {
      hide Best, Pred, Ready, Metrics, Selected;
      AddCompareSelect(input, size, i, mRead, mWrite, pLast);
    }

    /** One symbol in and, once MEM_DEPTH symbols have been seen, one bit out. */
    method Step(input: array<int>, size: nat, ghost y: seq<int>, i: nat, ghost starts: seq<nat>, mRead: nat,
                mWrite: nat, pLast: nat, output: array<Byte>, at: nat, bitShift: nat) returns (ghost start: nat)
      requires Valid() && 4 <= size <= input.Length && input != accMetricBuff && y == input[..size]
      requires Stage(y, i, mRead, mWrite, pLast)
      requires at < output.Length && bitShift < 8 && |starts| == 8 * at + (7 - bitShift)
      requires |starts| == if i > MEM_DEPTH then i - MEM_DEPTH else 0
      requires (bitShift < 7 ==> Clear(output[at], bitShift + 1)) && DecodedBits(y, starts, output[..])
      modifies accMetricBuff, pathBuff, output
      ensures Stage(y, i + 1, mWrite, mRead, if pLast + 1 == MEM_DEPTH then 0 else pLast + 1)
      ensures i < MEM_DEPTH ==> output[..] == old(output[..])
      ensures i >= MEM_DEPTH ==> DecodedBits(y, starts + [start], output[..]) && Clear(output[at], bitShift)
    {
      hide Survivor, Best, Pred, OutBit, BitOf, DecodedBits, ReadBehind, StartsAt, Clear, Ready, Metrics, History,
           Selected;
      HalvesSwap(i);
      hide HalfRead;
      SelectInto(input, size, y, i, mRead, mWrite, pLast);
      start := 0;
      if i > MEM_DEPTH - 1 {
        start := DecodeBit(y, i, starts, mRead, mWrite, pLast, output, at, bitShift);
      }
      HistoryAdvances(y, pLast, if pLast + 1 == MEM_DEPTH then 0 else pLast + 1, i);
    }

    /** Trace back from the state picked and store the bit found. */
    method DecodeBit(ghost y: seq<int>, ghost i: nat, ghost starts: seq<nat>, ghost mRead: nat, mWrite: nat, pLast: nat,
                     output: array<Byte>, at: nat, bitShift: nat) returns (ghost start: nat)
      requires Valid() && |y| >= 4 && pLast < MEM_DEPTH && i >= MEM_DEPTH && |starts| == i - MEM_DEPTH
      requires History(y, pLast, i) && Selected(y, pLast, i)
      requires TailClear() && forall k :: 0 <= k < 4 ==> zeroTail[k] == y[|y| - 4 + k]
      requires mRead == HalfRead(i) && mWrite == N_STATES - mRead && Metrics(y, mRead, i)
      requires at < output.Length && bitShift < 8 && |starts| == 8 * at + (7 - bitShift)
      requires (bitShift < 7 ==> Clear(output[at], bitShift + 1)) && DecodedBits(y, starts, output[..])
      modifies output
      ensures DecodedBits(y, starts + [start], output[..])
      ensures Clear(output[at], bitShift)
    {
      hide Survivor, Best, Pred, OutBit, BitOf, DecodedBits, Trace, ReadBehind, StartsAt, Cell;
      BehindTheHalf(y, mRead, mWrite, i);
      var from := PickStart(mWrite, ReadBehind(y, i));
      start := from;
      var pos := TraceBack(y, from, pLast, i);
      ghost var before := output[..];
      PutBit(output, at, bitShift, pos > N_STATES / 2 - 1);
      TraceIsSurvivorBit(y, i + 1, start, MEM_DEPTH);
      BitStored(y, starts, start, before, output[..], at, bitShift, pos);
    }

    /** Moving to the next slot: the slot just written joins the history, the oldest leaves it. */
    lemma HistoryAdvances(y: seq<int>, p: nat, p': nat, i: nat)
      requires Valid() && |y| >= 4 && p < MEM_DEPTH && p' == (if p + 1 == MEM_DEPTH then 0 else p + 1)
      requires History(y, p, i) && Selected(y, p, i)
      ensures History(y, p', i + 1)
    {
      hide Pred;
      forall s, c | 0 <= s < N_STATES && 0 <= c < MEM_DEPTH && c != p' && SlotStep(c, p', i + 1) >= 0
        ensures pathBuff[s, c] == Pred(y, SlotStep(c, p', i + 1) + 1, s)
      {
        assert SlotStep(c, p', i + 1) == if c == p then i else SlotStep(c, p, i);
      }
    }
  }

  /** The n low bits of b are clear. */
  ghost predicate Clear(b: Byte, n: nat)
    requires n <= 8
  {
    forall k: nat :: k < n ==> !BitOf(b, k)
  }

  lemma NothingDecoded(y: seq<int>, output: seq<Byte>)
    requires |y| >= 4
    ensures DecodedBits(y, [], output)
  {}

  /** The first of the largest values. */
  ghost predicate FirstMax(w: seq<int>, m: nat) {
    m < |w| && (forall k :: 0 <= k < |w| ==> w[k] <= w[m]) && forall k :: 0 <= k < m ==> w[k] < w[m]
  }

  /** The state picked: one past the first of the largest values, unless that is the very first. */
  ghost predicate StartsAt(w: seq<int>, pos: nat) {
    exists m: nat :: FirstMax(w, m) && pos == if m == 0 then 0 else m + 1
  }

  /** What the search at step i reads in place of the metrics just written. */
  ghost function ReadBehind(y: seq<int>, i: nat): (w: seq<int>)
    requires |y| >= 4
    ensures |w| == N_STATES - 1
  {
    if i % 2 == 1 then seq(N_STATES - 1, s requires 0 <= s => Best(y, i, s))
    else seq(N_STATES - 1, k requires 0 <= k => if k < 4 then y[|y| - 4 + k] else 0)
  }

  /** Bit u of the output is bit u of the selected path to the state picked, MEM_DEPTH steps later. */
  ghost predicate DecodedBit(y: seq<int>, start: nat, u: nat, output: seq<Byte>)
    requires |y| >= 4
  {
    && start < N_STATES && u / 8 < |output| && StartsAt(ReadBehind(y, u + MEM_DEPTH), start)
    && (OutBit(output, u) <==> Survivor(y, u + MEM_DEPTH + 1, start).bits[u] == 1)
  }

  ghost predicate DecodedBits(y: seq<int>, starts: seq<nat>, output: seq<Byte>)
    requires |y| >= 4
  {
    forall u :: 0 <= u < |starts| ==> DecodedBit(y, starts[u], u, output)
  }

  lemma BitStored(y: seq<int>, starts: seq<nat>, start: nat, before: seq<Byte>, after: seq<Byte>, at: nat,
                  bitShift: nat, pos: nat)
    requires |y| >= 4 && start < N_STATES && pos < N_STATES
    requires |before| == |after| && at < |after| && bitShift < 8 && |starts| == 8 * at + (7 - bitShift)
    requires DecodedBits(y, starts, before)
    requires forall j :: 0 <= j < |after| && j != at ==> after[j] == before[j]
    requires BitOf(after[at], bitShift) == (pos > N_STATES / 2 - 1)
    requires forall k: nat :: bitShift < k < 8 ==> BitOf(after[at], k) == BitOf(before[at], k)
    requires Survivor(y, |starts| + MEM_DEPTH + 1, start).bits[|starts|] == pos / 32
    requires StartsAt(ReadBehind(y, |starts| + MEM_DEPTH), start)
    ensures DecodedBits(y, starts + [start], after)
  {
    hide Survivor, BitOf, DecodedBit, StartsAt, ReadBehind;
    forall u | 0 <= u < |starts|
      ensures DecodedBit(y, starts[u], u, after)
    {
      assert DecodedBit(y, starts[u], u, before);
      OlderBitKept(y, starts[u], u, before, after, at, bitShift);
    }
    NewestBit(y, start, |starts|, after, at, bitShift, pos);
  }

  lemma OlderBitKept(y: seq<int>, start: nat, u: nat, before: seq<Byte>, after: seq<Byte>, at: nat, bitShift: nat)
    requires |y| >= 4 && |before| == |after| && at < |after| && bitShift < 8 && u < 8 * at + (7 - bitShift)
    requires DecodedBit(y, start, u, before)
    requires forall j :: 0 <= j < |after| && j != at ==> after[j] == before[j]
    requires forall k: nat :: bitShift < k < 8 ==> BitOf(after[at], k) == BitOf(before[at], k)
    ensures DecodedBit(y, start, u, after)
  {
    hide Survivor, BitOf, StartsAt, ReadBehind;
    if u / 8 == at {
      assert 7 - u % 8 > bitShift;
    }
  }

  lemma NewestBit(y: seq<int>, start: nat, u: nat, after: seq<Byte>, at: nat, bitShift: nat, pos: nat)
    requires |y| >= 4 && start < N_STATES && pos < N_STATES && at < |after| && bitShift < 8 &&
              u == 8 * at + (7 - bitShift)
    requires BitOf(after[at], bitShift) == (pos > N_STATES / 2 - 1)
    requires Survivor(y, u + MEM_DEPTH + 1, start).bits[u] == pos / 32 && StartsAt(ReadBehind(y, u + MEM_DEPTH), start)
    ensures DecodedBit(y, start, u, after)
  {
    hide Survivor, BitOf, StartsAt, ReadBehind;
    assert u / 8 == at && 7 - u % 8 == bitShift;
  }

  lemma BestStart(y: seq<int>)
    requires |y| >= 4
    ensures forall s :: 0 <= s < N_STATES ==> Best(y, 0, s) == 0
  {}

  lemma ClearByte()
    ensures forall k: nat :: k < 8 ==> !BitOf(ZERO, k)
  {}

  function Signed(ref: int, y: int): int {
    if ref > 0 then y else -y
  }

  lemma PredecessorsInRange(s: nat)
    requires s < N_STATES
    ensures Even(s) < N_STATES && Odd(s) < N_STATES
  {}

  lemma SignsGiveBranch(y: seq<int>, i: nat, b: nat, s: nat, r0: int, r1: int, r2: int, r3: int)
    requires |y| >= 4
    requires (r0 > 0 <==> MotherBit(0, b, s) == 0) && (r1 > 0 <==> MotherBit(1, b, s) == 0)
    requires (r2 > 0 <==> MotherBit(2, b, s) == 0) && (r3 > 0 <==> MotherBit(3, b, s) == 0)
    ensures Branch(y, i, b, s) == Signed(r0, Received(y, i, 0)) + Signed(r1, Received(y, i, 1))
                                + Signed(r2, Received(y, i, 2)) + Signed(r3, Received(y, i, 3))
  {
    hide MotherBit, Received;
  }

  lemma Selection(y: seq<int>, t: nat, s: nat)
    requires |y| >= 4 && t > 0
    ensures var v1 := Best(y, t - 1, Even(s)) + Branch(y, t - 1, s / 32, Even(s));
            var v2 := Best(y, t - 1, Odd(s)) + Branch(y, t - 1, s / 32, Odd(s));
            && Best(y, t, s) == (if v1 > v2 then v1 else v2)
            && Pred(y, t, s) == (if v1 > v2 then Even(s) else Odd(s))
  {
    hide Branch, Even, Odd;
  }

  lemma MotherBitIsBit(k: nat, b: nat, s: nat)
    requires k < 4
    ensures MotherBit(k, b, s) < 2
  {
    hide StateBit;
  }
}

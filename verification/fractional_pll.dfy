/** The divider and sigma-delta arithmetic of the tuner's fractional synthesiser. */
module FractionalPll {
  import opened Division

  const VCO_MIN: nat := 1770000
  const VCO_MAX: nat := 3540000

  /** The output divider: the power of two that brings the frequency into the oscillator's octave. */
  method CalculateDivider(freqKhz: nat) returns (mixDiv: nat, divNum: nat)
    ensures DividerFor(freqKhz, mixDiv)
    ensures mixDiv <= 64 ==> mixDiv == Pow2(divNum + 1)
    ensures mixDiv > 64 ==> mixDiv == 128 && divNum == 0
  {
    hide Pow2;
    mixDiv, divNum := 2, 0;
    while mixDiv <= 64
      invariant mixDiv in {2, 4, 8, 16, 32, 64, 128} && divNum == 0
      invariant freqKhz * 2 >= VCO_MAX || freqKhz * mixDiv < VCO_MAX
      invariant mixDiv == 2 || freqKhz * (mixDiv / 2) < VCO_MIN || freqKhz * 2 >= VCO_MAX
    {
      if freqKhz * mixDiv >= VCO_MIN && freqKhz * mixDiv < VCO_MAX {
        divNum := DivNum(mixDiv);
        break;
      }
      mixDiv := mixDiv * 2;
    }
  }

  method DivNum(mixDiv: nat) returns (divNum: nat)
    requires mixDiv in {2, 4, 8, 16, 32, 64}
    ensures mixDiv == Pow2(divNum + 1)
  {
    var divBuf := mixDiv;
    divNum := 0;
    assert Pow2(0) == 1;
    while divBuf > 2
      invariant divBuf in {2, 4, 8, 16, 32, 64} && mixDiv == divBuf * Pow2(divNum)
    {
      divBuf := divBuf / 2;
      divNum := divNum + 1;
    }
  }

  const U32: nat := 0x1_0000_0000

  /** Twice the reference, in 32 bits. */
  function Twice(pllRef: nat): nat { 2 * pllRef % U32 }

  /** The integer part of the multiplier, which has only eight bits. */
  function IntegerPart(vcoFreq: nat, pllRef: nat): (n: nat)
    requires Twice(pllRef) > 0
    ensures n < 256 && n * Twice(pllRef) <= vcoFreq
  {
    var q := vcoFreq / Twice(pllRef);
    assert q * Twice(pllRef) <= vcoFreq;
    MulMonotone(q % 256, q, Twice(pllRef));
    q % 256
  }

  /** The part of the oscillator frequency, in kHz, left to the sigma-delta modulator; the product has 32 bits. */
  function VcoFraction(vcoFreq: nat, pllRef: nat): (f: nat)
    requires Twice(pllRef) > 0
    ensures vcoFreq < 128 * U32 ==> f < U32
  {
    var product := IntegerPart(vcoFreq, pllRef) * Twice(pllRef);
    assert product % U32 <= product;
    (vcoFreq - product % U32) / 1000
  }

  function Khz(hz: nat): nat { (hz + 500) % U32 / 1000 }

  /** No bits are lost: the multiplier fits its eight, and its product with twice the reference 32. */
  predicate Fits(vcoFreq: nat, pllRef: nat)
    requires pllRef > 0
  {
    vcoFreq < 512 * pllRef && 2 * pllRef * (vcoFreq / (2 * pllRef)) < U32
  }

  /** The fraction is at most twice the reference exactly when no bits are lost. */
  lemma BoundedIffFits(vcoFreq: nat, pllRef: nat)
    requires 2 <= pllRef < 0x4000_0000
    ensures VcoFraction(vcoFreq, pllRef) <= 2 * Khz(pllRef) <==> Fits(vcoFreq, pllRef)
  {
    var t: nat := 2 * pllRef;
    var q: nat, m: nat := Quotient(vcoFreq, t), vcoFreq % t;
    var n := q % 256;
    assert n == IntegerPart(vcoFreq, pllRef);
    BoundedParts(vcoFreq, pllRef, t, q, m, q / 256, n, Quotient(n * t, U32));
  }

  ghost function Quotient(a: nat, b: nat): nat
    requires b > 0
  {
    a / b
  }

  lemma BoundedParts(vcoFreq: nat, pllRef: nat, t: nat, q: nat, m: nat, j: nat, n: nat, w: nat)
    requires 2 <= pllRef < 0x4000_0000 && t == 2 * pllRef && q == Quotient(vcoFreq, t) && m == vcoFreq % t
    requires j == q / 256 && n == q % 256 == IntegerPart(vcoFreq, pllRef) && w == Quotient(n * t, U32)
    ensures VcoFraction(vcoFreq, pllRef) <= 2 * Khz(pllRef) <==> Fits(vcoFreq, pllRef)
  {
    assert q == vcoFreq / t && w == n * t / U32;
    hide *;
    Parts(vcoFreq, t, q, m, j, n);
    FractionSize(pllRef, m, j, w);
    FractionOfParts(vcoFreq, pllRef, m, j * t, n, w);
    FitsParts(vcoFreq, pllRef, q, m, j, w);
  }

  lemma Parts(vcoFreq: nat, t: nat, q: nat, m: nat, j: nat, n: nat)
    requires t > 0 && q == vcoFreq / t && m == vcoFreq % t && j == q / 256 && n == q % 256
    ensures vcoFreq == m + q * t && q * t == 256 * (j * t) + n * t
  {
    assert q == 256 * j + n;
    assert (256 * j + n) * t == 256 * (j * t) + n * t;
  }

  lemma FractionOfParts(vcoFreq: nat, pllRef: nat, m: nat, jt: nat, n: nat, w: nat)
    requires 2 <= pllRef < 0x4000_0000 && n == IntegerPart(vcoFreq, pllRef) && w == n * (2 * pllRef) / U32
    requires vcoFreq == m + 256 * jt + n * (2 * pllRef)
    ensures VcoFraction(vcoFreq, pllRef) == (m + 256 * jt + U32 * w) / 1000
  {
    hide IntegerPart;
    var product := n * (2 * pllRef);
    assert product == U32 * w + product % U32;
  }

  lemma FitsParts(vcoFreq: nat, pllRef: nat, q: nat, m: nat, j: nat, w: nat)
    requires pllRef > 0 && q == vcoFreq / (2 * pllRef) && m < 2 * pllRef && vcoFreq == m + q * (2 * pllRef)
    requires j == q / 256 && w == q % 256 * (2 * pllRef) / U32
    ensures Fits(vcoFreq, pllRef) <==> j == 0 && w == 0
  {
    var t: nat := 2 * pllRef;
    assert Fits(vcoFreq, pllRef) <==> vcoFreq < 256 * t && q * t < U32;
    hide *;
    if q < 256 {
      MulGap(q, 256, t);
      NoCarry(q * t);
    } else {
      MulMonotone(256, q, t);
    }
  }

  lemma NoCarry(product: nat)
    ensures product / U32 == 0 <==> product < U32
    ensures product < U32 ==> product % U32 == product
  {}

  /** A remainder below twice the reference, and what the lost bits of the multiplier and of the product add to it. */
  lemma FractionSize(pllRef: nat, m: nat, j: nat, w: nat)
    requires 2 <= pllRef < 0x4000_0000 && m < 2 * pllRef
    ensures (m + 256 * (j * (2 * pllRef)) + U32 * w) / 1000 <= 2 * Khz(pllRef) <==> j == 0 && w == 0
  {
    if j > 0 {
      MulMonotone(1, j, 2 * pllRef);
    }
  }

  /** The tuner's own multiplier: 128 when there is no divider. */
  ghost predicate DividerFor(freqKhz: nat, mixDiv: nat) {
    && (mixDiv <= 64 <==> 27657 <= freqKhz < 1770000)
    && (mixDiv <= 64 ==> VCO_MIN <= freqKhz * mixDiv < VCO_MAX)
    && (mixDiv in {2, 4, 8, 16, 32, 64, 128})
  }

  /** With any reference from 8.39 MHz to 1.07 GHz the fraction is bounded exactly for frequencies that round to
      less than 1770 MHz; above, there is no divider and bits are lost. */
  lemma BoundedIffTunable(freq: nat, pllRef: nat, mixDiv: nat)
    requires freq < U32 && 0x80_0000 <= pllRef < 0x4000_0000 && DividerFor(Khz(freq), mixDiv)
    ensures Fits(freq * mixDiv, pllRef) <==> freq < 1769999500
    ensures VcoFraction(freq * mixDiv, pllRef) <= 2 * Khz(pllRef) <==> freq < 1769999500
  {
    var vco := freq * mixDiv;
    BoundedIffFits(vco, pllRef);
    if freq < 1769999500 {
      LowFrequency(freq, mixDiv);
    } else {
      NoDivider(freq, mixDiv);
    }
    hide *;
    FitsSize(vco, pllRef);
  }

  lemma FitsSize(vco: nat, pllRef: nat)
    requires 0x80_0000 <= pllRef < 0x4000_0000
    ensures vco < 3_600_000_000 ==> Fits(vco, pllRef)
    ensures vco >= 128 * 1769999500 ==> !Fits(vco, pllRef)
  {
    var t := 2 * pllRef;
    var q, m := vco / t, vco % t;
    assert vco == t * q + m && m < t;
  }

  lemma NoDivider(freq: nat, mixDiv: nat)
    requires 1769999500 <= freq < U32 && DividerFor(Khz(freq), mixDiv)
    ensures mixDiv == 128
  {}

  lemma LowFrequency(freq: nat, mixDiv: nat)
    requires freq < 1769999500 && DividerFor(Khz(freq), mixDiv)
    ensures freq * mixDiv < 3_600_000_000
  {
    if mixDiv <= 64 {
      assert freq <= 1000 * Khz(freq) + 499;
      MulMonotone(freq, 1000 * Khz(freq) + 499, mixDiv);
    }
  }

  /** A 28.8 MHz reference and 1850 MHz: the multiplier 4111 is cut to 15, which the tuner accepts, and the fraction
      is 235936000 kHz where the reference allows 57600. */
  lemma FractionUnbounded()
    ensures DividerFor(Khz(1850000000), 128) && IntegerPart(1850000000 * 128, 28800000) == 15
    ensures VcoFraction(1850000000 * 128, 28800000) == 235936000 && 2 * Khz(28800000) == 57600
  {}

  /** The sigma-delta loop at n_sdm = 2^k with fra left does not divide by an n_sdm shifted to zero. */
  ghost predicate Safe(fra: nat, pllRefKhz: nat, k: nat)
    requires 1 <= k <= 16
    decreases 16 - k
  {
    if fra <= 1 then true
    else if k == 16 then false
    else if fra > 2 * pllRefKhz / Pow2(k) then k == 15 || Safe(fra - 2 * pllRefKhz / Pow2(k), pllRefKhz, k + 1)
    else Safe(fra, pllRefKhz, k + 1)
  }

  lemma {:induction false} SmallReferenceIsSafe(fra: nat, pllRefKhz: nat, k: nat)
    requires 1 <= k <= 16 && pllRefKhz < 32768 && (k == 16 ==> fra <= 1)
    ensures Safe(fra, pllRefKhz, k)
    decreases 16 - k
  {
    if fra > 1 {
      var q := 2 * pllRefKhz / Pow2(k);
      if k == 15 {
        LastDivisor();
        assert q <= 1;
      } else if fra > q {
        SmallReferenceIsSafe(fra - q, pllRefKhz, k + 1);
      } else {
        SmallReferenceIsSafe(fra, pllRefKhz, k + 1);
      }
    }
  }

  lemma LastDivisor()
    ensures Pow2(15) == 32768
  {
    assert Pow2(7) == 128 && Pow2(8) == 256;
    Pow2Sum(7, 8);
  }

  lemma {:induction false} LargeReferenceIsUnsafe(pllRefKhz: nat, k: nat)
    requires 1 <= k <= 16 && pllRefKhz >= 32768
    ensures !Safe(2, pllRefKhz, k)
    decreases 16 - k
  {
    if k < 16 {
      LastDivisor();
      Pow2Sum(k, 15 - k);
      LargeReferenceIsUnsafe(pllRefKhz, k + 1);
      TwoFits(pllRefKhz, Pow2(k), Pow2(15 - k));
    }
  }

  lemma TwoFits(pllRefKhz: nat, p: nat, q: nat)
    requires p > 0 && q > 0 && p * q == 32768 && pllRefKhz >= 32768
    ensures 2 * pllRefKhz / p >= 2
  {
    MulMonotone(1, q, p);
    DivMonotone(2 * p, 2 * pllRefKhz, p);
    QuotientUnique(2 * p, 2, 0, p);
  }

  /** The same from the outside: 983.041 MHz and a reference of 32.768 MHz pass the check on the integer part, leave a
      fraction of 2, and divide by zero. */
  lemma DivisionReached()
    ensures DividerFor(Khz(983041000), 2) && IntegerPart(983041000 * 2, 32768000) == 30
    ensures VcoFraction(983041000 * 2, 32768000) == 2 && Khz(32768000) == 32768
    ensures !Safe(2, 32768, 1)
  {
    hide Safe;
    LargeReferenceIsUnsafe(32768, 1);
  }

  /** Every fraction is safe exactly for references below 32768 kHz. */
  lemma SafeIffSmallReference(pllRefKhz: nat)
    ensures (forall fra: nat :: Safe(fra, pllRefKhz, 1)) <==> pllRefKhz < 32768
  {
    if pllRefKhz < 32768 {
      forall fra: nat
        ensures Safe(fra, pllRefKhz, 1)
      {
        SmallReferenceIsSafe(fra, pllRefKhz, 1);
      }
    } else {
      LargeReferenceIsUnsafe(pllRefKhz, 1);
    }
  }

  function Over(a: nat, b: nat): nat { if a > b then a - b else 0 }

  /** The sigma-delta word for a fraction; ok is false where the source would divide by zero. */
  method SdmWord(vcoFra: nat, pllRefKhz: nat) returns (sdm: nat, ok: bool)
    ensures ok == Safe(vcoFra, pllRefKhz, 1)
    ensures sdm < 65536
    ensures ok && pllRefKhz < 32768 ==>
              -15 * 65536 <= 65536 * vcoFra - sdm * (2 * pllRefKhz) <= (16 + Over(vcoFra, 2 * pllRefKhz)) * 65536
  {
    hide Safe, SdmError, Pow2, Over, LeftBound;
    var n: nat, fra: nat := 2, vcoFra;
    sdm, ok := 0, true;
    ghost var r: nat := 2 * pllRefKhz;
    ghost var over: nat := Over(vcoFra, r);
    ghost var k: nat, taken: nat := 1, 0;
    SdmStart(vcoFra, r);
    BoundStart(vcoFra, r);
    while fra > 1
      invariant 1 <= k <= 16 && n == (if k == 16 then 0 else Pow2(k))
      invariant ok && Safe(vcoFra, pllRefKhz, 1) == Safe(fra, pllRefKhz, k)
      invariant sdm + Pow2(17 - k) <= 65536
      invariant 0 <= taken < k && SdmError(vcoFra, fra, sdm, r, taken)
      invariant LeftBound(fra, r, k, taken + over)
      decreases 16 - k
    {
      SafeStep(fra, pllRefKhz, k);
      if n == 0 {
        ok := false;
        break;
      }
      Weight(k);
      TakeError(vcoFra, fra, sdm, r, taken, n, Pow2(16 - k));
      BoundNext(fra, r, k, taken + over);
      NextWord(sdm, Pow2(16 - k));
      if fra > 2 * pllRefKhz / n {
        sdm := (sdm + 32768 / (n / 2)) % 65536;
        fra := fra - 2 * pllRefKhz / n;
        taken := taken + 1;
        if n >= 32768 {
          BoundEnd(fra, r, taken + over);
          break;
        }
      }
      n := n * 2 % 65536;
      k := k + 1;
    }
    if fra <= 1 {
      SafeWhenSmall(fra, pllRefKhz, k);
    }
    SdmEnd(vcoFra, fra, sdm, r, taken, over);
  }

  lemma NextWord(sdm: nat, d: nat)
    requires d > 0 && sdm + 2 * d <= 65536
    ensures (sdm + d) % 65536 == sdm + d
  {}

  /** What is left of the fraction before the step for 2^k, if c units have been lost to rounding or were too much. */
  ghost predicate LeftBound(fra: nat, r: nat, k: nat, c: nat)
    requires k > 0
  {
    fra <= r / Pow2(k - 1) + c
  }

  lemma BoundStart(vcoFra: nat, r: nat)
    ensures LeftBound(vcoFra, r, 1, Over(vcoFra, r))
  {
    assert Pow2(0) == 1;
  }

  lemma BoundNext(fra: nat, r: nat, k: nat, c: nat)
    requires k > 0 && LeftBound(fra, r, k, c)
    ensures if fra > r / Pow2(k) then LeftBound(fra - r / Pow2(k), r, k + 1, c + 1) else LeftBound(fra, r, k + 1, c)
  {
    assert Pow2(k) == 2 * Pow2(k - 1);
    hide Pow2;
    TakeBound(fra, r, Pow2(k - 1), c);
  }

  lemma BoundEnd(fra: nat, r: nat, c: nat)
    ensures LeftBound(fra, r, 16, c) && r < 65536 ==> fra <= 1 + c
  {
    LastDivisor();
  }

  lemma SdmStart(vcoFra: nat, r: nat)
    ensures Pow2(0) == 1 && Pow2(1) == 2 && Pow2(16) == 65536 && SdmError(vcoFra, vcoFra, 0, r, 0)
  {
    assert Pow2(8) == 256;
    Pow2Sum(8, 8);
  }

  lemma SdmEnd(vcoFra: nat, fra: nat, sdm: nat, r: nat, taken: nat, over: nat)
    requires SdmError(vcoFra, fra, sdm, r, taken) && taken <= 15
    ensures fra <= 16 + over ==> -15 * 65536 <= 65536 * vcoFra - sdm * r <= (16 + over) * 65536
  {}

  lemma SafeWhenSmall(fra: nat, pllRefKhz: nat, k: nat)
    requires 1 <= k <= 16 && fra <= 1
    ensures Safe(fra, pllRefKhz, k)
  {}

  lemma SafeStep(fra: nat, pllRefKhz: nat, k: nat)
    requires 1 <= k <= 16 && fra > 1
    ensures Safe(fra, pllRefKhz, k) ==
      if k == 16 then false
      else if fra > 2 * pllRefKhz / Pow2(k) then k == 15 || Safe(fra - 2 * pllRefKhz / Pow2(k), pllRefKhz, k + 1)
      else Safe(fra, pllRefKhz, k + 1)
  {}

  /** The word's weight of n_sdm = 2^k, and the next n_sdm. */
  lemma Weight(k: nat)
    requires 1 <= k <= 15
    ensures Pow2(k) == 2 * Pow2(k - 1) && Pow2(k) * Pow2(16 - k) == 65536 && Pow2(17 - k) == 2 * Pow2(16 - k)
    ensures 32768 / (Pow2(k) / 2) == Pow2(16 - k)
    ensures Pow2(k) >= 32768 <==> k == 15
    ensures Pow2(k) * 2 % 65536 == if k == 15 then 0 else Pow2(k + 1)
  {
    LastDivisor();
    Pow2Sum(k - 1, 16 - k);
    Pow2Sum(k, 15 - k);
    PowerDoubles(k - 1);
    PowerDoubles(16 - k);
    if k < 15 {
      PowerDoubles(k);
      PowerDoubles(14 - k);
    }
    hide *;
    WeightOf(k, Pow2(k - 1), Pow2(16 - k), Pow2(15 - k));
    if k < 15 {
      DoubleFits(Pow2(k), Pow2(14 - k));
    }
  }

  lemma PowerDoubles(k: nat)
    ensures Pow2(k + 1) == 2 * Pow2(k)
  {}

  lemma WeightOf(k: nat, p: nat, d: nat, e: nat)
    requires p > 0 && p * d == 32768 && 2 * p * e == 32768
    ensures 2 * p * d == 65536 && 32768 / (2 * p / 2) == d
  {
    Halving(p, d);
  }

  lemma Halving(p: nat, d: nat)
    requires p > 0 && p * d == 32768
    ensures 32768 / p == d && 2 * p * d == 65536
  {
    QuotientUnique(32768, d, 0, p);
  }

  lemma DoubleFits(p: nat, q: nat)
    requires q > 0 && p * (2 * q) == 32768
    ensures p < 32768 && p * 2 < 65536
  {
    MulMonotone(2, 2 * q, p);
  }

  lemma TakeError(vcoFra: nat, fra: nat, sdm: nat, r: nat, taken: nat, n: nat, d: nat)
    requires SdmError(vcoFra, fra, sdm, r, taken) && n * d == 65536
    ensures n > 0 && d > 0 && (fra > r / n ==> SdmError(vcoFra, fra - r / n, sdm + d, r, taken + 1))
  {
    var q, m := r / n, r % n;
    assert r == n * q + m;
    assert d * r == 65536 * q + d * m by {
      assert d * (n * q) == n * d * q;
    }
    assert d * m <= 65536 by { MulMonotone(m, n, d); }
    assert (sdm + d) * r == sdm * r + d * r;
  }

  lemma TakeBound(fra: nat, r: nat, p: nat, taken: nat)
    requires p > 0
    ensures fra <= r / p + taken && fra > r / (2 * p) ==> fra - r / (2 * p) <= r / (2 * p) + taken + 1
  {
    var q, m := r / (2 * p), r % (2 * p);
    assert r == 2 * p * q + m;
    if m < p {
      QuotientUnique(r, 2 * q, m, p);
    } else {
      QuotientUnique(r, 2 * q + 1, m - p, p);
    }
  }

  /** After taken steps the word accounts for what has been subtracted, up to one unit for each step's rounding. */
  ghost predicate SdmError(vcoFra: nat, fra: nat, sdm: nat, r: nat, taken: nat) {
    0 <= sdm * r - 65536 * (vcoFra - fra) <= 65536 * taken
  }

  // --- the words for a frequency ---

  datatype Words = NoValidValues | DivisionByZero | Words(integer: nat, sdm: nat, sdmOff: bool)

  /** The words set for a frequency. For frequencies below 1770 MHz and any reference between 8.39 and 32.7675 MHz they
      stand for an oscillator frequency 16 kHz above to 18 kHz below the wanted one. */
  method PllWords(freq: nat, xtal: nat, vcoPowerRef: nat) returns (mixDiv: nat, w: Words)
    requires freq < U32 && xtal < U32 && vcoPowerRef in {1, 2}
    ensures DividerFor(Khz(freq), mixDiv)
    ensures w == NoValidValues <==> Twice(xtal) > 0 && IntegerPart(freq * mixDiv, xtal) >= 128 / vcoPowerRef
    ensures w == DivisionByZero <==>
              Twice(xtal) == 0 || (w != NoValidValues && !Safe(VcoFraction(freq * mixDiv, xtal), Khz(xtal), 1))
    ensures w.Words? ==> Twice(xtal) > 0 && w.integer == IntegerPart(freq * mixDiv, xtal) && w.sdm < 65536
    ensures w.Words? ==> (w.sdmOff <==> VcoFraction(freq * mixDiv, xtal) == 0)
    ensures 0x80_0000 <= xtal < 32767500 && freq < 1769999500 ==> w != DivisionByZero
    ensures w.Words? && 0x80_0000 <= xtal < 32767500 && freq < 1769999500 ==>
              Accurate(freq * mixDiv, w.integer * (2 * xtal), w.sdm * (2 * xtal))
  {
    hide Safe, IntegerPart, VcoFraction, Accurate, DividerFor, Pow2;
    var divNum;
    mixDiv, divNum := CalculateDivider(Khz(freq));
    if Twice(xtal) == 0 {
      return mixDiv, DivisionByZero;
    }
    var vcoFreq := freq * mixDiv;
    var nint, vcoFra := IntegerPart(vcoFreq, xtal), VcoFraction(vcoFreq, xtal);
    if nint > 128 / vcoPowerRef - 1 {
      w := NoValidValues;
    } else {
      var sdm, ok := SdmWord(vcoFra, Khz(xtal));
      w := if ok then Words(nint, sdm, vcoFra == 0) else DivisionByZero;
      if 0x80_0000 <= xtal < 32767500 && freq < 1769999500 {
        SmallReferenceIsSafe(vcoFra, Khz(xtal), 1);
        BoundedIffTunable(freq, xtal, mixDiv);
        WordsAccurate(vcoFreq, xtal, nint, vcoFra, sdm);
      }
    }
  }

  /** The oscillator frequency, the integer part's share of it, and 65536 times the modulator's. */
  predicate Accurate(vcoFreq: int, whole: int, scaled: int) {
    -16000 * 65536 <= 65536 * (vcoFreq - whole) - scaled <= 18000 * 65536
  }

  lemma WordsAccurate(vcoFreq: nat, xtal: nat, nint: nat, vcoFra: nat, sdm: nat)
    requires 0x80_0000 <= xtal < 32767500 && nint == IntegerPart(vcoFreq, xtal) && vcoFra == VcoFraction(vcoFreq, xtal)
    requires Fits(vcoFreq, xtal) && sdm < 65536
    requires -15 * 65536 <= 65536 * vcoFra - sdm * (2 * Khz(xtal)) <= 16 * 65536
    ensures Accurate(vcoFreq, nint * (2 * xtal), sdm * (2 * xtal))
  {
    var khz: nat, t: nat := Khz(xtal), 2 * xtal;
    Whole(vcoFreq, xtal);
    hide *;
    var d: int := t - 2000 * khz;
    OffsetProduct(sdm, khz, t, d);
    ScaledError(sdm, d);
    ErrorSum(vcoFreq, nint * t, vcoFra, sdm * (2 * khz), sdm * d);
  }

  lemma OffsetProduct(sdm: nat, khz: nat, t: nat, d: int)
    requires d == t - 2000 * khz
    ensures sdm * t == 1000 * (sdm * (2 * khz)) + sdm * d
  {
    assert sdm * (2000 * khz + d) == sdm * (2000 * khz) + sdm * d;
  }

  lemma ErrorSum(vcoFreq: nat, whole: nat, fra: nat, scaled: int, offset: int)
    requires whole <= vcoFreq && fra == (vcoFreq - whole) / 1000
    requires -15 * 65536 <= 65536 * fra - scaled <= 16 * 65536 && -1000 * 65536 <= offset <= 998 * 65536
    ensures Accurate(vcoFreq, whole, 1000 * scaled + offset)
  {}

  /** Where no bits are lost the parts are quotient and remainder. */
  lemma Whole(vcoFreq: nat, xtal: nat)
    requires 0x80_0000 <= xtal < 32767500 && Fits(vcoFreq, xtal)
    ensures IntegerPart(vcoFreq, xtal) * (2 * xtal) <= vcoFreq
    ensures VcoFraction(vcoFreq, xtal) == (vcoFreq - IntegerPart(vcoFreq, xtal) * (2 * xtal)) / 1000
    ensures -1000 <= 2 * xtal - 2000 * Khz(xtal) <= 998
  {
    var t: nat := 2 * xtal;
    assert Twice(xtal) == t;
    WholePart(vcoFreq, xtal);
    hide IntegerPart;
    NoCarry(IntegerPart(vcoFreq, xtal) * t);
  }

  lemma WholePart(vcoFreq: nat, xtal: nat)
    requires 0x80_0000 <= xtal < 32767500 && Fits(vcoFreq, xtal)
    ensures IntegerPart(vcoFreq, xtal) * (2 * xtal) < U32
  {
    var t: nat := 2 * xtal;
    var q, m := vcoFreq / t, vcoFreq % t;
    Parts(vcoFreq, t, q, m, q / 256, q % 256);
    FitsParts(vcoFreq, xtal, q, m, q / 256, q % 256 * t / U32);
    assert IntegerPart(vcoFreq, xtal) == q % 256;
    hide *;
    NoCarry(q % 256 * t);
  }

  lemma ScaledError(sdm: nat, d: int)
    requires sdm < 65536 && -1000 <= d <= 998
    ensures -1000 * 65536 <= sdm * d <= 998 * 65536
  {
    assert sdm * (d + 1000) >= 0 && sdm * (998 - d) >= 0;
  }

  /** The register that holds the integer part: its distance from 13 in units of four, then the rest in the top bits. */
  function IntegerRegister(nint: nat): (reg: nat)
    requires nint < 256
    ensures reg < 256
  {
    var ni := (if nint >= 13 then (nint - 13) / 4 else -((13 - nint) / 4)) % 256;
    var si := (nint - 4 * ni - 13) % 256;
    (ni + si * 64) % 256
  }

  /** The fields of the register stand for the integer part exactly when it is at least 13. */
  lemma IntegerReadBack(nint: nat)
    requires nint < 128
    ensures 13 + 4 * (IntegerRegister(nint) % 64) + IntegerRegister(nint) / 64 == nint <==> nint >= 13
  {
    if nint >= 13 {
      var ni, si := (nint - 13) / 4, (nint - 13) % 4;
      Fields(nint, ni, si);
      hide IntegerRegister;
      QuotientUnique(ni + si * 64, si, ni, 64);
    }
  }

  lemma Fields(nint: nat, ni: nat, si: nat)
    requires 13 <= nint < 128 && ni == (nint - 13) / 4 && si == (nint - 13) % 4
    ensures IntegerRegister(nint) == ni + si * 64 && nint == 13 + 4 * ni + si
  {
    assert nint == 4 * ni + si + 13 && ni <= 28 && ni % 256 == ni && si % 256 == si;
    assert ni + si * 64 < 256;
  }
}

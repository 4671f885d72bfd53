/** The convolutional code of EN 300 401 section 11.1 as a law between the bits put in and the bits sent. */
module MotherCode {
  import opened Division
  import opened Trellis
  import opened DeViterbi

  /** Nothing but its six bits is in a state. */
  lemma StateIsItsBits(s: nat)
    requires s < 64
    ensures s == 32 * StateBit(s, 0) + 16 * StateBit(s, 1) + 8 * StateBit(s, 2) + 4 * StateBit(s, 3)
                 + 2 * StateBit(s, 4) + StateBit(s, 5)
  {
    HalfAgain(s, 2);
    HalfAgain(s, 4);
    HalfAgain(s, 8);
    HalfAgain(s, 16);
    SixHalves(s, s / 2, s / 4, s / 8, s / 16, s / 32);
  }

  lemma SixHalves(s: nat, h1: nat, h2: nat, h3: nat, h4: nat, h5: nat)
    requires s == 2 * h1 + s % 2 && h1 == 2 * h2 + h1 % 2 && h2 == 2 * h3 + h2 % 2 && h3 == 2 * h4 + h3 % 2
    requires h4 == 2 * h5 + h4 % 2 && h5 < 2
    ensures s == 32 * (h5 % 2) + 16 * (h4 % 2) + 8 * (h3 % 2) + 4 * (h2 % 2) + 2 * (h1 % 2) + s % 2
  {}

  lemma StateBitIsBit(s: nat, delay: nat)
    requires delay < 6
    ensures StateBit(s, delay) < 2
  {}

  lemma HalfAgain(s: nat, p: nat)
    requires p in {2, 4, 8, 16}
    ensures s / p == 2 * (s / (2 * p)) + s / p % 2
  {
    HalfQuotient(s, p);
    HalfOfQuotient(s, p);
  }

  lemma HalfOfQuotient(s: nat, p: nat)
    requires p in {2, 4, 8, 16}
    ensures s / 2 / p == s / p / 2
  {}

  lemma BitsOfSum(s: nat, b0: nat, b1: nat, b2: nat, b3: nat, b4: nat, b5: nat)
    requires b0 < 2 && b1 < 2 && b2 < 2 && b3 < 2 && b4 < 2 && b5 < 2
    requires s == 32 * b0 + 16 * b1 + 8 * b2 + 4 * b3 + 2 * b4 + b5
    ensures StateBit(s, 0) == b0 && StateBit(s, 1) == b1 && StateBit(s, 2) == b2
    ensures StateBit(s, 3) == b3 && StateBit(s, 4) == b4 && StateBit(s, 5) == b5
  {
    assert s / 2 == 16 * b0 + 8 * b1 + 4 * b2 + 2 * b3 + b4 && s / 4 == 8 * b0 + 4 * b1 + 2 * b2 + b3;
    assert s / 8 == 4 * b0 + 2 * b1 + b2 && s / 16 == 2 * b0 + b1 && s / 32 == b0;
  }

  /** The state is a shift register: the new bit enters first, the others move one place, the last is lost. */
  lemma ShiftRegister(s: nat, b: nat, delay: nat)
    requires s < 64 && b < 2 && delay < 5
    ensures Next(s, b) < 64 && StateBit(Next(s, b), 0) == b && StateBit(Next(s, b), delay + 1) == StateBit(s, delay)
  {
    StateIsItsBits(s);
    StateBitIsBit(s, 0);
    StateBitIsBit(s, 1);
    StateBitIsBit(s, 2);
    StateBitIsBit(s, 3);
    StateBitIsBit(s, 4);
    var s0, s1, s2, s3, s4 := StateBit(s, 0), StateBit(s, 1), StateBit(s, 2), StateBit(s, 3), StateBit(s, 4);
    var t := Next(s, b);
    assert s == 2 * (16 * s0 + 8 * s1 + 4 * s2 + 2 * s3 + s4) + StateBit(s, 5);
    assert t == 32 * b + 16 * s0 + 8 * s1 + 4 * s2 + 2 * s3 + s4;
    hide StateBit, Next;
    BitsOfSum(t, b, s0, s1, s2, s3, s4);
  }

  /** The bit put in at step t of a path; before step 0 those the start state holds. */
  function InputAt(start: nat, bits: seq<nat>, t: int): nat
    requires -6 <= t < |bits|
  {
    if t >= 0 then bits[t] else StateBit(start, -1 - t)
  }

  /** After any path the state holds the last six bits put in. */
  lemma {:induction false} StateHoldsInputs(start: nat, bits: seq<nat>, delay: nat)
    requires start < 64 && Bits(bits) && delay < 6
    ensures StateBit(End(start, bits), delay) == InputAt(start, bits, |bits| - 1 - delay)
  {
    hide Next, StateBit;
    if bits != [] {
      var last := |bits| - 1;
      EndInRange(start, bits[..last]);
      if delay > 0 {
        StateHoldsInputs(start, bits[..last], delay - 1);
        ShiftRegister(End(start, bits[..last]), bits[last], delay - 1);
      } else {
        ShiftRegister(End(start, bits[..last]), bits[last], 0);
      }
    }
  }

  /** The generator polynomials 133, 171, 145 and 133 (octal), delay 0 in the highest of seven bits. */
  function Generator(k: nat): nat
    requires k < 4
  {
    match k
    case 1 => 1 * 64 + 7 * 8 + 1
    case 2 => 1 * 64 + 4 * 8 + 5
    case _ => 1 * 64 + 3 * 8 + 3
  }

  /** Whether generator k takes in the bit put in delay steps before. */
  function Tap(k: nat, delay: nat): nat
    requires k < 4 && delay < 7
  {
    Generator(k) / Pow2(6 - delay) % 2
  }

  /** The bits put in at steps t, t - 1, ..., t - n + 1 that generator k takes in. */
  function TapSum(k: nat, start: nat, bits: seq<nat>, t: nat, n: nat): nat
    requires k < 4 && t < |bits| && n <= 7
  {
    if n == 0 then 0
    else TapSum(k, start, bits, t, n - 1) + InputAt(start, bits, t - (n - 1)) * Tap(k, n - 1)
  }

  /** The stored rows are the generators. */
  lemma RowsAreGenerators(k: nat, delay: nat)
    requires k < 4 && delay < 7
    ensures GEN[7 * k + delay] == Tap(k, delay)
  {
    PowersToSixtyFour();
    hide Pow2;
    if k == 0 { FirstRow(k, delay); }
    else if k == 1 { SecondRow(k, delay); }
    else if k == 2 { ThirdRow(k, delay); }
    else { FourthRow(k, delay); }
  }

  lemma PowersToSixtyFour()
    ensures Pow2(0) == 1 && Pow2(1) == 2 && Pow2(2) == 4 && Pow2(3) == 8 && Pow2(4) == 16 && Pow2(5) == 32
    ensures Pow2(6) == 64
  {}

  lemma FirstRow(k: nat, delay: nat)
    requires k == 0 && delay < 7
    ensures GEN[7 * k + delay] == Tap(k, delay)
  {
    PowersToSixtyFour();
    hide Pow2;
  }

  lemma SecondRow(k: nat, delay: nat)
    requires k == 1 && delay < 7
    ensures GEN[7 * k + delay] == Tap(k, delay)
  {
    PowersToSixtyFour();
    hide Pow2;
  }

  lemma ThirdRow(k: nat, delay: nat)
    requires k == 2 && delay < 7
    ensures GEN[7 * k + delay] == Tap(k, delay)
  {
    PowersToSixtyFour();
    hide Pow2;
  }

  lemma FourthRow(k: nat, delay: nat)
    requires k == 3 && delay < 7
    ensures GEN[7 * k + delay] == Tap(k, delay)
  {
    PowersToSixtyFour();
    hide Pow2;
  }

  lemma {:induction false} TapSumIsRowSum(k: nat, start: nat, bits: seq<nat>, t: nat, n: nat)
    requires k < 4 && start < 64 && Bits(bits) && t < |bits| && 0 < n <= 7
    ensures TapSum(k, start, bits, t, n) == RowSum(k, bits[t], End(start, bits[..t]), n)
  {
    hide StateBit, Tap, GEN, End;
    RowsAreGenerators(k, n - 1);
    if n > 1 {
      TapSumIsRowSum(k, start, bits, t, n - 1);
      StateHoldsInputs(start, bits[..t], n - 2);
      assert InputAt(start, bits[..t], t - (n - 1)) == InputAt(start, bits, t - (n - 1));
    } else {
      assert TapSum(k, start, bits, t, 0) == 0;
    }
  }

  /** Output k at step t is the parity of generator k against the bits put in at steps t to t - 6. */
  lemma CodeLaw(k: nat, start: nat, bits: seq<nat>, t: nat)
    requires k < 4 && start < 64 && Bits(bits) && t < |bits|
    ensures MotherBit(k, bits[t], End(start, bits[..t])) == TapSum(k, start, bits, t, 7) % 2
  {
    hide *;
    TapSumIsRowSum(k, start, bits, t, 7);
    RowSumIsMotherBit(k, bits[t], End(start, bits[..t]));
  }
}

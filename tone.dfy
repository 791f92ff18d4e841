/**
 * ToneUnit: one bit window of square-wave audio (`generate_bit`) and its
 * classification by counting zero crossings (`detect_bit`).
 */
module Tone {
  import opened KcsTypes

  /** The carrier for a bit: 1200 Hz for bit 0, 2400 Hz for any other value. */
  function ToneFreq(bit: int): (f: nat)
    ensures f == TONE_FREQ_1200 || f == TONE_SPACE_2400
    ensures f == TONE_FREQ_1200 <==> bit == 0
  {
    if bit == 0 then TONE_FREQ_1200 else TONE_SPACE_2400
  }

  /**
   * Sample i of a bit window. With a cycle of SAMPLE_RATE / f samples, the
   * position of i inside its cycle is below half a cycle exactly when
   * (i * f) mod SAMPLE_RATE < SAMPLE_RATE / 2; that half is +32767, the other -32768.
   * The value depends on i and the bit only: no phase is carried between windows.
   */
  function ToneSample(bit: int, i: nat): (v: int16)
    ensures v == 32767 || v == -32768
  {
    if bit == 0 then
      (if (i * TONE_FREQ_1200) % SAMPLE_RATE < SAMPLE_RATE / 2 then 32767 else -32768)
    else
      (if (i * TONE_SPACE_2400) % SAMPLE_RATE < SAMPLE_RATE / 2 then 32767 else -32768)
  }

  /** The spb samples that `generate_bit` writes for one bit. */
  function Window(bit: int, spb: nat): (w: seq<int16>)
    ensures |w| == spb
    ensures forall i :: 0 <= i < spb ==> w[i] == 32767 || w[i] == -32768
  {
    seq(spb, i requires 0 <= i < spb => ToneSample(bit, i))
  }

  /** A sign change between consecutive samples; a sample >= 0 counts as non-negative. */
  predicate IsCrossing(a: int16, b: int16): (r: bool)
    ensures r <==> (a < 0) != (b < 0)
  {
    (a < 0 && b >= 0) || (a >= 0 && b < 0)
  }

  /** Number of sign changes between consecutive samples of w (offsets 1..|w|-1). */
  function Crossings(w: seq<int16>): (zc: nat)
    ensures |w| <= 1 ==> zc == 0
    ensures |w| >= 1 ==> zc <= |w| - 1
  {
    if |w| <= 1 then 0
    else Crossings(w[..|w| - 1]) + (if IsCrossing(w[|w| - 2], w[|w| - 1]) then 1 else 0)
  }

  /**
   * The bit `detect_bit` reports for window w. With spb = |w| and zc crossings the
   * frequency estimate is zc * 44100 / (2 * spb); it is strictly nearer 2400 than
   * 1200 exactly when it exceeds 1800, that is when zc * 49 > 4 * spb. For an empty
   * window the estimate is 0/0 and the comparison is false, which this rule also gives.
   */
  function Classify(w: seq<int16>): (bit: nat)
    ensures bit <= 1
    ensures |w| == 0 ==> bit == 0
  {
    if Crossings(w) * 49 > 4 * |w| then 1 else 0
  }

  function RealAbs(x: real): real
  {
    if x < 0.0 then -x else x
  }

  /** The estimated frequency of a window with zc crossings over spb samples. */
  function FreqEstimate(zc: nat, spb: nat): (f: real)
    requires spb >= 1
    ensures f >= 0.0
    ensures f == 0.0 <==> zc == 0
  {
    (zc as real * SAMPLE_RATE as real) / (2.0 * spb as real)
  }

  /** Classify is the nearest-tone rule on the exact frequency estimate; ties go to 0. */
  lemma ClassifyNearestTone(w: seq<int16>)
    requires |w| >= 1
    ensures var f := FreqEstimate(Crossings(w), |w|);
            Classify(w) == 1 <==> RealAbs(f - TONE_SPACE_2400 as real) < RealAbs(f - TONE_FREQ_1200 as real)
  {
    var zc := Crossings(w);
    var f := FreqEstimate(zc, |w|);
    NearerMarkIffAbove1800(f);
    EstimateAbove1800(zc, |w|);
  }

  lemma NearerMarkIffAbove1800(f: real)
    ensures RealAbs(f - 2400.0) < RealAbs(f - 1200.0) <==> f > 1800.0
  {
  }

  lemma EstimateAbove1800(zc: nat, spb: nat)
    requires spb >= 1
    ensures FreqEstimate(zc, spb) > 1800.0 <==> zc * 49 > 4 * spb
  {
    var x := zc as real * 44100.0;
    var d := 2.0 * spb as real;
    DivAbove(x, d, 1800.0);
    assert x > 1800.0 * d <==> (zc * 49) as real > (4 * spb) as real;
  }

  lemma DivAbove(x: real, d: real, c: real)
    requires d > 0.0
    ensures x / d > c <==> x > c * d
  {
    var q := x / d;
    assert q * d == x;
    if q > c {
      assert q * d > c * d;
    } else {
      assert q * d <= c * d;
    }
  }

  /** How many half cycles of the carrier have begun by sample i: `2 * i * f / SAMPLE_RATE`. */
  function HalfCycles(bit: int, i: nat): nat
  {
    if bit == 0 then (2 * TONE_FREQ_1200 * i) / SAMPLE_RATE else (2 * TONE_SPACE_2400 * i) / SAMPLE_RATE
  }

  /** Sample i is high exactly when an even number of half cycles has begun. */
  lemma HighIffEvenHalfCycles(bit: int, i: nat)
    ensures ToneSample(bit, i) >= 0 <==> HalfCycles(bit, i) % 2 == 0
  {
    var x := i * ToneFreq(bit);
    assert 2 * x == 2 * ToneFreq(bit) * i;
    HalfOfCycle(x);
  }

  /** Position x of a cycle of SAMPLE_RATE is in its first half exactly when 2 * x / SAMPLE_RATE is even. */
  lemma HalfOfCycle(x: nat)
    ensures x % SAMPLE_RATE < SAMPLE_RATE / 2 <==> ((2 * x) / SAMPLE_RATE) % 2 == 0
  {
    var a, r := x / 44100, x % 44100;
    assert x == 44100 * a + r;
    assert 2 * x == 44100 * (2 * a) + 2 * r;
    if r < 22050 {
      assert (2 * x) / 44100 == 2 * a;
    } else {
      assert 2 * x == 44100 * (2 * a + 1) + (2 * r - 44100);
      assert (2 * x) / 44100 == 2 * a + 1;
    }
  }

  /** One sample step begins at most one new half cycle (2 * f < SAMPLE_RATE). */
  lemma HalfCyclesStep(bit: int, i: nat)
    requires i >= 1
    ensures HalfCycles(bit, i) == HalfCycles(bit, i - 1) || HalfCycles(bit, i) == HalfCycles(bit, i - 1) + 1
  {
    assert 2 * ToneFreq(bit) * i == 2 * ToneFreq(bit) * (i - 1) + 2 * ToneFreq(bit);
  }

  /** Consecutive samples i - 1 and i differ in sign exactly when sample i begins a new half cycle. */
  lemma CrossingIffNewHalfCycle(bit: int, i: nat)
    requires i >= 1
    ensures IsCrossing(ToneSample(bit, i - 1), ToneSample(bit, i)) <==> HalfCycles(bit, i) == HalfCycles(bit, i - 1) + 1
  {
    HighIffEvenHalfCycles(bit, i - 1);
    HighIffEvenHalfCycles(bit, i);
    HalfCyclesStep(bit, i);
  }

  /** A synthesized window of spb samples has exactly HalfCycles(bit, spb - 1) crossings. */
  lemma WindowCrossings(bit: int, spb: nat)
    requires spb >= 1
    ensures Crossings(Window(bit, spb)) == HalfCycles(bit, spb - 1)
  {
    var w := Window(bit, spb);
    var h := seq(spb, i requires 0 <= i < spb => HalfCycles(bit, i));
    forall i | 1 <= i < spb
      ensures StepCounted(w, h, i)
    {
      CrossingIffNewHalfCycle(bit, i);
      HalfCyclesStep(bit, i);
    }
    CountedCrossings(w, h);
  }

  /** Between samples i - 1 and i the count h grows by one at a crossing of w and stays put otherwise. */
  predicate StepCounted(w: seq<int16>, h: seq<nat>, i: nat)
    requires 1 <= i < |w| == |h|
  {
    if IsCrossing(w[i - 1], w[i]) then h[i] == h[i - 1] + 1 else h[i] == h[i - 1]
  }

  /** A count that starts at 0 and follows every step of w ends at the number of crossings of w. */
  lemma {:induction false} CountedCrossings(w: seq<int16>, h: seq<nat>)
    requires 1 <= |w| == |h| && h[0] == 0
    requires forall i :: 1 <= i < |w| ==> StepCounted(w, h, i)
    ensures Crossings(w) == h[|w| - 1]
  {
    if |w| >= 2 {
      var n := |w| - 1;
      forall i | 1 <= i < n
        ensures StepCounted(w[..n], h[..n], i)
      {
        assert StepCounted(w, h, i);
      }
      CountedCrossings(w[..n], h[..n]);
      assert StepCounted(w, h, n);
    }
  }

  /** A 1200 Hz window classifies as bit 0 for every window length. */
  lemma SpaceAlwaysClassifiesZero(spb: nat)
    ensures Classify(Window(0, spb)) == 0
  {
    if spb >= 1 {
      WindowCrossings(0, spb);
    }
  }

  /**
   * The window lengths for which a 2400 Hz window classifies as bit 1: its
   * crossing count floor(4800 * (spb - 1) / 44100) must exceed 4 * spb / 49.
   */
  predicate MarkReliable(spb: nat)
  {
    spb >= 1 && ((2 * (spb - 1) * TONE_SPACE_2400) / SAMPLE_RATE) * 49 > 4 * spb
  }

  /** A 2400 Hz window classifies as bit 1 exactly for the window lengths MarkReliable admits. */
  lemma MarkClassifiesOne(spb: nat)
    ensures Classify(Window(1, spb)) == 1 <==> MarkReliable(spb)
  {
    if spb >= 1 {
      WindowCrossings(1, spb);
    }
  }

  /** Every bit window of at least 41 samples is reliable, and so are the 36 samples of 1200 baud. */
  lemma MarkReliableLengths(spb: nat)
    ensures spb >= 41 ==> MarkReliable(spb)
    ensures MarkReliable(36) && MarkReliable(147)
    ensures !MarkReliable(18) && !MarkReliable(9)
  {
  }

  /** With a reliable window length, classification inverts synthesis for bits 0 and 1. */
  lemma ToneRoundTrip(bit: nat, spb: nat)
    requires bit <= 1 && MarkReliable(spb)
    ensures Classify(Window(bit, spb)) == bit
  {
    if bit == 0 {
      SpaceAlwaysClassifiesZero(spb);
    } else {
      MarkClassifiesOne(spb);
    }
  }

  /** `generate_bit`: writes one window of bit at index and returns the advanced index. */
  method GenerateBit(samples: array<int16>, index: nat, bit: int, spb: nat) returns (next: nat)
    requires index + spb <= samples.Length
    modifies samples
    ensures next == index + spb
    ensures samples[index..next] == Window(bit, spb)
    ensures samples[..index] == old(samples[..index])
    ensures samples[next..] == old(samples[next..])
  {
    next := index;
    var i := 0;
    while i < spb
      invariant 0 <= i <= spb && next == index + i
      invariant forall k :: index <= k < next ==> samples[k] == ToneSample(bit, k - index)
      invariant forall k :: 0 <= k < index ==> samples[k] == old(samples[k])
      invariant forall k :: next <= k < samples.Length ==> samples[k] == old(samples[k])
    {
      samples[next] := if bit == 0 then
        (if (i * TONE_FREQ_1200) % SAMPLE_RATE < SAMPLE_RATE / 2 then 32767 else -32768)
      else
        (if (i * TONE_SPACE_2400) % SAMPLE_RATE < SAMPLE_RATE / 2 then 32767 else -32768);
      next := next + 1;
      i := i + 1;
    }
    assert samples[index..next] == Window(bit, spb);
  }

  /**
   * `detect_bit`: counts the crossings of the window samples[start..start+spb] in a
   * loop, then applies the nearest-tone rule. A null array is only ever passed with spb == 0.
   */
  method DetectBit(samples: array?<int16>, start: nat, spb: nat) returns (bit: nat)
    requires samples == null ==> spb == 0
    requires samples != null ==> start + spb <= samples.Length
    ensures samples != null ==> bit == Classify(samples[start..start + spb])
    ensures samples == null ==> bit == 0
  {
    var zeroCrossings := 0;
    var i := start + 1;
    while i < start + spb
      invariant spb >= 1 ==> start + 1 <= i <= start + spb
      invariant spb >= 1 ==> zeroCrossings == Crossings(samples[start..i])
      invariant spb == 0 ==> zeroCrossings == 0
    {
      assert samples[start..i + 1][..i - start] == samples[start..i];
      if (samples[i - 1] < 0 && samples[i] >= 0) || (samples[i - 1] >= 0 && samples[i] < 0) {
        zeroCrossings := zeroCrossings + 1;
      }
      i := i + 1;
    }
    bit := if zeroCrossings * 49 > 4 * spb then 1 else 0;
  }
}

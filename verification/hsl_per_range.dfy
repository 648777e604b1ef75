/**
 * `applyHslPerRange`: eight hue ranges centred at 0, 1/8, ..., 7/8 of a turn, each
 * with its own hue, saturation and lightness adjustment. A pixel gets the average of
 * the adjustments weighted by a Gaussian of its hue's circular distance to each centre.
 */
module HslPerRange {
  import opened Color
  import opened Kernels
  import opened Hsv
  import Stages

  /** `NUM_RANGES`, and the length of the `hueAdjust`/`satAdjust`/`lumAdjust` uniforms. */
  const NumRanges: nat := 8

  const Sigma: real := 0.08

  /** The centre of range `i`, `float(i) / float(NUM_RANGES)`. */
  function CenterHue(i: nat): real { i as real / NumRanges as real }

  /** The Gaussian weight of range `i` for a pixel of hue `hue`. */
  function Weight(hue: real, i: nat, k: Builtins): real
  {
    var dist := Stages.CircularDistance(hue, CenterHue(i));
    k.exp(-k.pow(dist, 2.0) / (2.0 * Sigma * Sigma))
  }

  /** The eight weights of a pixel of hue `hue`, range by range. */
  function Weights(hue: real, k: Builtins): seq<real>
  {
    seq(NumRanges, i requires 0 <= i => Weight(hue, i, k))
  }

  /** With a positive `exp` every weight is positive. */
  lemma WeightsPositive(hue: real, k: Math)
    ensures forall i :: 0 <= i < |Weights(hue, k)| ==> 0.0 < Weights(hue, k)[i]
  {}

  /** The first `n` weights, summed in loop order. */
  function TotalWeight(ws: seq<real>, n: nat): real
    requires n <= |ws|
  {
    if n == 0 then 0.0 else TotalWeight(ws, n - 1) + ws[n - 1]
  }

  /** The first `n` adjustments times their weights, summed in loop order. */
  function WeightedSum(ws: seq<real>, adjust: seq<real>, n: nat): real
    requires n <= |ws| && n <= |adjust|
  {
    if n == 0 then 0.0 else WeightedSum(ws, adjust, n - 1) + ws[n - 1] * adjust[n - 1]
  }

  /**
   * The loop of `applyHslPerRange`: accumulate the three weighted shifts and the total
   * weight over the eight ranges.
   */
  method AccumulateShifts(hue: real, hueAdjust: seq<real>, satAdjust: seq<real>, lumAdjust: seq<real>, k: Builtins)
    returns (hShift: real, sShift: real, lShift: real, totalWeight: real)
    requires |hueAdjust| == NumRanges && |satAdjust| == NumRanges && |lumAdjust| == NumRanges
    ensures hShift == WeightedSum(Weights(hue, k), hueAdjust, NumRanges)
    ensures sShift == WeightedSum(Weights(hue, k), satAdjust, NumRanges)
    ensures lShift == WeightedSum(Weights(hue, k), lumAdjust, NumRanges)
    ensures totalWeight == TotalWeight(Weights(hue, k), NumRanges)
  {
    var ws := Weights(hue, k);
    totalWeight, hShift, sShift, lShift := 0.0, 0.0, 0.0, 0.0;
    for i := 0 to NumRanges
      invariant hShift == WeightedSum(ws, hueAdjust, i)
      invariant sShift == WeightedSum(ws, satAdjust, i)
      invariant lShift == WeightedSum(ws, lumAdjust, i)
      invariant totalWeight == TotalWeight(ws, i)
    {
      var weight := Weight(hue, i, k);
      SumStep(ws, hueAdjust, i, weight);
      SumStep(ws, satAdjust, i, weight);
      SumStep(ws, lumAdjust, i, weight);
      hShift := hShift + weight * hueAdjust[i];
      sShift := sShift + weight * satAdjust[i];
      lShift := lShift + weight * lumAdjust[i];
      totalWeight := totalWeight + weight;
    }
  }

  /** One more loop step: the next weight `w` joins both sums. */
  lemma SumStep(ws: seq<real>, adjust: seq<real>, i: nat, w: real)
    requires i < |ws| && i < |adjust| && w == ws[i]
    ensures TotalWeight(ws, i + 1) == TotalWeight(ws, i) + w
    ensures WeightedSum(ws, adjust, i + 1) == WeightedSum(ws, adjust, i) + w * adjust[i]
  {}

  /** Positive weights have a positive total. */
  lemma {:induction false} TotalWeightPositive(ws: seq<real>, n: nat)
    requires 0 < n <= |ws|
    requires forall i :: 0 <= i < |ws| ==> 0.0 < ws[i]
    ensures 0.0 < TotalWeight(ws, n)
  {
    if n > 1 {
      TotalWeightPositive(ws, n - 1);
    }
  }

  /** The normalised shift of one adjustment array: its weighted average. */
  function Shift(hue: real, adjust: seq<real>, k: Math): real
    requires |adjust| == NumRanges
  {
    WeightsPositive(hue, k);
    TotalWeightPositive(Weights(hue, k), NumRanges);
    WeightedSum(Weights(hue, k), adjust, NumRanges) / TotalWeight(Weights(hue, k), NumRanges)
  }

  /** Positive weights on adjustments at least `lo` keep the weighted sum at least `lo` times the total. */
  lemma {:induction false} WeightedSumAbove(ws: seq<real>, adjust: seq<real>, n: nat, lo: real)
    requires n <= |ws| && n <= |adjust|
    requires forall i :: 0 <= i < |ws| ==> 0.0 < ws[i]
    requires forall i :: 0 <= i < |adjust| ==> lo <= adjust[i]
    ensures lo * TotalWeight(ws, n) <= WeightedSum(ws, adjust, n)
  {
    if n > 0 {
      WeightedSumAbove(ws, adjust, n - 1, lo);
      StepAbove(lo, TotalWeight(ws, n - 1), ws[n - 1], adjust[n - 1], WeightedSum(ws, adjust, n - 1),
                TotalWeight(ws, n), WeightedSum(ws, adjust, n));
    }
  }

  /** Positive weights on adjustments at most `hi` keep the weighted sum at most `hi` times the total. */
  lemma {:induction false} WeightedSumBelow(ws: seq<real>, adjust: seq<real>, n: nat, hi: real)
    requires n <= |ws| && n <= |adjust|
    requires forall i :: 0 <= i < |ws| ==> 0.0 < ws[i]
    requires forall i :: 0 <= i < |adjust| ==> adjust[i] <= hi
    ensures WeightedSum(ws, adjust, n) <= hi * TotalWeight(ws, n)
  {
    if n > 0 {
      WeightedSumBelow(ws, adjust, n - 1, hi);
      StepBelow(hi, TotalWeight(ws, n - 1), ws[n - 1], adjust[n - 1], WeightedSum(ws, adjust, n - 1),
                TotalWeight(ws, n), WeightedSum(ws, adjust, n));
    }
  }

  /** One more positive weight `w` on an adjustment `a >= lo` keeps the sum above `lo` times the total. */
  lemma StepAbove(lo: real, t: real, w: real, a: real, s: real, t': real, s': real)
    requires 0.0 < w && lo <= a && lo * t <= s
    requires t' == t + w && s' == s + w * a
    ensures lo * t' <= s'
  {
    MulMonotone(lo, a, w);
    assert lo * (t + w) == lo * t + w * lo;
  }

  /** One more positive weight `w` on an adjustment `a <= hi` keeps the sum below `hi` times the total. */
  lemma StepBelow(hi: real, t: real, w: real, a: real, s: real, t': real, s': real)
    requires 0.0 < w && a <= hi && s <= hi * t
    requires t' == t + w && s' == s + w * a
    ensures s' <= hi * t'
  {
    MulMonotone(a, hi, w);
    assert hi * (t + w) == hi * t + w * hi;
  }

  /** The shift is a weighted average: it lies between the smallest and the largest adjustment. */
  lemma ShiftBetween(hue: real, adjust: seq<real>, k: Math, lo: real, hi: real)
    requires |adjust| == NumRanges
    requires forall i :: 0 <= i < |adjust| ==> lo <= adjust[i] <= hi
    ensures lo <= Shift(hue, adjust, k) <= hi
  {
    var ws := Weights(hue, k);
    WeightsPositive(hue, k);
    WeightedSumAbove(ws, adjust, NumRanges, lo);
    WeightedSumBelow(ws, adjust, NumRanges, hi);
    TotalWeightPositive(ws, NumRanges);
    DivideBetween(WeightedSum(ws, adjust, NumRanges), TotalWeight(ws, NumRanges), lo, hi);
  }

  lemma DivideBetween(s: real, t: real, lo: real, hi: real)
    requires 0.0 < t && lo * t <= s <= hi * t
    ensures lo <= s / t <= hi
  {
    assert s / t * t == s;
    if s / t < lo {
      MulStrictMonotone(s / t, lo, t);
    }
    if hi < s / t {
      MulStrictMonotone(hi, s / t, t);
    }
  }

  /** When all eight ranges carry the same adjustment `a`, every pixel is shifted by exactly `a`. */
  lemma ShiftOfUniform(hue: real, adjust: seq<real>, k: Math, a: real)
    requires |adjust| == NumRanges
    requires forall i :: 0 <= i < |adjust| ==> adjust[i] == a
    ensures Shift(hue, adjust, k) == a
  {
    ShiftBetween(hue, adjust, k, a, a);
  }

  /**
   * The per-range adjustment of an HSV triple: the hue moves by its shift and wraps
   * with `mod(_, 1)`, saturation and value move by theirs and are clamped to [0, 1].
   */
  function Adjust(hsv: Vec3, hueAdjust: seq<real>, satAdjust: seq<real>, lumAdjust: seq<real>, k: Math): (a: Vec3)
    requires |hueAdjust| == NumRanges && |satAdjust| == NumRanges && |lumAdjust| == NumRanges
    ensures 0.0 <= a.r < 1.0 && 0.0 <= a.g <= 1.0 && 0.0 <= a.b <= 1.0
  {
    Vec3(
      Mod(hsv.r + Shift(hsv.r, hueAdjust, k), 1.0),
      Clamp(hsv.g + Shift(hsv.r, satAdjust, k), 0.0, 1.0),
      Clamp(hsv.b + Shift(hsv.r, lumAdjust, k), 0.0, 1.0))
  }

  /**
   * With the same hue adjustment `a` in every range and no saturation or value
   * adjustment, a triple with saturation and value in [0, 1] only has its hue moved by `a`.
   */
  lemma AdjustUniform(hsv: Vec3, hueAdjust: seq<real>, satAdjust: seq<real>, lumAdjust: seq<real>, k: Math, a: real)
    requires 0.0 <= hsv.g <= 1.0 && 0.0 <= hsv.b <= 1.0
    requires |hueAdjust| == NumRanges && |satAdjust| == NumRanges && |lumAdjust| == NumRanges
    requires forall i :: 0 <= i < NumRanges ==> hueAdjust[i] == a && satAdjust[i] == 0.0 && lumAdjust[i] == 0.0
    ensures Adjust(hsv, hueAdjust, satAdjust, lumAdjust, k) == Vec3(Mod(hsv.r + a, 1.0), hsv.g, hsv.b)
  {
    ShiftOfUniform(hsv.r, hueAdjust, k, a);
    ShiftOfUniform(hsv.r, satAdjust, k, 0.0);
    ShiftOfUniform(hsv.r, lumAdjust, k, 0.0);
  }

  /** `applyHslPerRange`'s result, as a function of the colour and the three arrays. */
  function HslPerRange(c: Vec3, hueAdjust: seq<real>, satAdjust: seq<real>, lumAdjust: seq<real>, k: Math): Vec3
    requires HsvDefined(c)
    requires |hueAdjust| == NumRanges && |satAdjust| == NumRanges && |lumAdjust| == NumRanges
  {
    HsvToRgb(Adjust(RgbToHsv(c), hueAdjust, satAdjust, lumAdjust, k))
  }

  /** `applyHslPerRange`: convert to HSV, run the loop, normalise, adjust and convert back. */
  method ApplyHslPerRange(c: Vec3, hueAdjust: seq<real>, satAdjust: seq<real>, lumAdjust: seq<real>, k: Math)
    returns (result: Vec3)
    requires HsvDefined(c)
    requires |hueAdjust| == NumRanges && |satAdjust| == NumRanges && |lumAdjust| == NumRanges
    ensures result == HslPerRange(c, hueAdjust, satAdjust, lumAdjust, k)
    ensures InUnitCube(result)
  {
    var hsv := RgbToHsv(c);
    var hue := hsv.r;
    var hShift, sShift, lShift, totalWeight := AccumulateShifts(hue, hueAdjust, satAdjust, lumAdjust, k);
    WeightsPositive(hue, k);
    TotalWeightPositive(Weights(hue, k), NumRanges);
    hShift := hShift / totalWeight;
    sShift := sShift / totalWeight;
    lShift := lShift / totalWeight;
    hsv := Vec3(Mod(hsv.r + hShift, 1.0), Clamp(hsv.g + sShift, 0.0, 1.0), Clamp(hsv.b + lShift, 0.0, 1.0));
    result := HsvToRgb(hsv);
    HslPerRangeRange(c, hueAdjust, satAdjust, lumAdjust, k);
  }

  /** Whatever the adjustments, the result lies in the unit cube: saturation and value are clamped. */
  lemma HslPerRangeRange(c: Vec3, hueAdjust: seq<real>, satAdjust: seq<real>, lumAdjust: seq<real>, k: Math)
    requires HsvDefined(c)
    requires |hueAdjust| == NumRanges && |satAdjust| == NumRanges && |lumAdjust| == NumRanges
    ensures InUnitCube(HslPerRange(c, hueAdjust, satAdjust, lumAdjust, k))
  {
    HsvToRgbRange(Adjust(RgbToHsv(c), hueAdjust, satAdjust, lumAdjust, k));
  }

  /**
   * With no saturation or lightness adjustment and the same hue adjustment `a` in all
   * ranges, the stage is the global hue rotation by `a` on every colour of the unit cube.
   */
  lemma UniformHueIsRotation(c: Vec3, hueAdjust: seq<real>, satAdjust: seq<real>, lumAdjust: seq<real>, k: Math, a: real)
    requires InUnitCube(c)
    requires |hueAdjust| == NumRanges && |satAdjust| == NumRanges && |lumAdjust| == NumRanges
    requires forall i :: 0 <= i < NumRanges ==> hueAdjust[i] == a && satAdjust[i] == 0.0 && lumAdjust[i] == 0.0
    ensures HsvDefined(c)
    ensures HslPerRange(c, hueAdjust, satAdjust, lumAdjust, k) == HueRotate(c, a)
  {
    assert HsvDefined(c);
    var hsv := RgbToHsv(c);
    RgbToHsvRange(c);
    calc {
      HslPerRange(c, hueAdjust, satAdjust, lumAdjust, k);
      HsvToRgb(Adjust(hsv, hueAdjust, satAdjust, lumAdjust, k));
      { AdjustUniform(hsv, hueAdjust, satAdjust, lumAdjust, k, a); }
      HsvToRgb(Vec3(Mod(hsv.r + a, 1.0), hsv.g, hsv.b));
      { HsvToRgbModHue(hsv.r + a, hsv.g, hsv.b); }
      HsvToRgb(Vec3(hsv.r + a, hsv.g, hsv.b));
      { HueRotateIsShift(c, a); }
      HueRotate(c, a);
    }
  }

  /** With every adjustment zero the stage is the plain HSV round trip on the unit cube. */
  lemma NeutralIsRoundTrip(c: Vec3, hueAdjust: seq<real>, satAdjust: seq<real>, lumAdjust: seq<real>, k: Math)
    requires InUnitCube(c)
    requires |hueAdjust| == NumRanges && |satAdjust| == NumRanges && |lumAdjust| == NumRanges
    requires forall i :: 0 <= i < NumRanges ==> hueAdjust[i] == 0.0 && satAdjust[i] == 0.0 && lumAdjust[i] == 0.0
    ensures HsvDefined(c)
    ensures HslPerRange(c, hueAdjust, satAdjust, lumAdjust, k) == HsvToRgb(RgbToHsv(c))
  {
    assert HsvDefined(c);
    var hsv := RgbToHsv(c);
    RgbToHsvRange(c);
    calc {
      HslPerRange(c, hueAdjust, satAdjust, lumAdjust, k);
      HsvToRgb(Adjust(hsv, hueAdjust, satAdjust, lumAdjust, k));
      { AdjustUniform(hsv, hueAdjust, satAdjust, lumAdjust, k, 0.0); }
      HsvToRgb(Vec3(Mod(hsv.r + 0.0, 1.0), hsv.g, hsv.b));
      { assert Mod(hsv.r + 0.0, 1.0) == hsv.r by { ModOneIsFract(hsv.r); } }
      HsvToRgb(hsv);
    }
  }
}

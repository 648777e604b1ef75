/**
 * The fragment shader's `main`: the stages in the order the shader applies them to the
 * sampled pixel, with the uniforms gathered in one value.
 */
module Pipeline {
  import opened Color
  import opened Kernels
  import opened Hsv
  import opened Stages
  import HP = HslPerRange

  /** The uniforms `main` reads (the shader's `uRedMix` ... `lumAdjust`). */
  datatype GradeParams = GradeParams(
    redMix: Vec3, greenMix: Vec3, blueMix: Vec3,
    brightness: real, contrast: real, saturation: real, vibrancy: real,
    hueOffset: real, gamma: real, splitToneBalance: real, exposure: real, kelvin: real,
    shadowTint: Vec3, highlightTint: Vec3,
    hueAdjust: seq<real>, satAdjust: seq<real>, lumAdjust: seq<real>)

  /**
   * Settings the panel can produce: the gamma slider stays positive, the tints come from
   * colour pickers and are never negative, and the adjustment arrays have eight entries.
   */
  predicate Renderable(p: GradeParams)
  {
    && 0.0 < p.gamma
    && NonNegative(p.shadowTint) && NonNegative(p.highlightTint)
    && |p.hueAdjust| == HP.NumRanges && |p.satAdjust| == HP.NumRanges && |p.lumAdjust| == HP.NumRanges
  }

  /**
   * The stages before the hue rotation: channel mixer (with contrast fixed at 1 and the
   * brightness uniform), exposure, contrast, gamma and temperature.
   */
  function Prepare(c: Vec3, p: GradeParams, k: Builtins): Vec3
    requires p.gamma != 0.0
  {
    var mixed := ChannelMixer(c, p.redMix, p.greenMix, p.blueMix, p.brightness, 1.0);
    var exposed := Exposure(mixed, p.exposure, k);
    var contrasted := Contrast(exposed, p.contrast, k);
    var corrected := GammaCorrect(contrasted, p.gamma, k);
    Temperature(corrected, p.kelvin, k)
  }

  /** The stages between the hue rotation and the per-range adjustment: saturation, vibrancy, split toning. */
  function Finish(c: Vec3, p: GradeParams): Vec3
  {
    SplitToning(Vibrancy(Saturation(c, p.saturation), p.vibrancy), p.shadowTint, p.highlightTint, p.splitToneBalance)
  }

  /** With a positive gamma the prepared colour lies in the unit cube. */
  lemma PrepareInUnitCube(c: Vec3, p: GradeParams, k: Math)
    requires 0.0 < p.gamma
    ensures InUnitCube(Prepare(c, p, k))
  {
    var mixed := ChannelMixer(c, p.redMix, p.greenMix, p.blueMix, p.brightness, 1.0);
    var corrected := GammaCorrect(Contrast(Exposure(mixed, p.exposure, k), p.contrast, k), p.gamma, k);
    GammaRange(Contrast(Exposure(mixed, p.exposure, k), p.contrast, k), p.gamma, k);
    TemperatureDarkens(corrected, p.kelvin, k);
  }

  /** A colour of non-negative luminance has a non-negative channel. */
  lemma LuminanceMax(c: Vec3)
    requires 0.0 <= Luminance(c)
    ensures 0.0 <= Max3(c)
  {}

  /** A non-negative multiplier keeps a non-negative largest channel non-negative. */
  lemma MulMax(c: Vec3, t: Vec3)
    requires 0.0 <= Max3(c) && NonNegative(t)
    ensures 0.0 <= Max3(Mul(c, t))
  {
    if 0.0 <= c.r {
      MulNonNegative(c.r, t.r);
    } else if 0.0 <= c.g {
      MulNonNegative(c.g, t.g);
    } else {
      MulNonNegative(c.b, t.b);
    }
  }

  /**
   * From a non-negative colour and non-negative tints, the finishing stages never make
   * every channel negative, so `rgbToHsv` is defined on their output.
   */
  lemma FinishDefined(c: Vec3, p: GradeParams)
    requires NonNegative(c) && NonNegative(p.shadowTint) && NonNegative(p.highlightTint)
    ensures HsvDefined(Finish(c, p))
  {
    var s := Saturation(c, p.saturation);
    SaturationNeutral(c, p.saturation);
    var v := Vibrancy(s, p.vibrancy);
    VibrancyNeutral(s, p.vibrancy);
    LuminanceMax(v);
    var tone := SplitTone(v, p.shadowTint, p.highlightTint, p.splitToneBalance);
    SplitToneBetween(v, p.shadowTint, p.highlightTint, p.splitToneBalance);
    MulMax(v, tone);
  }

  /** `main`: the graded colour of one sampled pixel. */
  function Grade(c: Vec3, p: GradeParams, k: Math): Vec3
    requires Renderable(p)
  {
    var prepared := Prepare(c, p, k);
    PrepareInUnitCube(c, p, k);
    var rotated := HueRotate(prepared, p.hueOffset);
    HueRotateRange(prepared, p.hueOffset);
    var finished := Finish(rotated, p);
    FinishDefined(rotated, p);
    ToneMapFilmic(HP.HslPerRange(finished, p.hueAdjust, p.satAdjust, p.lumAdjust, k))
  }

  /** Every graded pixel lies in the unit cube, whatever the settings. */
  lemma GradeInUnitCube(c: Vec3, p: GradeParams, k: Math)
    requires Renderable(p)
    ensures InUnitCube(Grade(c, p, k))
  {
    var prepared := Prepare(c, p, k);
    PrepareInUnitCube(c, p, k);
    var rotated := HueRotate(prepared, p.hueOffset);
    HueRotateRange(prepared, p.hueOffset);
    var finished := Finish(rotated, p);
    FinishDefined(rotated, p);
    var adjusted := HP.HslPerRange(finished, p.hueAdjust, p.satAdjust, p.lumAdjust, k);
    HP.HslPerRangeRange(finished, p.hueAdjust, p.satAdjust, p.lumAdjust, k);
    FilmicRange(adjusted.r);
    FilmicRange(adjusted.g);
    FilmicRange(adjusted.b);
  }

  /** Settings under which every stage but the HSV round trips and the tone curve is neutral. */
  predicate Neutral(p: GradeParams)
  {
    && p.redMix == Vec3(1.0, 0.0, 0.0) && p.greenMix == Vec3(0.0, 1.0, 0.0) && p.blueMix == Vec3(0.0, 0.0, 1.0)
    && p.brightness == 0.0 && p.exposure == 0.0 && p.contrast == 1.0 && p.gamma == 1.0 && p.kelvin == 6600.0
    && p.hueOffset == 0.0 && p.saturation == 0.0 && p.vibrancy == 0.0
    && p.shadowTint == Splat(1.0) && p.highlightTint == Splat(1.0)
    && |p.hueAdjust| == HP.NumRanges && |p.satAdjust| == HP.NumRanges && |p.lumAdjust| == HP.NumRanges
    && (forall i :: 0 <= i < HP.NumRanges ==> p.hueAdjust[i] == 0.0 && p.satAdjust[i] == 0.0 && p.lumAdjust[i] == 0.0)
  }

  /** Under neutral settings the stages before the hue rotation pass a unit-cube colour through. */
  lemma PrepareNeutral(c: Vec3, p: GradeParams, k: Math)
    requires InUnitCube(c) && Neutral(p)
    requires 99.4708025861 * k.log(66.0) - 161.1195681661 >= 255.0
    ensures Prepare(c, p, k) == c
  {
    MixerIdentity(c);
    ExposureZero(c, k);
    ContrastOne(c, k);
    GammaRange(c, 1.0, k);
    TemperatureNeutral(c, k);
  }

  /** Under neutral settings the finishing stages pass every colour through. */
  lemma FinishNeutral(c: Vec3, p: GradeParams)
    requires Neutral(p)
    ensures Finish(c, p) == c
  {
    SaturationNeutral(c, 0.0);
    VibrancyNeutral(c, 0.0);
    SplitToningEnds(c, p.shadowTint, p.highlightTint, p.splitToneBalance);
  }

  /**
   * Under neutral settings a unit-cube pixel is only taken through HSV and back twice
   * (by the hue rotation and by the per-range stage) and then tone mapped.
   */
  lemma GradeNeutral(c: Vec3, p: GradeParams, k: Math)
    requires InUnitCube(c) && Neutral(p)
    requires 99.4708025861 * k.log(66.0) - 161.1195681661 >= 255.0
    ensures Renderable(p) && HsvDefined(c)
    ensures HsvDefined(HsvToRgb(RgbToHsv(c)))
    ensures Grade(c, p, k) == ToneMapFilmic(HsvToRgb(RgbToHsv(HsvToRgb(RgbToHsv(c)))))
  {
    PrepareNeutral(c, p, k);
    RoundTripInUnitCube(c);
    var once := HsvToRgb(RgbToHsv(c));
    FinishNeutral(once, p);
    HP.NeutralIsRoundTrip(once, p.hueAdjust, p.satAdjust, p.lumAdjust, k);
  }

  /** The HSV round trip keeps a unit-cube colour in the unit cube, and it is the hue rotation by 0. */
  lemma RoundTripInUnitCube(c: Vec3)
    requires InUnitCube(c)
    ensures HsvDefined(c)
    ensures InUnitCube(HsvToRgb(RgbToHsv(c)))
    ensures HueRotate(c, 0.0) == HsvToRgb(RgbToHsv(c))
  {
    assert HsvDefined(c);
    HueRotateIsShift(c, 0.0);
    HueRotateRange(c, 0.0);
  }

  /** Under neutral settings a gray pixel of the unit cube only goes through the tone curve. */
  lemma GradeNeutralGray(x: real, p: GradeParams, k: Math)
    requires 0.0 <= x <= 1.0 && Neutral(p)
    requires 99.4708025861 * k.log(66.0) - 161.1195681661 >= 255.0
    ensures Renderable(p)
    ensures Grade(Splat(x), p, k) == Splat(Filmic(x))
  {
    GradeNeutral(Splat(x), p, k);
    RgbToHsvGray(Splat(x));
    HsvToRgbGray(0.0, x);
    RgbToHsvGray(Splat(x));
  }
}

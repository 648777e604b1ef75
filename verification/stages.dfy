/**
 * The per-pixel grading stages of the fragment shader in src/ColorGradingGUI.jsx
 * (everything but the HSV-based ones, which live in `Hsv` and `HslPerRange`),
 * over real numbers. Stages that call `pow` or `log` take the built-ins as `k`.
 */
module Stages {
  import opened Color
  import opened Kernels

  // ---------------------------------------------------------------- channel mixer

  /**
   * GLSL `mat3(redMix, greenMix, blueMix) * c`: `mat3` takes its arguments as columns,
   * so the product is `c.r * redMix + c.g * greenMix + c.b * blueMix`.
   */
  function MatrixProduct(redMix: Vec3, greenMix: Vec3, blueMix: Vec3, c: Vec3): Vec3
  {
    Add(Add(Scale(redMix, c.r), Scale(greenMix, c.g)), Scale(blueMix, c.b))
  }

  /** `colorChannelMixer`: the matrix product, then `max(0, mixed * contrast + brightness)` per channel. */
  function ChannelMixer(c: Vec3, redMix: Vec3, greenMix: Vec3, blueMix: Vec3, brightness: real, contrast: real): Vec3
  {
    MaxZero(Add(Scale(MatrixProduct(redMix, greenMix, blueMix, c), contrast), Splat(brightness)))
  }

  /** GLSL `max(vec3(0.0), v)`. */
  function MaxZero(v: Vec3): Vec3 { Vec3(Max(0.0, v.r), Max(0.0, v.g), Max(0.0, v.b)) }

  /** The mixer never produces a negative channel, whatever its input and settings. */
  lemma MixerNonNegative(c: Vec3, redMix: Vec3, greenMix: Vec3, blueMix: Vec3, brightness: real, contrast: real)
    ensures NonNegative(ChannelMixer(c, redMix, greenMix, blueMix, brightness, contrast))
  {}

  /** With the unit columns, contrast 1 and brightness 0 the mixer passes a non-negative colour through. */
  lemma MixerIdentity(c: Vec3)
    requires NonNegative(c)
    ensures ChannelMixer(c, Vec3(1.0, 0.0, 0.0), Vec3(0.0, 1.0, 0.0), Vec3(0.0, 0.0, 1.0), 0.0, 1.0) == c
  {}

  /**
   * The mix vectors are the matrix's columns: a pure red input of level `x` is mapped
   * to `redMix` scaled by `x`, pure green to `greenMix`, pure blue to `blueMix`.
   */
  lemma RedColumn(redMix: Vec3, greenMix: Vec3, blueMix: Vec3, x: real)
    ensures MatrixProduct(redMix, greenMix, blueMix, Vec3(x, 0.0, 0.0)) == Scale(redMix, x)
  {
    assert Scale(greenMix, 0.0) == Splat(0.0);
    assert Scale(blueMix, 0.0) == Splat(0.0);
  }

  lemma GreenColumn(redMix: Vec3, greenMix: Vec3, blueMix: Vec3, y: real)
    ensures MatrixProduct(redMix, greenMix, blueMix, Vec3(0.0, y, 0.0)) == Scale(greenMix, y)
  {
    assert Scale(redMix, 0.0) == Splat(0.0);
    assert Scale(blueMix, 0.0) == Splat(0.0);
  }

  lemma BlueColumn(redMix: Vec3, greenMix: Vec3, blueMix: Vec3, z: real)
    ensures MatrixProduct(redMix, greenMix, blueMix, Vec3(0.0, 0.0, z)) == Scale(blueMix, z)
  {
    var zero := Add(Scale(redMix, 0.0), Scale(greenMix, 0.0));
    assert zero == Splat(0.0);
    assert Add(zero, Scale(blueMix, z)) == Scale(blueMix, z);
  }

  /** The product is linear in the colour. */
  lemma MatrixLinear(redMix: Vec3, greenMix: Vec3, blueMix: Vec3, c: Vec3, d: Vec3)
    ensures MatrixProduct(redMix, greenMix, blueMix, Add(c, d))
         == Add(MatrixProduct(redMix, greenMix, blueMix, c), MatrixProduct(redMix, greenMix, blueMix, d))
  {
    calc {
      MatrixProduct(redMix, greenMix, blueMix, Add(c, d));
      Add(Add(Scale(redMix, c.r + d.r), Scale(greenMix, c.g + d.g)), Scale(blueMix, c.b + d.b));
      { ScaleDistributes(redMix, c.r, d.r); ScaleDistributes(greenMix, c.g, d.g); ScaleDistributes(blueMix, c.b, d.b); }
      Add(Add(Add(Scale(redMix, c.r), Scale(redMix, d.r)), Add(Scale(greenMix, c.g), Scale(greenMix, d.g))),
          Add(Scale(blueMix, c.b), Scale(blueMix, d.b)));
      { Regroup3(Scale(redMix, c.r), Scale(greenMix, c.g), Scale(blueMix, c.b),
                 Scale(redMix, d.r), Scale(greenMix, d.g), Scale(blueMix, d.b)); }
      Add(MatrixProduct(redMix, greenMix, blueMix, c), MatrixProduct(redMix, greenMix, blueMix, d));
    }
  }

  lemma ScaleDistributes(v: Vec3, a: real, b: real)
    ensures Scale(v, a + b) == Add(Scale(v, a), Scale(v, b))
  {
    assert v.r * (a + b) == v.r * a + v.r * b;
    assert v.g * (a + b) == v.g * a + v.g * b;
    assert v.b * (a + b) == v.b * a + v.b * b;
  }

  lemma Regroup3(a1: Vec3, a2: Vec3, a3: Vec3, b1: Vec3, b2: Vec3, b3: Vec3)
    ensures Add(Add(Add(a1, b1), Add(a2, b2)), Add(a3, b3)) == Add(Add(Add(a1, a2), a3), Add(Add(b1, b2), b3))
  {}

  // ---------------------------------------------------------------- exposure

  /** `applyExposure`: scale by `pow(2, exposure)`. */
  function Exposure(c: Vec3, exposure: real, k: Builtins): Vec3
  {
    Scale(c, k.pow(2.0, exposure))
  }

  /** Exposure 0 leaves the colour as it is. */
  lemma ExposureZero(c: Vec3, k: Math)
    ensures Exposure(c, 0.0, k) == c
  {
    assert k.pow(2.0, 0.0) == 1.0;
  }

  /** Exposure keeps a colour non-negative, and more exposure brightens every positive channel. */
  lemma ExposureMonotone(c: Vec3, e1: real, e2: real, k: Math)
    requires e1 < e2
    ensures NonNegative(c) ==> NonNegative(Exposure(c, e1, k))
    ensures 0.0 < c.r ==> Exposure(c, e1, k).r < Exposure(c, e2, k).r
    ensures 0.0 < c.g ==> Exposure(c, e1, k).g < Exposure(c, e2, k).g
    ensures 0.0 < c.b ==> Exposure(c, e1, k).b < Exposure(c, e2, k).b
  {
    var p1, p2 := k.pow(2.0, e1), k.pow(2.0, e2);
    assert 0.0 < p1 < p2;
    var c1, c2 := Exposure(c, e1, k), Exposure(c, e2, k);
    ScaleGrows(c.r, p1, p2, c1.r, c2.r);
    ScaleGrows(c.g, p1, p2, c1.g, c2.g);
    ScaleGrows(c.b, p1, p2, c1.b, c2.b);
  }

  lemma ScaleGrows(x: real, p1: real, p2: real, y1: real, y2: real)
    requires 0.0 < p1 < p2 && y1 == x * p1 && y2 == x * p2
    ensures 0.0 <= x ==> 0.0 <= y1
    ensures 0.0 < x ==> y1 < y2
  {
    if 0.0 <= x { MulNonNegative(x, p1); }
    if 0.0 < x {
      assert y2 - y1 == x * (p2 - p1);
      MulPositive(x, p2 - p1);
    }
  }

  lemma MulPositive(a: real, b: real)
    requires 0.0 < a && 0.0 < b
    ensures 0.0 < a * b
  {}

  // ---------------------------------------------------------------- contrast

  /** The contrast pivot `pow(0.5, 2.2)`: mid-gray in linear light. */
  function ContrastMid(k: Builtins): real { k.pow(0.5, 2.2) }

  /** `colorContrast`: stretch every channel about the pivot, `(c - mid) * contrast + mid`. */
  function Contrast(c: Vec3, contrast: real, k: Builtins): Vec3
  {
    var mid := ContrastMid(k);
    Add(Scale(Add(c, Splat(-mid)), contrast), Splat(mid))
  }

  /** Contrast 1 is the identity. */
  lemma ContrastOne(c: Vec3, k: Builtins)
    ensures Contrast(c, 1.0, k) == c
  {}

  /** The pivot gray is fixed by every contrast, and the pivot is itself in [0,1]. */
  lemma ContrastPivot(contrast: real, k: Math)
    ensures Contrast(Splat(ContrastMid(k)), contrast, k) == Splat(ContrastMid(k))
    ensures 0.0 <= ContrastMid(k) <= 1.0
  {}

  /** Two contrast stages compose into one whose factor is the product. */
  lemma ContrastCompose(c: Vec3, a: real, b: real, k: Builtins)
    ensures Contrast(Contrast(c, a, k), b, k) == Contrast(c, a * b, k)
  {
    var m := ContrastMid(k);
    assert (c.r - m) * a * b == (c.r - m) * (a * b);
    assert (c.g - m) * a * b == (c.g - m) * (a * b);
    assert (c.b - m) * a * b == (c.b - m) * (a * b);
  }

  // ---------------------------------------------------------------- gamma

  /** `gammaCorrect`: `pow(clamp(color, 0, 1), 1 / gamma)` per channel. */
  function GammaCorrect(c: Vec3, gamma: real, k: Builtins): Vec3
    requires gamma != 0.0
  {
    var e := 1.0 / gamma;
    var u := Clamp01(c);
    Vec3(k.pow(u.r, e), k.pow(u.g, e), k.pow(u.b, e))
  }

  /** For a positive gamma the result lies in the unit cube, and gamma 1 passes the unit cube through. */
  lemma GammaRange(c: Vec3, gamma: real, k: Math)
    requires 0.0 < gamma
    ensures InUnitCube(GammaCorrect(c, gamma, k))
    ensures InUnitCube(c) && gamma == 1.0 ==> GammaCorrect(c, gamma, k) == c
  {
    var u := Clamp01(c);
    assert 0.0 < 1.0 / gamma;
    assert 0.0 <= k.pow(u.r, 1.0 / gamma) <= 1.0;
    assert 0.0 <= k.pow(u.g, 1.0 / gamma) <= 1.0;
    assert 0.0 <= k.pow(u.b, 1.0 / gamma) <= 1.0;
  }

  // ---------------------------------------------------------------- temperature

  /** `colorTemperature`'s kelvin after `clamp(kelvin, 1000, 40000) / 100`. */
  function KelvinStep(kelvin: real): (t: real)
    ensures 10.0 <= t <= 400.0
  {
    Clamp(kelvin, 1000.0, 40000.0) / 100.0
  }

  /** The red, green and blue multipliers `colorTemperature` derives from the kelvin value. */
  function TemperatureTint(kelvin: real, k: Builtins): Vec3
  {
    var t := KelvinStep(kelvin);
    var red :=
      if t <= 66.0 then 1.0
      else Clamp(329.698727446 * k.pow(t - 60.0, -0.1332047592) / 255.0, 0.0, 1.0);
    var green :=
      if t <= 66.0 then Clamp((99.4708025861 * k.log(t) - 161.1195681661) / 255.0, 0.0, 1.0)
      else Clamp(288.1221695283 * k.pow(t - 60.0, -0.0755148492) / 255.0, 0.0, 1.0);
    var blue :=
      if t >= 66.0 then 1.0
      else if t <= 19.0 then 0.0
      else Clamp((138.5177312231 * k.log(t - 10.0) - 305.0447927307) / 255.0, 0.0, 1.0);
    Vec3(red, green, blue)
  }

  /** `colorTemperature`: multiply by the tint. */
  function Temperature(c: Vec3, kelvin: real, k: Builtins): Vec3
  {
    Mul(c, TemperatureTint(kelvin, k))
  }

  /**
   * Every multiplier lies in [0,1] whatever `pow` and `log` return; red is full at
   * 6600 K and below; blue is full at 6600 K and above and off at 1900 K and below.
   */
  lemma TintRange(kelvin: real, k: Builtins)
    ensures InUnitCube(TemperatureTint(kelvin, k))
    ensures KelvinStep(kelvin) <= 66.0 ==> TemperatureTint(kelvin, k).r == 1.0
    ensures KelvinStep(kelvin) >= 66.0 ==> TemperatureTint(kelvin, k).b == 1.0
    ensures KelvinStep(kelvin) <= 19.0 ==> TemperatureTint(kelvin, k).b == 0.0
  {}

  /** Kelvin values outside [1000, 40000] act as the nearest end of that range. */
  lemma TemperatureClampsKelvin(c: Vec3, kelvin: real, k: Builtins)
    ensures kelvin <= 1000.0 ==> Temperature(c, kelvin, k) == Temperature(c, 1000.0, k)
    ensures 40000.0 <= kelvin ==> Temperature(c, kelvin, k) == Temperature(c, 40000.0, k)
  {}

  /** On a non-negative colour the temperature stage can only darken a channel, never brighten it. */
  lemma TemperatureDarkens(c: Vec3, kelvin: real, k: Builtins)
    requires NonNegative(c)
    ensures Below(Temperature(c, kelvin, k), c)
  {
    TintRange(kelvin, k);
    MulBelow(c, TemperatureTint(kelvin, k));
  }

  lemma MulBelow(c: Vec3, m: Vec3)
    requires NonNegative(c) && InUnitCube(m)
    ensures Below(Mul(c, m), c)
  {
    ScaleBelow(c.r, m.r, Mul(c, m).r);
    ScaleBelow(c.g, m.g, Mul(c, m).g);
    ScaleBelow(c.b, m.b, Mul(c, m).b);
  }

  lemma ScaleBelow(x: real, f: real, p: real)
    requires 0.0 <= x && 0.0 <= f <= 1.0 && p == x * f
    ensures 0.0 <= p <= x
  {
    MulMonotone(f, 1.0, x);
    MulNonNegative(x, f);
  }

  /**
   * At 6600 K the stage is neutral, provided `log(66)` is at least 4.1834 (the natural
   * logarithm of 66 is about 4.1897), which saturates the green formula at 1.
   */
  lemma TemperatureNeutral(c: Vec3, k: Builtins)
    requires 99.4708025861 * k.log(66.0) - 161.1195681661 >= 255.0
    ensures Temperature(c, 6600.0, k) == c
  {
    assert KelvinStep(6600.0) == 66.0;
  }

  // ---------------------------------------------------------------- saturation and vibrancy

  /**
   * `mix(vec3(luminance), color, f)`: move the colour away from (f > 1) or toward
   * (f < 1) the gray of equal luminance. Saturation and vibrancy are both this.
   */
  function FromGray(c: Vec3, f: real): Vec3
  {
    MixV(Splat(Luminance(c)), c, f)
  }

  /** Moving toward or away from gray keeps the luminance, and gray colours stay put. */
  lemma FromGrayKeepsLuminance(c: Vec3, f: real)
    ensures Luminance(FromGray(c, f)) == Luminance(c)
    ensures IsGray(c) ==> FromGray(c, f) == c
    ensures f == 1.0 ==> FromGray(c, f) == c
  {
    var l := Luminance(c);
    calc {
      Luminance(FromGray(c, f));
      0.299 * (l * (1.0 - f) + c.r * f) + 0.587 * (l * (1.0 - f) + c.g * f) + 0.114 * (l * (1.0 - f) + c.b * f);
      { Regroup(l, f, c.r, c.g, c.b); }
      l * (1.0 - f) + (0.299 * c.r + 0.587 * c.g + 0.114 * c.b) * f;
    }
  }

  lemma Regroup(l: real, f: real, r: real, g: real, b: real)
    ensures 0.299 * (l * (1.0 - f) + r * f) + 0.587 * (l * (1.0 - f) + g * f) + 0.114 * (l * (1.0 - f) + b * f)
         == l * (1.0 - f) + (0.299 * r + 0.587 * g + 0.114 * b) * f
  {}

  /** Two moves from gray compose into one whose factor is the product. */
  lemma FromGrayCompose(c: Vec3, f1: real, f2: real)
    ensures FromGray(FromGray(c, f1), f2) == FromGray(c, f1 * f2)
  {
    FromGrayKeepsLuminance(c, f1);
    var l := Luminance(c);
    ComposeChannel(l, c.r, f1, f2);
    ComposeChannel(l, c.g, f1, f2);
    ComposeChannel(l, c.b, f1, f2);
  }

  lemma ComposeChannel(l: real, x: real, f1: real, f2: real)
    ensures Mix(l, Mix(l, x, f1), f2) == Mix(l, x, f1 * f2)
  {
    assert Mix(l, x, f1) == l + (x - l) * f1;
    assert Mix(l, Mix(l, x, f1), f2) == l + (x - l) * f1 * f2;
  }

  /** `colorSaturation`: the mix factor is `1 + saturation`, so saturation 0 is neutral. */
  function Saturation(c: Vec3, saturation: real): Vec3
  {
    FromGray(c, 1.0 + saturation)
  }

  /** Saturation 0 is the identity, gray is fixed, and luminance is kept for every setting. */
  lemma SaturationNeutral(c: Vec3, saturation: real)
    ensures Saturation(c, 0.0) == c
    ensures IsGray(c) ==> Saturation(c, saturation) == c
    ensures Luminance(Saturation(c, saturation)) == Luminance(c)
  {
    FromGrayKeepsLuminance(c, 1.0);
    FromGrayKeepsLuminance(c, 1.0 + saturation);
  }

  /** `colorVibrancy`'s factor: `1 + vibrancy * (1 - smoothstep(0, 0.5, max - min))`. */
  function VibrancyFactor(c: Vec3, vibrancy: real): real
  {
    1.0 + vibrancy * (1.0 - Smoothstep(0.0, 0.5, Max3(c) - Min3(c)))
  }

  /** `colorVibrancy`: saturate dull colours more than vivid ones. */
  function Vibrancy(c: Vec3, vibrancy: real): Vec3
  {
    FromGray(c, VibrancyFactor(c, vibrancy))
  }

  /**
   * For a non-negative vibrancy the factor lies in [1, 1 + vibrancy] and shrinks as the
   * colour's spread `max - min` grows: duller colours are pushed harder.
   */
  lemma VibrancyFactorMonotone(c1: Vec3, c2: Vec3, vibrancy: real)
    requires 0.0 <= vibrancy
    requires Max3(c1) - Min3(c1) <= Max3(c2) - Min3(c2)
    ensures 1.0 <= VibrancyFactor(c2, vibrancy) <= VibrancyFactor(c1, vibrancy) <= 1.0 + vibrancy
  {
    var d1, d2 := Max3(c1) - Min3(c1), Max3(c2) - Min3(c2);
    var s1, s2 := Smoothstep(0.0, 0.5, d1), Smoothstep(0.0, 0.5, d2);
    assert s1 <= s2 by { SmoothstepMonotone(0.0, 0.5, d1, d2); }
    FactorOrder(vibrancy, s1, s2, VibrancyFactor(c1, vibrancy), VibrancyFactor(c2, vibrancy));
  }

  lemma FactorOrder(v: real, s1: real, s2: real, f1: real, f2: real)
    requires 0.0 <= v && 0.0 <= s1 <= s2 <= 1.0
    requires f1 == 1.0 + v * (1.0 - s1) && f2 == 1.0 + v * (1.0 - s2)
    ensures 1.0 <= f2 <= f1 <= 1.0 + v
  {
    MulMonotone(1.0 - s2, 1.0 - s1, v);
    MulMonotone(0.0, 1.0 - s2, v);
    MulMonotone(1.0 - s1, 1.0, v);
  }

  /**
   * Vibrancy keeps luminance and gray; vibrancy 0 is the identity, and so is any
   * vibrancy on a colour whose spread is at least 0.5.
   */
  lemma VibrancyNeutral(c: Vec3, vibrancy: real)
    ensures Luminance(Vibrancy(c, vibrancy)) == Luminance(c)
    ensures IsGray(c) ==> Vibrancy(c, vibrancy) == c
    ensures Vibrancy(c, 0.0) == c
    ensures 0.5 <= Max3(c) - Min3(c) ==> Vibrancy(c, vibrancy) == c
  {
    FromGrayKeepsLuminance(c, VibrancyFactor(c, vibrancy));
    FromGrayKeepsLuminance(c, VibrancyFactor(c, 0.0));
  }

  // ---------------------------------------------------------------- split toning

  /** The tint `splitToning` applies: shadows blended into highlights by `smoothstep(0, 1, luminance + balance)`. */
  function SplitTone(c: Vec3, shadows: Vec3, highlights: Vec3, balance: real): Vec3
  {
    MixV(shadows, highlights, Smoothstep(0.0, 1.0, Luminance(c) + balance))
  }

  /** `splitToning`: multiply by the blended tint. */
  function SplitToning(c: Vec3, shadows: Vec3, highlights: Vec3, balance: real): Vec3
  {
    Mul(c, SplitTone(c, shadows, highlights, balance))
  }

  /**
   * Dark pixels (luminance + balance at most 0) take the shadow tint, bright ones (at
   * least 1) the highlight tint, and equal tints act as one plain multiplier.
   */
  lemma SplitToningEnds(c: Vec3, shadows: Vec3, highlights: Vec3, balance: real)
    ensures Luminance(c) + balance <= 0.0 ==> SplitToning(c, shadows, highlights, balance) == Mul(c, shadows)
    ensures 1.0 <= Luminance(c) + balance ==> SplitToning(c, shadows, highlights, balance) == Mul(c, highlights)
    ensures shadows == highlights ==> SplitToning(c, shadows, highlights, balance) == Mul(c, shadows)
  {}

  /** Each channel of the blended tint lies between the two tints' channels. */
  lemma SplitToneBetween(c: Vec3, shadows: Vec3, highlights: Vec3, balance: real)
    ensures Between(SplitTone(c, shadows, highlights, balance).r, shadows.r, highlights.r)
    ensures Between(SplitTone(c, shadows, highlights, balance).g, shadows.g, highlights.g)
    ensures Between(SplitTone(c, shadows, highlights, balance).b, shadows.b, highlights.b)
  {
    var t := Smoothstep(0.0, 1.0, Luminance(c) + balance);
    MixBetween(shadows.r, highlights.r, t);
    MixBetween(shadows.g, highlights.g, t);
    MixBetween(shadows.b, highlights.b, t);
  }

  predicate Between(x: real, a: real, b: real) { Min(a, b) <= x <= Max(a, b) }

  lemma MixBetween(x: real, y: real, t: real)
    requires 0.0 <= t <= 1.0
    ensures Between(Mix(x, y, t), x, y)
  {
    assert Mix(x, y, t) == x + (y - x) * t;
    if x <= y {
      MulMonotone(0.0, t, y - x);
      MulMonotone(t, 1.0, y - x);
    } else {
      MulMonotone(0.0, t, x - y);
      MulMonotone(t, 1.0, x - y);
    }
  }

  // ---------------------------------------------------------------- tone mapping

  /** The denominator of the filmic curve, positive for every input. */
  function FilmicDenominator(x: real): (d: real)
    ensures 0.0 < d
  {
    assert x * (2.43 * x + 0.59) + 0.14 == 2.43 * (x + 0.59 / 4.86) * (x + 0.59 / 4.86) + (0.14 - 0.59 * 0.59 / 9.72);
    SquareNonNegative(x + 0.59 / 4.86);
    x * (2.43 * x + 0.59) + 0.14
  }

  lemma SquareNonNegative(a: real)
    ensures 0.0 <= a * a
  {
    if a < 0.0 { MulNonNegative(-a, -a); } else { MulNonNegative(a, a); }
  }

  /** One channel of `toneMapFilmic`: `x (2.51 x + 0.03) / (x (2.43 x + 0.59) + 0.14)`. */
  function Filmic(x: real): real
  {
    x * (2.51 * x + 0.03) / FilmicDenominator(x)
  }

  /** `toneMapFilmic` on each channel. */
  function ToneMapFilmic(c: Vec3): Vec3
  {
    Vec3(Filmic(c.r), Filmic(c.g), Filmic(c.b))
  }

  /**
   * The curve fixes black and maps [0, infinity) into [0, 2.51 / 2.43); on [0, 7] it
   * stays at most 1.
   */
  lemma FilmicRange(x: real)
    requires 0.0 <= x
    ensures Filmic(0.0) == 0.0
    ensures 0.0 <= Filmic(x) < 2.51 / 2.43
    ensures x <= 7.0 ==> Filmic(x) <= 1.0
  {
    var n, d := x * (2.51 * x + 0.03), FilmicDenominator(x);
    MulNonNegative(x, 2.51 * x + 0.03);
    assert 2.43 * n < 2.51 * d by {
      assert 2.51 * d - 2.43 * n == 2.51 * 0.59 * x - 2.43 * 0.03 * x + 2.51 * 0.14;
    }
    QuotientBelow(n, d, 2.51 / 2.43);
    if x <= 7.0 {
      assert d - n == 0.14 + 0.56 * x - 0.08 * x * x;
      MulMonotone(x, 7.0, x);
      QuotientAtMostOne(n, d);
    }
  }

  lemma QuotientBelow(n: real, d: real, q: real)
    requires 0.0 < d && 0.0 <= n && n < q * d
    ensures 0.0 <= n / d < q
  {}

  lemma QuotientAtMostOne(n: real, d: real)
    requires 0.0 < d && n <= d
    ensures n / d <= 1.0
  {}

  /** The curve is strictly increasing on [0, infinity): tone mapping keeps the order of intensities. */
  lemma FilmicIncreasing(a: real, b: real)
    requires 0.0 <= a < b
    ensures Filmic(a) < Filmic(b)
  {
    var na, da := a * (2.51 * a + 0.03), FilmicDenominator(a);
    var nb, db := b * (2.51 * b + 0.03), FilmicDenominator(b);
    var m := 1.408 * a * b + 0.3514 * (a + b) + 0.0042;
    assert 0.0 < m by { MulNonNegative(a, b); }
    FilmicCross(a, b);
    CrossToQuotient(na, da, nb, db, b - a, m);
    assert Filmic(a) == na / da && Filmic(b) == nb / db;
  }

  lemma FilmicCross(a: real, b: real)
    ensures b * (2.51 * b + 0.03) * (a * (2.43 * a + 0.59) + 0.14) - a * (2.51 * a + 0.03) * (b * (2.43 * b + 0.59) + 0.14)
         == (b - a) * (1.408 * a * b + 0.3514 * (a + b) + 0.0042)
  {}

  lemma CrossToQuotient(na: real, da: real, nb: real, db: real, gap: real, m: real)
    requires 0.0 < da && 0.0 < db && 0.0 < gap && 0.0 < m
    requires nb * da - na * db == gap * m
    ensures na / da < nb / db
  {
    MulPositive(gap, m);
    assert na / da == na * db / (da * db);
    assert nb / db == nb * da / (da * db);
    MulPositive(da, db);
  }

  // ---------------------------------------------------------------- hue ranges

  /** `getHueRange`: which of the eight hue buckets a hue in [0,1] falls in; red wraps around. */
  function HueRange(hue: real): (i: int)
    ensures 0 <= i < 8
  {
    if hue < 0.04 || hue > 0.96 then 0
    else if hue < 0.10 then 1
    else if hue < 0.17 then 2
    else if hue < 0.30 then 3
    else if hue < 0.45 then 4
    else if hue < 0.60 then 5
    else if hue < 0.75 then 6
    else 7
  }

  /** The upper edges of buckets 1 to 6. */
  const RangeEdges: seq<real> := [0.10, 0.17, 0.30, 0.45, 0.60, 0.75]

  /** How many of the first `n` edges lie at or below `hue`. */
  function EdgesBelow(hue: real, n: nat): nat
    requires n <= |RangeEdges|
  {
    if n == 0 then 0 else EdgesBelow(hue, n - 1) + (if RangeEdges[n - 1] <= hue then 1 else 0)
  }

  /** Away from red, the bucket is one more than the number of edges at or below the hue. */
  lemma HueRangeCountsEdges(hue: real)
    requires 0.04 <= hue <= 0.96
    ensures HueRange(hue) == 1 + EdgesBelow(hue, 6)
  {
    assert EdgesBelow(hue, 1) == (if 0.10 <= hue then 1 else 0);
    assert EdgesBelow(hue, 2) == EdgesBelow(hue, 1) + (if 0.17 <= hue then 1 else 0);
    assert EdgesBelow(hue, 3) == EdgesBelow(hue, 2) + (if 0.30 <= hue then 1 else 0);
    assert EdgesBelow(hue, 4) == EdgesBelow(hue, 3) + (if 0.45 <= hue then 1 else 0);
    assert EdgesBelow(hue, 5) == EdgesBelow(hue, 4) + (if 0.60 <= hue then 1 else 0);
    assert EdgesBelow(hue, 6) == EdgesBelow(hue, 5) + (if 0.75 <= hue then 1 else 0);
  }

  /** Between the red edges, a larger hue never falls in an earlier bucket. */
  lemma HueRangeMonotone(h1: real, h2: real)
    requires 0.04 <= h1 <= h2 <= 0.96
    ensures HueRange(h1) <= HueRange(h2)
  {
    HueRangeCountsEdges(h1);
    HueRangeCountsEdges(h2);
    EdgesBelowMonotone(h1, h2, 6);
  }

  lemma {:induction false} EdgesBelowMonotone(h1: real, h2: real, n: nat)
    requires h1 <= h2 && n <= |RangeEdges|
    ensures EdgesBelow(h1, n) <= EdgesBelow(h2, n)
  {
    if n > 0 { EdgesBelowMonotone(h1, h2, n - 1); }
  }

  // ---------------------------------------------------------------- circular distance

  /** `circularDistance`: the distance between two hues on the unit circle of hues. */
  function CircularDistance(a: real, b: real): real
  {
    var diff := Abs(a - b);
    Min(diff, 1.0 - diff)
  }

  /**
   * The distance is symmetric, lies in [0, 0.5] for hues at most one turn apart, and is
   * zero exactly for equal hues and for the two ends 0 and 1 of the circle.
   */
  lemma CircularDistanceProps(a: real, b: real)
    ensures CircularDistance(a, b) == CircularDistance(b, a)
    ensures Abs(a - b) <= 1.0 ==> 0.0 <= CircularDistance(a, b) <= 0.5
    ensures Abs(a - b) <= 1.0 ==> (CircularDistance(a, b) == 0.0 <==> a == b || Abs(a - b) == 1.0)
  {}
}

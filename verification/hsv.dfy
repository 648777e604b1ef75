/**
 * The shader's branch-free HSV conversions (`rgbToHsv`, `hsvToRgb`) and the hue
 * rotation `colorHueRadians`, which inlines both. Hue, saturation and value are the
 * `x`, `y` and `z` (here `r`, `g`, `b`) components of a `Vec3`; hue is in turns.
 */
module Hsv {
  import opened Color

  datatype Vec4 = Vec4(x: real, y: real, z: real, w: real)

  /** GLSL `step(edge, x)`: 0 below the edge, 1 from it on. */
  function Step(edge: real, x: real): real { if x < edge then 0.0 else 1.0 }

  /** GLSL `mix` on `vec4`. */
  function Mix4(a: Vec4, b: Vec4, t: real): Vec4
  {
    Vec4(Mix(a.x, b.x, t), Mix(a.y, b.y, t), Mix(a.z, b.z, t), Mix(a.w, b.w, t))
  }

  /** The `1e-10` the shader adds to both denominators of `rgbToHsv`. */
  const Epsilon: real := 0.0000000001

  /**
   * The vector `q` of `rgbToHsv`: two `step`-driven mixes that sort the channels,
   * leaving the largest channel in `q.x` and the hue sector's offset in `q.z`.
   */
  function SortedChannels(c: Vec3): Vec4
  {
    var p := Mix4(Vec4(c.b, c.g, -1.0, 2.0 / 3.0), Vec4(c.g, c.b, 0.0, -1.0 / 3.0), Step(c.b, c.g));
    Mix4(Vec4(p.x, p.y, p.w, c.r), Vec4(c.r, p.y, p.z, p.x), Step(p.x, c.r))
  }

  /** `mix` at the ends 0 and 1 picks one operand exactly. */
  lemma MixEnds(a: Vec4, b: Vec4)
    ensures Mix4(a, b, 0.0) == a
    ensures Mix4(a, b, 1.0) == b
  {}

  /** The four outcomes of the sort, one per ordering of the channels. */
  lemma SortedCases(c: Vec3)
    ensures c.b <= c.g && c.g <= c.r ==> SortedChannels(c) == Vec4(c.r, c.b, 0.0, c.g)
    ensures c.b <= c.g && c.r < c.g ==> SortedChannels(c) == Vec4(c.g, c.b, -1.0 / 3.0, c.r)
    ensures c.g < c.b && c.b <= c.r ==> SortedChannels(c) == Vec4(c.r, c.g, -1.0, c.b)
    ensures c.g < c.b && c.r < c.b ==> SortedChannels(c) == Vec4(c.b, c.g, 2.0 / 3.0, c.r)
  {
    var a1, b1 := Vec4(c.b, c.g, -1.0, 2.0 / 3.0), Vec4(c.g, c.b, 0.0, -1.0 / 3.0);
    MixEnds(a1, b1);
    var p := Mix4(a1, b1, Step(c.b, c.g));
    MixEnds(Vec4(p.x, p.y, p.w, c.r), Vec4(c.r, p.y, p.z, p.x));
  }

  /** The spread `d = q.x - min(q.w, q.y)`: the largest channel minus the smallest. */
  function Spread(q: Vec4): real { q.x - Min(q.w, q.y) }

  /** The sort puts the largest channel first and the spread is `max - min`. */
  lemma SortedMax(c: Vec3)
    ensures SortedChannels(c).x == Max3(c)
    ensures Spread(SortedChannels(c)) == Max3(c) - Min3(c)
    ensures Abs(SortedChannels(c).w - SortedChannels(c).y) <= Spread(SortedChannels(c))
  {
    SortedCases(c);
  }

  /** `rgbToHsv` divides by `max + 1e-10`, which GLSL leaves undefined at zero. */
  predicate HsvDefined(c: Vec3) { Max3(c) + Epsilon != 0.0 }

  /** `rgbToHsv`. */
  function RgbToHsv(c: Vec3): Vec3
    requires HsvDefined(c)
  {
    var q := SortedChannels(c);
    var d := Spread(q);
    SortedMax(c);
    Vec3(Abs(q.z + (q.w - q.y) / (6.0 * d + Epsilon)), d / (q.x + Epsilon), q.x)
  }

  /** A difference bounded by the spread shifts the sector offset by less than a sixth of a turn. */
  lemma SectorShift(n: real, d: real)
    requires 0.0 <= d && Abs(n) <= d
    ensures -1.0 / 6.0 < n / (6.0 * d + Epsilon) < 1.0 / 6.0
  {
    var den := 6.0 * d + Epsilon;
    assert 6.0 * Abs(n) < den;
    if 0.0 <= n {
      assert n / den * den == n;
    } else {
      assert n / den * den == n;
    }
  }

  /**
   * Hue is in [0, 1) for every colour, value is the largest channel, and for a
   * non-negative colour saturation is in [0, 1).
   */
  lemma RgbToHsvRange(c: Vec3)
    requires HsvDefined(c)
    ensures 0.0 <= RgbToHsv(c).r < 1.0
    ensures RgbToHsv(c).b == Max3(c)
    ensures NonNegative(c) ==> 0.0 <= RgbToHsv(c).g < 1.0
  {
    var q := SortedChannels(c);
    var d := Spread(q);
    SortedCases(c);
    SortedMax(c);
    SectorShift(q.w - q.y, d);
    if NonNegative(c) {
      SaturationBelowOne(d, q.x);
    }
  }

  lemma SaturationBelowOne(d: real, m: real)
    requires 0.0 <= d <= m
    ensures 0.0 <= d / (m + Epsilon) < 1.0
  {
    var den := m + Epsilon;
    var q := d / den;
    assert q * den == d;
    if q >= 1.0 {
      MulMonotone(1.0, q, den);
      assert false;
    }
  }

  /** A gray colour has hue 0, saturation 0 and its level as value. */
  lemma RgbToHsvGray(c: Vec3)
    requires HsvDefined(c) && IsGray(c)
    ensures RgbToHsv(c) == Vec3(0.0, 0.0, c.r)
  {
    SortedCases(c);
  }

  /** One channel of `hsvToRgb`: `clamp(abs(mod(h * 6 + offset, 6) - 3) - 1, 0, 1)`. */
  function SectorRamp(h: real, offset: real): real
  {
    Clamp(Abs(Mod(h * 6.0 + offset, 6.0) - 3.0) - 1.0, 0.0, 1.0)
  }

  /** The fully saturated colour of hue `h` at value 1. */
  function PureHue(h: real): Vec3
  {
    Vec3(SectorRamp(h, 0.0), SectorRamp(h, 4.0), SectorRamp(h, 2.0))
  }

  /** `hsvToRgb`: `v * mix(vec3(1), PureHue(h), s)`. */
  function HsvToRgb(hsv: Vec3): Vec3
  {
    Scale(MixV(Splat(1.0), PureHue(hsv.r), hsv.g), hsv.b)
  }

  /** Saturation 0 gives the gray of the value, whatever the hue. */
  lemma HsvToRgbGray(h: real, v: real)
    ensures HsvToRgb(Vec3(h, 0.0, v)) == Splat(v)
  {}

  /**
   * With saturation in [0, 1] and a non-negative value every channel lies in [0, v]
   * (`HsvToRgbGray` gives the exact colour at saturation 0).
   */
  lemma HsvToRgbRange(hsv: Vec3)
    requires 0.0 <= hsv.g <= 1.0 && 0.0 <= hsv.b
    ensures Below(HsvToRgb(hsv), Splat(hsv.b))
  {
    var q := PureHue(hsv.r);
    assert InUnitCube(q);
    var m := MixV(Splat(1.0), q, hsv.g);
    var rgb := HsvToRgb(hsv);
    MixUnit(1.0, q.r, hsv.g, m.r);
    MixUnit(1.0, q.g, hsv.g, m.g);
    MixUnit(1.0, q.b, hsv.g, m.b);
    ScaleUnit(m.r, hsv.b, rgb.r);
    ScaleUnit(m.g, hsv.b, rgb.g);
    ScaleUnit(m.b, hsv.b, rgb.b);
  }

  lemma MixUnit(x: real, y: real, t: real, p: real)
    requires 0.0 <= x <= 1.0 && 0.0 <= y <= 1.0 && 0.0 <= t <= 1.0 && p == Mix(x, y, t)
    ensures 0.0 <= p <= 1.0
  {
    ScaleUnit(x, 1.0 - t, x * (1.0 - t));
    ScaleUnit(y, t, y * t);
  }

  lemma ScaleUnit(m: real, v: real, p: real)
    requires 0.0 <= m <= 1.0 && 0.0 <= v && p == m * v
    ensures 0.0 <= p <= v
  {
    MulMonotone(m, 1.0, v);
    MulNonNegative(m, v);
  }

  /** Adding whole turns to the hue leaves `hsvToRgb` unchanged. */
  lemma HsvToRgbPeriodic(hsv: Vec3, n: int)
    ensures HsvToRgb(Vec3(hsv.r + n as real, hsv.g, hsv.b)) == HsvToRgb(hsv)
  {
    var h := hsv.r;
    ModShift(h * 6.0 + 0.0, n);
    ModShift(h * 6.0 + 4.0, n);
    ModShift(h * 6.0 + 2.0, n);
    assert (h + n as real) * 6.0 + 0.0 == h * 6.0 + 0.0 + 6.0 * n as real;
    assert (h + n as real) * 6.0 + 4.0 == h * 6.0 + 4.0 + 6.0 * n as real;
    assert (h + n as real) * 6.0 + 2.0 == h * 6.0 + 2.0 + 6.0 * n as real;
  }

  /** Only the hue modulo one turn matters to `hsvToRgb`. */
  lemma HsvToRgbModHue(h: real, s: real, v: real)
    ensures HsvToRgb(Vec3(Mod(h, 1.0), s, v)) == HsvToRgb(Vec3(h, s, v))
  {
    var n := -(h.Floor);
    assert Mod(h, 1.0) == h + n as real by { assert h / 1.0 == h; }
    HsvToRgbPeriodic(Vec3(h, s, v), n);
  }

  lemma ModShift(x: real, n: int)
    ensures Mod(x + 6.0 * n as real, 6.0) == Mod(x, 6.0)
  {
    assert (x + 6.0 * n as real) / 6.0 == x / 6.0 + n as real;
    FloorShift(x / 6.0, n);
  }

  lemma FloorShift(x: real, n: int)
    ensures (x + n as real).Floor == x.Floor + n
  {}

  // ---------------------------------------------------------------- hue rotation

  /**
   * `colorHueRadians`'s wrap of the shifted hue: add or drop one turn when it leaves
   * [0, 1]. A hue of [0, 1) shifted by at most one turn either way lands back in [0, 1].
   */
  function HueWrap(hue: real): real
  {
    if hue < 0.0 then hue + 1.0 else if hue > 1.0 then hue - 1.0 else hue
  }

  lemma HueWrapRange(hue: real)
    requires -1.0 <= hue <= 2.0
    ensures 0.0 <= HueWrap(hue) <= 1.0
    ensures HueWrap(hue) - hue in {-1.0, 0.0, 1.0}
  {}

  /** One channel of the inline conversion: `clamp(abs(fract(h + k) * 6 - 3) - 1, 0, 1)`. */
  function FractRamp(h: real, k: real): real
  {
    Clamp(Abs(Fract(h + k) * 6.0 - 3.0) - 1.0, 0.0, 1.0)
  }

  /**
   * `colorHueRadians`: convert to HSV (the same formula as `rgbToHsv`), shift and wrap
   * the hue, and convert back with the `fract` form of `hsvToRgb`.
   */
  function HueRotate(c: Vec3, offset: real): Vec3
    requires HsvDefined(c)
  {
    var hsv := RgbToHsv(c);
    var h := HueWrap(hsv.r + offset);
    var rgb := Vec3(FractRamp(h, 1.0), FractRamp(h, 2.0 / 3.0), FractRamp(h, 1.0 / 3.0));
    Scale(MixV(Splat(1.0), rgb, hsv.g), hsv.b)
  }

  /** `fract(h + k) * 6` and `mod(6 h + 6 k, 6)` agree. */
  lemma FractIsMod(h: real, k: real)
    ensures Fract(h + k) * 6.0 == Mod(h * 6.0 + k * 6.0, 6.0)
  {
    assert (h * 6.0 + k * 6.0) / 6.0 == h + k;
  }

  lemma FractShift(x: real, n: int)
    ensures Fract(x + n as real) == Fract(x)
  {
    FloorShift(x, n);
  }

  /**
   * The hue rotation is `hsvToRgb` of the shifted hue: the inline `fract` conversion
   * agrees with `hsvToRgb`, and the wrap only adds or drops whole turns.
   */
  lemma HueRotateIsShift(c: Vec3, offset: real)
    requires HsvDefined(c)
    ensures HueRotate(c, offset) == HsvToRgb(Vec3(RgbToHsv(c).r + offset, RgbToHsv(c).g, RgbToHsv(c).b))
  {
    var hsv := RgbToHsv(c);
    var x := hsv.r + offset;
    var h := HueWrap(x);
    WrapRamp(x, 1.0, 0.0, -1);
    WrapRamp(x, 2.0 / 3.0, 4.0, 0);
    WrapRamp(x, 1.0 / 3.0, 2.0, 0);
    assert Vec3(FractRamp(h, 1.0), FractRamp(h, 2.0 / 3.0), FractRamp(h, 1.0 / 3.0)) == PureHue(x);
  }

  /**
   * One channel: the `fract` ramp of the wrapped hue at `k` turns is the `mod` ramp of
   * the unwrapped hue at offset `o`, when `o` is `6 k` up to whole multiples of 6.
   */
  lemma WrapRamp(x: real, k: real, o: real, m: int)
    requires o == k * 6.0 + 6.0 * m as real
    ensures FractRamp(HueWrap(x), k) == SectorRamp(x, o)
  {
    var n: int := if x < 0.0 then 1 else if x > 1.0 then -1 else 0;
    calc {
      Fract(HueWrap(x) + k) * 6.0;
      { assert HueWrap(x) + k == x + k + n as real; FractShift(x + k, n); }
      Fract(x + k) * 6.0;
      { FractIsMod(x, k); }
      Mod(x * 6.0 + k * 6.0, 6.0);
      { assert x * 6.0 + k * 6.0 == x * 6.0 + o + 6.0 * (-m) as real; ModShift(x * 6.0 + o, -m); }
      Mod(x * 6.0 + o, 6.0);
    }
  }

  /** Offsets a whole turn apart rotate alike; in particular offsets -1, 0 and 1 all leave the hue alone. */
  lemma HueRotateTurn(c: Vec3, offset: real)
    requires HsvDefined(c)
    ensures HueRotate(c, offset + 1.0) == HueRotate(c, offset)
    ensures HueRotate(c, 1.0) == HueRotate(c, 0.0) == HueRotate(c, -1.0)
  {
    var hsv := RgbToHsv(c);
    HueRotateIsShift(c, offset);
    HueRotateIsShift(c, offset + 1.0);
    HsvToRgbPeriodic(Vec3(hsv.r + offset, hsv.g, hsv.b), 1);
    HueRotateIsShift(c, 0.0);
    HueRotateIsShift(c, 1.0);
    HueRotateIsShift(c, -1.0);
    HsvToRgbPeriodic(Vec3(hsv.r + 0.0, hsv.g, hsv.b), 1);
    HsvToRgbPeriodic(Vec3(hsv.r - 1.0, hsv.g, hsv.b), 1);
  }

  /** Gray colours are unchanged by any hue rotation. */
  lemma HueRotateGray(c: Vec3, offset: real)
    requires HsvDefined(c) && IsGray(c)
    ensures HueRotate(c, offset) == c
  {
    RgbToHsvGray(c);
    HueRotateIsShift(c, offset);
    HsvToRgbGray(offset, c.r);
  }

  /** A non-negative colour stays non-negative and keeps its largest channel as a bound. */
  lemma HueRotateRange(c: Vec3, offset: real)
    requires NonNegative(c)
    ensures HsvDefined(c)
    ensures Below(HueRotate(c, offset), Splat(Max3(c)))
  {
    assert HsvDefined(c);
    RgbToHsvRange(c);
    HueRotateIsShift(c, offset);
    var hsv := RgbToHsv(c);
    HsvToRgbRange(Vec3(hsv.r + offset, hsv.g, hsv.b));
  }
}

/**
 * Colour vectors and the GLSL built-ins the grading shader uses, over real numbers.
 * A `Vec3` is a GLSL `vec3`; its components are read as `.r/.g/.b` by the shader and
 * as `.x/.y/.z` by the THREE.Vector3 values bound to it.
 */
module Color {

  datatype Vec3 = Vec3(r: real, g: real, b: real)

  function Splat(x: real): Vec3 { Vec3(x, x, x) }

  function Add(a: Vec3, b: Vec3): Vec3 { Vec3(a.r + b.r, a.g + b.g, a.b + b.b) }

  function Scale(a: Vec3, k: real): Vec3 { Vec3(a.r * k, a.g * k, a.b * k) }

  /** Componentwise product, GLSL `vec3 * vec3`. */
  function Mul(a: Vec3, b: Vec3): Vec3 { Vec3(a.r * b.r, a.g * b.g, a.b * b.b) }

  function Dot(a: Vec3, b: Vec3): real { a.r * b.r + a.g * b.g + a.b * b.b }

  function Min(x: real, y: real): real { if x < y then x else y }

  function Max(x: real, y: real): real { if x > y then x else y }

  function Abs(x: real): real { if x < 0.0 then -x else x }

  /** The largest and the smallest channel. */
  function Max3(c: Vec3): real { Max(Max(c.r, c.g), c.b) }

  function Min3(c: Vec3): real { Min(Min(c.r, c.g), c.b) }

  /** GLSL `clamp(x, lo, hi)`, i.e. `min(max(x, lo), hi)`. */
  function Clamp(x: real, lo: real, hi: real): (c: real)
    requires lo <= hi
    ensures lo <= c <= hi
    ensures lo <= x <= hi ==> c == x
  {
    Min(Max(x, lo), hi)
  }

  function Clamp01(c: Vec3): Vec3 { Vec3(Clamp(c.r, 0.0, 1.0), Clamp(c.g, 0.0, 1.0), Clamp(c.b, 0.0, 1.0)) }

  /** GLSL `mix(x, y, a)`: `x * (1 - a) + y * a`. */
  function Mix(x: real, y: real, a: real): real { x * (1.0 - a) + y * a }

  function MixV(x: Vec3, y: Vec3, a: real): Vec3 { Vec3(Mix(x.r, y.r, a), Mix(x.g, y.g, a), Mix(x.b, y.b, a)) }

  /** The Rec. 601 luma weights the shader uses in every luminance computation. */
  const LumaWeights: Vec3 := Vec3(0.299, 0.587, 0.114)

  function Luminance(c: Vec3): (l: real)
    ensures IsGray(c) ==> l == c.r
    ensures NonNegative(c) ==> 0.0 <= l
  {
    Dot(c, LumaWeights)
  }

  predicate IsGray(c: Vec3) { c.r == c.g == c.b }

  predicate NonNegative(c: Vec3) { 0.0 <= c.r && 0.0 <= c.g && 0.0 <= c.b }

  predicate InUnitCube(c: Vec3) { NonNegative(c) && c.r <= 1.0 && c.g <= 1.0 && c.b <= 1.0 }

  /** Every channel of `c` lies between 0 and the same channel of `bound`. */
  predicate Below(c: Vec3, bound: Vec3) {
    0.0 <= c.r <= bound.r && 0.0 <= c.g <= bound.g && 0.0 <= c.b <= bound.b
  }

  /** The cubic Hermite ramp `t*t*(3-2t)` on the clamped position of `x` between the edges. */
  function Hermite(t: real): (h: real)
    requires 0.0 <= t <= 1.0
    ensures 0.0 <= h <= 1.0
    ensures t == 0.0 ==> h == 0.0
    ensures t == 1.0 ==> h == 1.0
  {
    MulNonNegative(t, t);
    MulNonNegative(t * t, 3.0 - 2.0 * t);
    MulNonNegative(1.0 - t, 1.0 - t);
    MulNonNegative((1.0 - t) * (1.0 - t), 1.0 + 2.0 * t);
    assert 1.0 - t * t * (3.0 - 2.0 * t) == (1.0 - t) * (1.0 - t) * (1.0 + 2.0 * t);
    t * t * (3.0 - 2.0 * t)
  }

  /** GLSL `smoothstep(e0, e1, x)`, whose result is undefined unless `e0 < e1`. */
  function Smoothstep(e0: real, e1: real, x: real): (s: real)
    requires e0 < e1
    ensures 0.0 <= s <= 1.0
    ensures x <= e0 ==> s == 0.0
    ensures e1 <= x ==> s == 1.0
  {
    var w := e1 - e0;
    assert e1 <= x ==> 1.0 <= (x - e0) / w by {
      if e1 <= x { QuotientAtLeastOne(x - e0, w); }
    }
    Hermite(Clamp((x - e0) / w, 0.0, 1.0))
  }

  lemma {:induction false} HermiteMonotone(t1: real, t2: real)
    requires 0.0 <= t1 <= t2 <= 1.0
    ensures Hermite(t1) <= Hermite(t2)
  {
    var d := 3.0 * (t1 + t2) - 2.0 * (t1 * t1 + t1 * t2 + t2 * t2);
    assert 0.0 <= d by {
      MulNonNegative(t1, 3.0 - 2.0 * t1 - t2);
      MulNonNegative(t2, 3.0 - 2.0 * t2 - t1);
      assert d == t1 * (3.0 - 2.0 * t1 - t2) + t2 * (3.0 - 2.0 * t2 - t1);
    }
    MulNonNegative(t2 - t1, d);
    HermiteDifference(t1, t2);
  }

  lemma HermiteDifference(t1: real, t2: real)
    ensures t2 * t2 * (3.0 - 2.0 * t2) - t1 * t1 * (3.0 - 2.0 * t1)
         == (t2 - t1) * (3.0 * (t1 + t2) - 2.0 * (t1 * t1 + t1 * t2 + t2 * t2))
  {}

  /** Smoothstep never decreases as `x` grows. */
  lemma {:induction false} SmoothstepMonotone(e0: real, e1: real, x1: real, x2: real)
    requires e0 < e1 && x1 <= x2
    ensures Smoothstep(e0, e1, x1) <= Smoothstep(e0, e1, x2)
  {
    var w := e1 - e0;
    assert (x1 - e0) / w <= (x2 - e0) / w;
    HermiteMonotone(Clamp((x1 - e0) / w, 0.0, 1.0), Clamp((x2 - e0) / w, 0.0, 1.0));
  }

  /** GLSL `fract(x)`: `x - floor(x)`. */
  function Fract(x: real): (f: real)
    ensures 0.0 <= f < 1.0
    ensures (x - f).Floor as real == x - f
    ensures 0.0 <= x < 1.0 ==> f == x
  {
    x - x.Floor as real
  }

  /** GLSL `mod(x, y)`: `x - y * floor(x / y)`. */
  function Mod(x: real, y: real): (m: real)
    requires y > 0.0
    ensures 0.0 <= m < y
  {
    var q := (x / y).Floor as real;
    FloorScaled(x, y, x / y, q);
    x - y * q
  }

  lemma FloorScaled(x: real, y: real, z: real, q: real)
    requires 0.0 < y && y * z == x && q <= z < q + 1.0
    ensures y * q <= x < y * q + y
  {
    assert y * q <= x by { MulMonotone(q, z, y); }
    BelowNextMultiple(x, y, z, q);
  }

  lemma BelowNextMultiple(x: real, y: real, z: real, q: real)
    requires 0.0 < y && y * z == x && z < q + 1.0
    ensures x < y * q + y
  {
    MulStrictMonotone(z, q + 1.0, y);
    Distribute(y, q, q + 1.0);
  }

  lemma Distribute(y: real, q: real, u: real)
    requires u == q + 1.0
    ensures y * u == y * q + y
  {}

  lemma MulNonNegative(a: real, b: real)
    requires 0.0 <= a && 0.0 <= b
    ensures 0.0 <= a * b
  {}

  lemma MulMonotone(a: real, b: real, k: real)
    requires a <= b && 0.0 <= k
    ensures k * a <= k * b && a * k <= b * k
  {
    MulNonNegative(b - a, k);
  }

  lemma MulStrictMonotone(a: real, b: real, k: real)
    requires a < b && 0.0 < k
    ensures k * a < k * b && a * k < b * k
  {}

  lemma QuotientAtLeastOne(a: real, w: real)
    requires 0.0 < w <= a
    ensures 1.0 <= a / w
  {
  }

  /** `mod(x, 1.0)` and `fract(x)` agree. */
  lemma ModOneIsFract(x: real)
    ensures Mod(x, 1.0) == Fract(x)
  {
    assert x / 1.0 == x;
  }
}

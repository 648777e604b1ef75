/**
 * The uniform table the grading pass reads, and the panel's copy of it: `updateUniform`
 * writes one entry of the table and mirrors the write into the panel's scalar, vector or
 * array state; the colour-picker and bucket-slider handlers go through it.
 */
module Uniforms {
  import opened Color
  import opened Wrappers
  import HexCodec

  /** A uniform's `value`: a float, a `THREE.Vector3`, a `Float32Array` or the (opaque) input texture. */
  datatype UniformValue = Scalar(x: real) | Vector(v: Vec3) | Floats(a: seq<real>) | Sampler

  /** The uniforms the panel keeps in `scalarValues`. */
  const ScalarNames: set<string> := {
    "uSaturation", "uVibrancy", "uBrightness", "uContrast", "uHueOffset", "uGamma",
    "uSplitToneBalance", "uExposure", "uKelvin", "uChromaticAberration" }

  /** The uniforms the panel keeps in `vectorValues`. */
  const VectorNames: set<string> := { "uRedMix", "uGreenMix", "uBlueMix", "uShadowTint", "uHighlightTint" }

  /** The uniforms the panel keeps as arrays, one state variable each. */
  const ArrayNames: set<string> := { "hueAdjust", "satAdjust", "lumAdjust" }

  /** The three kinds of shadow state never share a name. */
  lemma NamesDisjoint()
    ensures ScalarNames !! VectorNames && ScalarNames !! ArrayNames && VectorNames !! ArrayNames
  {}

  /** The eight zeros of a fresh `new Float32Array(8)`. */
  const EightZeros: seq<real> := [0.0, 0.0, 0.0, 0.0, 0.0, 0.0, 0.0, 0.0]

  /** The table `colorGradingShader.uniforms` starts with. */
  const DefaultUniforms: map<string, UniformValue> := map[
    "tDiffuse" := Sampler,
    "time" := Scalar(0.0),
    "uRedMix" := Vector(Vec3(1.2, 0.0, 0.0)),
    "uGreenMix" := Vector(Vec3(0.0, 1.0, 0.0)),
    "uBlueMix" := Vector(Vec3(0.0, 0.1, 0.95)),
    "uSaturation" := Scalar(0.6),
    "uVibrancy" := Scalar(1.1),
    "uBrightness" := Scalar(0.0),
    "uContrast" := Scalar(1.0),
    "uHueOffset" := Scalar(0.0),
    "uGamma" := Scalar(1.1),
    "uShadowTint" := Vector(Vec3(0.6, 0.6, 0.6)),
    "uHighlightTint" := Vector(Vec3(0.9, 1.0, 1.0)),
    "uSplitToneBalance" := Scalar(0.0),
    "uExposure" := Scalar(0.1),
    "uKelvin" := Scalar(4000.0),
    "uChromaticAberration" := Scalar(0.0),
    "hueAdjust" := Floats(EightZeros),
    "satAdjust" := Floats(EightZeros),
    "lumAdjust" := Floats(EightZeros)]

  /** Values the spread `[...value]` accepts: typed arrays and vectors (a `THREE.Vector3` iterates x, y, z). */
  predicate Iterable(value: UniformValue) { value.Floats? || value.Vector? }

  /** `[...value]`. */
  function Spread(value: UniformValue): seq<real>
    requires Iterable(value)
  {
    match value
    case Floats(a) => a
    case Vector(v) => [v.r, v.g, v.b]
  }

  /** The restriction of `table` to `names`: the panel's initial copy of those entries. */
  function Restrict(table: map<string, UniformValue>, names: set<string>): map<string, UniformValue>
    requires names <= table.Keys
  {
    map n | n in names :: table[n]
  }

  /** The array state `shadow` is the spread of the table entry `name`. */
  predicate Mirrors(table: map<string, UniformValue>, name: string, shadow: seq<real>)
  {
    name in table && Iterable(table[name]) && Spread(table[name]) == shadow
  }

  /**
   * The panel's shadow state agrees with the uniform table: the scalar and vector
   * stores never share a key and never name an array, the vector store holds the three
   * mix vectors, both agree with the table entry by entry, and each array state is
   * the spread of its table entry.
   */
  predicate Consistent(table: map<string, UniformValue>, scalars: map<string, UniformValue>,
                       vectors: map<string, UniformValue>, hue: seq<real>, sat: seq<real>, lum: seq<real>)
  {
    && scalars.Keys !! vectors.Keys
    && "uRedMix" in vectors && "uGreenMix" in vectors && "uBlueMix" in vectors
    && "hueAdjust" !in scalars && "satAdjust" !in scalars && "lumAdjust" !in scalars
    && "hueAdjust" !in vectors && "satAdjust" !in vectors && "lumAdjust" !in vectors
    && (forall n :: n in scalars ==> n in table && table[n] == scalars[n])
    && (forall n :: n in vectors ==> n in table && table[n] == vectors[n])
    && Mirrors(table, "hueAdjust", hue) && Mirrors(table, "satAdjust", sat) && Mirrors(table, "lumAdjust", lum)
  }

  /** Writing a scalar uniform to the table and to the scalar store keeps them consistent. */
  lemma ScalarWrite(table: map<string, UniformValue>, scalars: map<string, UniformValue>,
                    vectors: map<string, UniformValue>, hue: seq<real>, sat: seq<real>, lum: seq<real>,
                    name: string, value: UniformValue)
    requires Consistent(table, scalars, vectors, hue, sat, lum) && name in scalars
    ensures Consistent(table[name := value], scalars[name := value], vectors, hue, sat, lum)
  {}

  /** Writing a vector uniform to the table and to the vector store keeps them consistent. */
  lemma VectorWrite(table: map<string, UniformValue>, scalars: map<string, UniformValue>,
                    vectors: map<string, UniformValue>, hue: seq<real>, sat: seq<real>, lum: seq<real>,
                    name: string, value: UniformValue)
    requires Consistent(table, scalars, vectors, hue, sat, lum) && name in vectors
    ensures Consistent(table[name := value], scalars, vectors[name := value], hue, sat, lum)
  {}

  /** Writing an iterable value to an array uniform and spreading it into its state keeps them consistent. */
  lemma ArrayWrite(table: map<string, UniformValue>, scalars: map<string, UniformValue>,
                   vectors: map<string, UniformValue>, hue: seq<real>, sat: seq<real>, lum: seq<real>,
                   name: string, value: UniformValue)
    requires Consistent(table, scalars, vectors, hue, sat, lum)
    requires (name == "hueAdjust" || name == "satAdjust" || name == "lumAdjust") && Iterable(value)
    ensures Consistent(table[name := value], scalars, vectors,
      if name == "hueAdjust" then Spread(value) else hue,
      if name == "satAdjust" then Spread(value) else sat,
      if name == "lumAdjust" then Spread(value) else lum)
  {}

  class GradingUniforms {
    /** `colorGradingPass.material.uniforms`, name to `value`. */
    var uniforms: map<string, UniformValue>
    /** The panel's shadow state. */
    var scalarValues: map<string, UniformValue>
    var vectorValues: map<string, UniformValue>
    var hueAdjust: seq<real>
    var satAdjust: seq<real>
    var lumAdjust: seq<real>

    /** The shadow state agrees with the table. */
    predicate Valid()
      reads this
    {
      Consistent(uniforms, scalarValues, vectorValues, hueAdjust, satAdjust, lumAdjust)
    }

    /** The shader's default table, and the panel state read from it. */
    constructor ()
      ensures Valid()
      ensures uniforms == DefaultUniforms
      ensures scalarValues.Keys == ScalarNames && vectorValues.Keys == VectorNames
      ensures |hueAdjust| == |satAdjust| == |lumAdjust| == 8
    {
      NamesDisjoint();
      assert "hueAdjust" in ArrayNames && "satAdjust" in ArrayNames && "lumAdjust" in ArrayNames;
      uniforms := DefaultUniforms;
      scalarValues := Restrict(DefaultUniforms, ScalarNames);
      vectorValues := Restrict(DefaultUniforms, VectorNames);
      hueAdjust := EightZeros;
      satAdjust := EightZeros;
      lumAdjust := EightZeros;
    }

    /**
     * `updateUniform(name, value)`: nothing happens for a name the table lacks; otherwise
     * that one table entry becomes `value`, and the first shadow store that knows the
     * name (scalars, then vectors, then the three arrays by name) records the same value.
     */
    method UpdateUniform(name: string, value: UniformValue)
      requires Valid()
      requires name in ArrayNames ==> Iterable(value)
      modifies this
      ensures Valid()
      ensures name !in old(uniforms) ==> unchanged(this)
      ensures name in old(uniforms) ==> uniforms == old(uniforms)[name := value]
      ensures uniforms.Keys == old(uniforms.Keys)
      ensures scalarValues == if name in old(uniforms) && name in old(scalarValues) then old(scalarValues)[name := value] else old(scalarValues)
      ensures vectorValues == if name in old(uniforms) && name in old(vectorValues) then old(vectorValues)[name := value] else old(vectorValues)
      ensures hueAdjust == if name in old(uniforms) && name == "hueAdjust" then Spread(value) else old(hueAdjust)
      ensures satAdjust == if name in old(uniforms) && name == "satAdjust" then Spread(value) else old(satAdjust)
      ensures lumAdjust == if name in old(uniforms) && name == "lumAdjust" then Spread(value) else old(lumAdjust)
    {
      if name in uniforms {
        var table := uniforms;
        uniforms := uniforms[name := value];
        if name in scalarValues {
          ScalarWrite(table, scalarValues, vectorValues, hueAdjust, satAdjust, lumAdjust, name, value);
          scalarValues := scalarValues[name := value];
        } else if name in vectorValues {
          VectorWrite(table, scalarValues, vectorValues, hueAdjust, satAdjust, lumAdjust, name, value);
          vectorValues := vectorValues[name := value];
        } else if name == "hueAdjust" {
          ArrayWrite(table, scalarValues, vectorValues, hueAdjust, satAdjust, lumAdjust, name, value);
          hueAdjust := Spread(value);
        } else if name == "satAdjust" {
          ArrayWrite(table, scalarValues, vectorValues, hueAdjust, satAdjust, lumAdjust, name, value);
          satAdjust := Spread(value);
        } else if name == "lumAdjust" {
          ArrayWrite(table, scalarValues, vectorValues, hueAdjust, satAdjust, lumAdjust, name, value);
          lumAdjust := Spread(value);
        }
      }
    }

    /**
     * The Red/Green/Blue Mix picker's `onChange`: decode the picked `#rrggbb` (a colour
     * input's value is always seven characters of lowercase hex), divide each channel by
     * 255 and store the vector. The picker, which shows `rgbToHex(v * 255)`, then
     * displays exactly the colour that was picked.
     */
    method PickMixColor(name: string, hex: string)
      requires Valid()
      requires name == "uRedMix" || name == "uGreenMix" || name == "uBlueMix"
      requires HexCodec.IsLowerHexColor(hex)
      modifies this
      ensures Valid()
      ensures uniforms == old(uniforms)[name := vectorValues[name]]
      ensures HexCodec.PickerDecode(hex).Some?
      ensures vectorValues == old(vectorValues)[name := Vector(HexCodec.PickerDecode(hex).value)]
      ensures InUnitCube(vectorValues[name].v)
      ensures HexCodec.PickerEncode(vectorValues[name].v) == hex
      ensures scalarValues == old(scalarValues)
      ensures hueAdjust == old(hueAdjust) && satAdjust == old(satAdjust) && lumAdjust == old(lumAdjust)
    {
      HexCodec.PickerEncodeOfDecode(hex);
      var decoded := HexCodec.PickerDecode(hex).value;
      UpdateUniform(name, Vector(decoded));
    }

    /**
     * A Hue/Sat/Lum bucket slider's `onChange`: copy the array, replace entry `i` and
     * store the copy as a new `Float32Array`.
     */
    method SetBucket(name: string, i: nat, x: real)
      requires Valid()
      requires name == "hueAdjust" || name == "satAdjust" || name == "lumAdjust"
      requires name == "hueAdjust" ==> i < |hueAdjust|
      requires name == "satAdjust" ==> i < |satAdjust|
      requires name == "lumAdjust" ==> i < |lumAdjust|
      modifies this
      ensures Valid()
      ensures hueAdjust == if name == "hueAdjust" then old(hueAdjust)[i := x] else old(hueAdjust)
      ensures satAdjust == if name == "satAdjust" then old(satAdjust)[i := x] else old(satAdjust)
      ensures lumAdjust == if name == "lumAdjust" then old(lumAdjust)[i := x] else old(lumAdjust)
      ensures scalarValues == old(scalarValues) && vectorValues == old(vectorValues)
      ensures uniforms == old(uniforms)[name := Floats(if name == "hueAdjust" then hueAdjust else if name == "satAdjust" then satAdjust else lumAdjust)]
    {
      NamesDisjoint();
      assert name in ArrayNames && name in uniforms;
      assert name !in ScalarNames && name !in VectorNames;
      var copy := if name == "hueAdjust" then hueAdjust else if name == "satAdjust" then satAdjust else lumAdjust;
      copy := copy[i := x];
      UpdateUniform(name, Floats(copy));
    }
  }
}

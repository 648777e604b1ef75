# ColorGradingGUI in Dafny

A model of the colour-grading panel of ColorGradingGUI (`src/ColorGradingGUI.jsx`), in three parts.

- **The hex colour codec** (module `HexCodec`).
  - `rgbToHex` clamps each channel from above at 255 and rounds with JavaScript's `Math.round`. It writes the result with `toString(16)` and left-pads it to two digits.
  - `hexToRgb` reads the slices [1,3), [3,5) and [5,7) with `parseInt(_, 16)`.
  - The colour pickers decode a picked colour by dividing each channel by 255.
  - `Round`, `ToString16`, `Slice` and `ParseInt16` model the JavaScript built-ins `Math.round`, `Number.prototype.toString(16)`, `String.prototype.slice` and `parseInt`. `ParseInt16` covers white space, sign, the `0x` prefix, the longest hex prefix, and NaN as `None`.
- **The per-pixel grading stages** of the embedded GLSL fragment shader.
  - Modules: `Color` holds the vector helpers and the GLSL built-ins `clamp`, `mix`, `smoothstep`, `fract` and `mod`. `Hsv` holds the two HSV conversions and the hue rotation. `Stages` holds the stage functions. `HslPerRange` holds the per-hue-range adjustment. `Pipeline` holds `main`.
  - Colours are triples of reals.
  - `pow`, `log` and `exp` are not computed. Each stage takes them as a `Kernels.Builtins` value of function values. The subset type `Kernels.Math` keeps only values that satisfy a few laws every real implementation obeys, such as: a positive base gives a positive power, `x^1 = x`, and `2^y` grows with `y`.
- **The uniform binding** (module `Uniforms`). Class `GradingUniforms` holds:
  - the shader's uniform table;
  - the panel's shadow state: `scalarValues`, `vectorValues` and the three hue, saturation and luminance arrays.

  `UpdateUniform` is the panel's `updateUniform`. Two of its callers are modelled as well: the mix-colour picker handler and the bucket slider handler.

Main results:
- The codec round-trips both ways:
  - every byte triple survives `hexToRgb(rgbToHex(…))`;
  - every lowercase `#rrggbb` survives `rgbToHex(hexToRgb(…))`.
- A picked colour is displayed back exactly.
- An encoded unit colour decodes to within 1/510 per channel.
- Every graded pixel lies in the unit cube.
- Under neutral settings, grading is two HSV round trips followed by the filmic curve. A gray pixel only goes through the curve.
- `updateUniform` writes exactly one table entry and mirrors it into at most one shadow store; names such as `time` and `tDiffuse` only change the table. The shadow state stays consistent with the table.

Three facts about the shader that the model relies on:
- GLSL's `mat3(redMix, greenMix, blueMix)` takes its arguments as columns. The mixer therefore computes `c.r*redMix + c.g*greenMix + c.b*blueMix` (`Stages.RedColumn`, `Stages.GreenColumn`, `Stages.BlueColumn`).
- The saturation stage blends with factor `1 + saturation`, so saturation 0 is its neutral setting.
- At hue offset 0 and with all per-range adjustments 0, the hue rotation and the per-range stage still each convert to HSV and back, and `rgbToHsv` adds `1e-10` to its denominators. `Pipeline.GradeNeutral` states exactly what the neutral pipeline computes.

## Model

All source paths are in `src/ColorGradingGUI.jsx`.

| member | source | states |
|---|---|---|
| HexCodec.Round | src/ColorGradingGUI.jsx:9 | `Math.round` returns the integer n with n - 1/2 <= x < n + 1/2, so halves round up |
| HexCodec.ReadHexAppend | src/ColorGradingGUI.jsx:17-19 | reading hex digits left to right: reading a + b continues from the value read for a |
| HexCodec.DigitsRead | src/ColorGradingGUI.jsx:9 | the base-16 digits of every natural number are lowercase hex digits and read back to the number |
| HexCodec.ParseOfToString16 | src/ColorGradingGUI.jsx:9-19 | `parseInt(n.toString(16), 16)` is n for every integer, negative ones included |
| HexCodec.ParseInt16 | src/ColorGradingGUI.jsx:17-19 | `parseInt(_, 16)`: white space, sign, `0x` prefix, longest hex-digit prefix, NaN as `None`; it inverts `toString(16)` (`ParseOfToString16`) |
| HexCodec.Slice | src/ColorGradingGUI.jsx:17-19 | `slice(start, end)` is the sub-sequence when the bounds fit, and empty when start is at or past the end or the length |
| HexCodec.ParseOfPair | src/ColorGradingGUI.jsx:17-19 | two lowercase hex digits parse to 16 * high + low |
| HexCodec.ToHex | src/ColorGradingGUI.jsx:8-11 | the inner `toHex`: clamp from above at 255, `Math.round`, `toString(16)`, pad one digit with `0`; its outputs are stated by the three lemmas below |
| HexCodec.RgbToHex | src/ColorGradingGUI.jsx:7-13 | `rgbToHex`: `#` and the three `toHex` pieces; format in `RgbToHexFormat`, inverse in `HexToRgbOfRgbToHex` |
| HexCodec.ToHexOfNonNegative | src/ColorGradingGUI.jsx:8-11 | for a non-negative value, `toHex` is the two-digit byte of round(min(value, 255)); from 254.5 up it is `ff` |
| HexCodec.ToHexOfNegative | src/ColorGradingGUI.jsx:8-11 | below -0.5 the piece starts with `-`, so it is not a hex pair |
| HexCodec.ToHexOfByte | src/ColorGradingGUI.jsx:8-11 | an integer channel 0..255 encodes as its two-digit byte |
| HexCodec.RgbToHexFormat | src/ColorGradingGUI.jsx:7-13 | for non-negative channels the result is `#` and six lowercase hex digits, two per channel in order |
| HexCodec.HexToRgb | src/ColorGradingGUI.jsx:15-21 | `hexToRgb`: `parseInt` of the slices [1,3), [3,5), [5,7); inverse of `RgbToHex` on bytes, both ways, in the next rows |
| HexCodec.HexToRgbOfRgbToHex | src/ColorGradingGUI.jsx:7-21 | `hexToRgb(rgbToHex(r, g, b))` is (r, g, b) for all bytes |
| HexCodec.HexToRgbOfColor | src/ColorGradingGUI.jsx:15-21 | a lowercase `#rrggbb` parses to its three pair values, none NaN |
| HexCodec.FormatOfColor | src/ColorGradingGUI.jsx:7-13 | re-encoding the pair values of a lowercase `#rrggbb` gives the same string |
| HexCodec.RgbToHexOfHexToRgb | src/ColorGradingGUI.jsx:7-21 | every lowercase `#rrggbb` parses to three bytes, and `rgbToHex` of them is the input string |
| HexCodec.PickerDecode | src/ColorGradingGUI.jsx:376-380 | the picker `onChange` decode: `hexToRgb`, then each channel divided by 255; `None` when a channel is NaN; the value it gives for every byte triple is stated by `PickerOfBytes` |
| HexCodec.PickerEncode | src/ColorGradingGUI.jsx:374 | what a mix picker shows for vector v: `rgbToHex(v.x*255, v.y*255, v.z*255)`; inverse of the decode up to rounding (`PickerEncodeOfDecode`, `PickerDecodeOfEncode`) |
| HexCodec.PickerOfBytes | src/ColorGradingGUI.jsx:374-380 | decoding the encoding of a byte triple yields the triple divided by 255 |
| HexCodec.PickerEncodeOfDecode | src/ColorGradingGUI.jsx:374-380 | a picked colour decodes to a unit-cube vector, and the picker shows that exact colour again |
| HexCodec.EncodedChannel | src/ColorGradingGUI.jsx:374 | the byte a unit channel is shown as lies within 1/510 of it after division by 255 |
| HexCodec.EncodeOfUnit | src/ColorGradingGUI.jsx:374 | a unit-cube vector is shown as `rgbToHex` of its three rounded bytes |
| HexCodec.PickerDecodeOfEncode | src/ColorGradingGUI.jsx:374-380 | showing and then decoding a unit-cube vector changes each channel by at most 1/510 and stays in the unit cube |
| Color.Clamp | src/ColorGradingGUI.jsx:67 | GLSL `clamp` lies between its bounds and leaves an in-range value alone |
| Color.Luminance | src/ColorGradingGUI.jsx:101 | the Rec. 601 luminance of a gray is its level, and it is non-negative for a non-negative colour |
| Color.Smoothstep | src/ColorGradingGUI.jsx:128 | GLSL `smoothstep` lies in [0,1], and is 0 at or below the low edge and 1 at or above the high edge |
| Color.HermiteMonotone | src/ColorGradingGUI.jsx:128 | the cubic 3t² - 2t³ is non-decreasing on [0,1] |
| Color.SmoothstepMonotone | src/ColorGradingGUI.jsx:128 | `smoothstep` is non-decreasing in x |
| Color.Fract | src/ColorGradingGUI.jsx:116 | GLSL `fract` lies in [0,1), differs from x by an integer, and is x on [0,1) |
| Color.Mod | src/ColorGradingGUI.jsx:67 | GLSL `mod` by a positive y lies in [0, y) |
| Color.ModOneIsFract | src/ColorGradingGUI.jsx:222 | `mod(x, 1.0)` equals `fract(x)` |
| Hsv.RgbToHsv | src/ColorGradingGUI.jsx:57-64 | the shader's `rgbToHsv`, epsilon 1e-10 included, defined when max channel + epsilon is not 0; ranges in `RgbToHsvRange` |
| Hsv.SortedCases | src/ColorGradingGUI.jsx:58-60 | the two `step`/`mix` selections put the largest channel first, with the hue offset that matches each ordering of the channels |
| Hsv.SortedMax | src/ColorGradingGUI.jsx:58-61 | the selected q.x is the largest channel, and d is the spread max - min, which bounds the hue numerator |
| Hsv.RgbToHsvRange | src/ColorGradingGUI.jsx:57-64 | `rgbToHsv` gives a hue in [0,1) and value = max channel; saturation is in [0,1) for non-negative colours |
| Hsv.RgbToHsvGray | src/ColorGradingGUI.jsx:57-64 | a gray converts to hue 0, saturation 0 and value its level |
| Hsv.HsvToRgb | src/ColorGradingGUI.jsx:66-69 | the shader's `hsvToRgb`; range, grays and hue periodicity in the next rows |
| Hsv.HsvToRgbGray | src/ColorGradingGUI.jsx:66-69 | saturation 0 converts back to the gray of the value, whatever the hue |
| Hsv.HsvToRgbRange | src/ColorGradingGUI.jsx:66-69 | with saturation in [0,1] and a non-negative value, every channel lies between 0 and the value |
| Hsv.HsvToRgbPeriodic | src/ColorGradingGUI.jsx:66-69 | `hsvToRgb` is 1-periodic in the hue |
| Hsv.HsvToRgbModHue | src/ColorGradingGUI.jsx:66-69 | reducing the hue modulo 1 does not change `hsvToRgb` |
| Hsv.HueWrap | src/ColorGradingGUI.jsx:113-114 | the one-step wrap of the shifted hue; its range in `HueWrapRange` |
| Hsv.HueWrapRange | src/ColorGradingGUI.jsx:113-114 | for a summed hue in [-1,2] the wrapped hue lies in [0,1] and differs from it by -1, 0 or 1 |
| Hsv.WrapRamp | src/ColorGradingGUI.jsx:114-116 | the `fract` ramps of the wrapped hue equal the `mod` ramps of `hsvToRgb` on the unwrapped hue |
| Hsv.HueRotate | src/ColorGradingGUI.jsx:106-118 | `colorHueRadians` as written, with its inline conversions; equal to `hsvToRgb` of the shifted HSV (`HueRotateIsShift`) |
| Hsv.HueRotateIsShift | src/ColorGradingGUI.jsx:106-118 | `colorHueRadians` is `hsvToRgb` of the colour's HSV with the offset added to the hue |
| Hsv.HueRotateTurn | src/ColorGradingGUI.jsx:106-118 | rotating by offset + 1 is rotating by offset; offsets -1, 0 and 1 agree |
| Hsv.HueRotateGray | src/ColorGradingGUI.jsx:106-118 | grays are fixed by every hue rotation |
| Hsv.HueRotateRange | src/ColorGradingGUI.jsx:106-118 | a non-negative colour rotates to a colour between 0 and its largest channel |
| Stages.ChannelMixer | src/ColorGradingGUI.jsx:88-93 | `colorChannelMixer`: column-matrix product, times contrast, plus brightness, floored at 0; properties in the next rows |
| Stages.MixerNonNegative | src/ColorGradingGUI.jsx:88-93 | the channel mixer's output is non-negative for every input and setting |
| Stages.MixerIdentity | src/ColorGradingGUI.jsx:88-93 | with the unit columns, brightness 0 and contrast 1, a non-negative colour passes unchanged |
| Stages.RedColumn | src/ColorGradingGUI.jsx:89-90 | the matrix sends the red axis to redMix, so redMix is the first column |
| Stages.GreenColumn | src/ColorGradingGUI.jsx:89-90 | the matrix sends the green axis to greenMix |
| Stages.BlueColumn | src/ColorGradingGUI.jsx:89-90 | the matrix sends the blue axis to blueMix |
| Stages.MatrixLinear | src/ColorGradingGUI.jsx:89-90 | the matrix product is additive in the colour |
| Stages.Exposure | src/ColorGradingGUI.jsx:145-147 | `applyExposure`: the colour times `pow(2, exposure)` |
| Stages.ExposureZero | src/ColorGradingGUI.jsx:145-147 | exposure 0 is the identity |
| Stages.ExposureMonotone | src/ColorGradingGUI.jsx:145-147 | exposure keeps colours non-negative and strictly brightens every positive channel as the exposure grows |
| Stages.Contrast | src/ColorGradingGUI.jsx:95-98 | `colorContrast`: scale about the mid point `pow(0.5, 2.2)` |
| Stages.ContrastOne | src/ColorGradingGUI.jsx:95-98 | contrast 1 is the identity |
| Stages.ContrastPivot | src/ColorGradingGUI.jsx:95-98 | the gray at the mid point is fixed for every contrast, and the mid point lies in [0,1] |
| Stages.ContrastCompose | src/ColorGradingGUI.jsx:95-98 | contrast a then contrast b is contrast a*b |
| Stages.GammaCorrect | src/ColorGradingGUI.jsx:120-122 | `gammaCorrect`: `pow` of the colour clamped to [0,1] by 1/gamma |
| Stages.GammaRange | src/ColorGradingGUI.jsx:120-122 | for positive gamma the result lies in the unit cube; gamma 1 leaves a unit-cube colour alone |
| Stages.KelvinStep | src/ColorGradingGUI.jsx:150 | the clamped kelvin over 100 lies in [10, 400] |
| Stages.TemperatureTint | src/ColorGradingGUI.jsx:150-179 | the `tempColor` multiplier of `colorTemperature`, branch by branch, with its clamps |
| Stages.Temperature | src/ColorGradingGUI.jsx:149-181 | `colorTemperature`: the colour times the tint; range, kelvin clamp and darkening in the next rows |
| Stages.TintRange | src/ColorGradingGUI.jsx:149-179 | every tint channel is in [0,1]; red is 1 up to 66, blue is 1 from 66 and 0 up to 19 |
| Stages.TemperatureClampsKelvin | src/ColorGradingGUI.jsx:150 | kelvin below 1000 or above 40000 acts as 1000 or 40000 |
| Stages.TemperatureDarkens | src/ColorGradingGUI.jsx:149-181 | each channel of a non-negative colour ends between 0 and its input |
| Stages.TemperatureNeutral | src/ColorGradingGUI.jsx:149-181 | at 6600 K the tint is white and the colour is unchanged (given the natural log value the green branch reads) |
| Stages.FromGrayKeepsLuminance | src/ColorGradingGUI.jsx:101-103 | blending from the luminance gray keeps luminance, fixes grays, and factor 1 is the identity |
| Stages.FromGrayCompose | src/ColorGradingGUI.jsx:100-104 | two blends from gray compose to one blend with the product factor |
| Stages.Saturation | src/ColorGradingGUI.jsx:100-104 | `colorSaturation`: blend from the luminance gray with factor 1 + saturation |
| Stages.SaturationNeutral | src/ColorGradingGUI.jsx:100-104 | saturation 0 is the identity, grays are fixed for every saturation, and luminance is kept |
| Stages.Vibrancy | src/ColorGradingGUI.jsx:124-133 | `colorVibrancy`: blend from gray with factor 1 + vibrancy * (1 - smoothstep(0, 0.5, max - min)) |
| Stages.VibrancyFactorMonotone | src/ColorGradingGUI.jsx:124-129 | for non-negative vibrancy the boost lies in [1, 1 + vibrancy] and is smaller for more saturated colours |
| Stages.VibrancyNeutral | src/ColorGradingGUI.jsx:124-133 | vibrancy keeps luminance and fixes grays; vibrancy 0 and colours of spread at least 1/2 pass unchanged |
| Stages.SplitToning | src/ColorGradingGUI.jsx:135-139 | `splitToning`: the colour times the tint blended by `smoothstep(0, 1, luminance + balance)` |
| Stages.SplitToningEnds | src/ColorGradingGUI.jsx:135-139 | at or below luminance + balance 0 the shadow tint applies, at or above 1 the highlight tint; equal tints apply alone |
| Stages.SplitToneBetween | src/ColorGradingGUI.jsx:135-138 | every channel of the blended tint lies between the shadow and highlight tints |
| Stages.MixBetween | src/ColorGradingGUI.jsx:137 | `mix` with a factor in [0,1] lies between its ends |
| Stages.FilmicDenominator | src/ColorGradingGUI.jsx:229 | the tone curve's denominator is positive for every input |
| Stages.Filmic | src/ColorGradingGUI.jsx:229 | the filmic curve on one channel |
| Stages.ToneMapFilmic | src/ColorGradingGUI.jsx:228-230 | `toneMapFilmic`: the curve on each channel; range and monotonicity in the next rows |
| Stages.FilmicRange | src/ColorGradingGUI.jsx:228-230 | the curve fixes 0, maps [0,∞) into [0, 2.51/2.43) and [0,7] into [0,1] |
| Stages.FilmicIncreasing | src/ColorGradingGUI.jsx:228-230 | the curve is strictly increasing on [0,∞) |
| Stages.HueRange | src/ColorGradingGUI.jsx:183-192 | `getHueRange` returns a bucket in 0..7 |
| Stages.HueRangeCountsEdges | src/ColorGradingGUI.jsx:183-192 | inside [0.04, 0.96] the bucket is one plus the number of edges 0.10 … 0.75 at or below the hue |
| Stages.HueRangeMonotone | src/ColorGradingGUI.jsx:183-192 | inside [0.04, 0.96] the bucket never decreases as the hue grows |
| Stages.CircularDistance | src/ColorGradingGUI.jsx:197-200 | `circularDistance`: min(|a - b|, 1 - |a - b|) |
| Stages.CircularDistanceProps | src/ColorGradingGUI.jsx:197-200 | `circularDistance` is symmetric; for hues at most 1 apart it lies in [0, 1/2] and is 0 exactly when they coincide modulo 1 |
| HslPerRange.Weight | src/ColorGradingGUI.jsx:210-213 | the Gaussian weight of range i: `exp(-pow(dist, 2) / (2 * 0.08 * 0.08))` with `dist` the circular distance to i/8 |
| HslPerRange.WeightsPositive | src/ColorGradingGUI.jsx:213 | every weight is positive |
| HslPerRange.AccumulateShifts | src/ColorGradingGUI.jsx:205-218 | the loop leaves the weighted sums of the three arrays and the total weight |
| HslPerRange.TotalWeightPositive | src/ColorGradingGUI.jsx:217-219 | the total weight is positive, so the division is defined |
| HslPerRange.WeightedSumAbove | src/ColorGradingGUI.jsx:214-217 | adjustments at least lo give a weighted sum at least lo times the total weight |
| HslPerRange.WeightedSumBelow | src/ColorGradingGUI.jsx:214-217 | adjustments at most hi give a weighted sum at most hi times the total weight |
| HslPerRange.Shift | src/ColorGradingGUI.jsx:214-221 | a normalised shift: weighted sum over total weight; a weighted average by the next rows |
| HslPerRange.ShiftBetween | src/ColorGradingGUI.jsx:209-221 | each normalised shift lies between the smallest and the largest adjustment |
| HslPerRange.ShiftOfUniform | src/ColorGradingGUI.jsx:209-221 | when all eight adjustments are a, the shift is a |
| HslPerRange.Adjust | src/ColorGradingGUI.jsx:222-224 | the adjusted hue lies in [0,1); saturation and value lie in [0,1] |
| HslPerRange.AdjustUniform | src/ColorGradingGUI.jsx:222-224 | uniform hue adjustment a with zero saturation and luminance adjustments moves only the hue, by a modulo 1 |
| HslPerRange.HslPerRange | src/ColorGradingGUI.jsx:202-226 | `applyHslPerRange` as a function: HSV, adjust, back to RGB; the loop method equals it |
| HslPerRange.ApplyHslPerRange | src/ColorGradingGUI.jsx:202-226 | the stage computed with its loop equals the per-range function and lies in the unit cube |
| HslPerRange.HslPerRangeRange | src/ColorGradingGUI.jsx:202-226 | the per-range output lies in the unit cube |
| HslPerRange.UniformHueIsRotation | src/ColorGradingGUI.jsx:202-226 | with every hue adjustment a and no saturation or luminance adjustment, the stage is the hue rotation by a |
| HslPerRange.NeutralIsRoundTrip | src/ColorGradingGUI.jsx:202-226 | with all adjustments 0 the stage is the HSV round trip |
| Pipeline.Grade | src/ColorGradingGUI.jsx:253-267 | `main` from the chromatic-aberration output: the eleven stages in the shader's order; in the unit cube by `GradeInUnitCube` |
| Pipeline.PrepareInUnitCube | src/ColorGradingGUI.jsx:256-260 | after mixer, exposure, contrast, gamma and temperature the colour lies in the unit cube |
| Pipeline.FinishDefined | src/ColorGradingGUI.jsx:262-264 | saturation, vibrancy and split toning of a non-negative colour leave `rgbToHsv` defined |
| Pipeline.GradeInUnitCube | src/ColorGradingGUI.jsx:253-267 | every graded pixel lies in the unit cube for every setting the panel produces |
| Pipeline.PrepareNeutral | src/ColorGradingGUI.jsx:256-260 | under neutral settings the first five stages pass a unit-cube colour through |
| Pipeline.FinishNeutral | src/ColorGradingGUI.jsx:262-264 | under neutral settings saturation, vibrancy and split toning pass every colour through |
| Pipeline.RoundTripInUnitCube | src/ColorGradingGUI.jsx:261 | hue rotation by 0 is the HSV round trip, which keeps a unit-cube colour in the cube |
| Pipeline.GradeNeutral | src/ColorGradingGUI.jsx:253-267 | under neutral settings grading is two HSV round trips followed by the filmic curve |
| Pipeline.GradeNeutralGray | src/ColorGradingGUI.jsx:253-267 | under neutral settings a gray pixel only goes through the filmic curve |
| Uniforms.NamesDisjoint | src/ColorGradingGUI.jsx:308-333 | the scalar, vector and array shadow stores have disjoint names |
| Uniforms.ScalarWrite | src/ColorGradingGUI.jsx:338-341 | writing a scalar to the table and the scalar store keeps the shadow state consistent |
| Uniforms.VectorWrite | src/ColorGradingGUI.jsx:338-343 | writing a vector to the table and the vector store keeps the shadow state consistent |
| Uniforms.ArrayWrite | src/ColorGradingGUI.jsx:338-349 | writing an iterable to an array uniform and spreading it into its state keeps the shadow state consistent |
| Uniforms.GradingUniforms.constructor | src/ColorGradingGUI.jsx:271-333 | the default table, the shadow stores read from it with their fixed names, and three arrays of eight |
| Uniforms.GradingUniforms.UpdateUniform | src/ColorGradingGUI.jsx:336-352 | an unknown name changes nothing; otherwise exactly that table entry becomes the value and exactly the first matching shadow store records it |
| Uniforms.GradingUniforms.PickMixColor | src/ColorGradingGUI.jsx:372-382 | a picked colour stores exactly its decode (each channel / 255) under that name and nowhere else in `vectorValues`; the table entry matches, the vector is in the unit cube and the picker shows exactly the picked colour; scalars and arrays are unchanged |
| Uniforms.GradingUniforms.SetBucket | src/ColorGradingGUI.jsx:729-734 | a bucket slider replaces one entry of one array and writes the copy to the table; nothing else changes |

## Left out

- `chromaticAberration` (src/ColorGradingGUI.jsx:232-243) samples the input texture. `Pipeline.Grade` starts from the colour it returns.
- `vector3ToHex`, `hexToVector3` and the shadow and highlight tint pickers (src/ColorGradingGUI.jsx:355-363, 575-607) delegate to `THREE.Color`, whose conversion rules are not visible. Three.js is not part of this model.
- `posterize`, `applyLiftGammaGain`, `hash` and `noise` are never called by `main`.
- `pow`, `log` and `exp` are not computed. Only the laws in `Kernels.Lawful` are known about them.
- HexCodec.Slice, HexCodec.HexToRgb: strings are sequences of Unicode scalar values, not UTF-16 code units. `Slice` and `HexToRgb` agree with JavaScript's `slice` and `hexToRgb` only on strings without characters above U+FFFF; the colour pickers only produce ASCII `#rrggbb`.
- Floating point: the model uses exact reals. It does not cover IEEE rounding, `Float32Array` narrowing, NaN or infinities. The one NaN it does cover is `parseInt`'s, as `None`.
- Stages.TemperatureNeutral: assumes, as a precondition, that 99.4708025861 * log(66) - 161.1195681661 is at least 255, which holds for the natural logarithm. The laws do not fix `log`.
- Pipeline.Grade: requires the settings the panel can produce. These are a gamma above 0 (its slider starts at 0.1), non-negative tints (the pickers produce colours), and arrays of eight.
- `main` never reads the `time` uniform, and the sampler `tDiffuse` is an opaque table entry. The slider `parseFloat` conversions are left out: slider values enter as reals.
- React's `useState` batching and re-rendering are left out. The shadow stores are updated at once.
- Uniforms.GradingUniforms.UpdateUniform: the `name in scalarValues` test is modelled as membership of the store's own keys. Names inherited through the object prototype are not modelled.
- Uniforms.GradingUniforms.Valid: does not restate that the stores have exactly the fixed name sets. The constructor ensures them, and `UpdateUniform` keeps every key set.
- Uniforms.GradingUniforms.UpdateUniform: for a name in `vectorValues` it records any value. The source calls `value.clone()` there (src/ColorGradingGUI.jsx:343), which throws after the table write when the value is not a `THREE.Vector3`; that exception is not modelled. Every caller in the source passes a vector for these names.
- Uniforms.GradingUniforms.UpdateUniform: requires an iterable value for an array name. Spreading anything else throws in JavaScript, and that is not modelled.
- The JSX markup, styles, `src/ThreeScene.jsx` and `src/main.jsx` are UI, scene and renderer code and are left out.

/**
 * The colour-picker codec of the grading panel: `rgbToHex` and `hexToRgb`
 * (src/ColorGradingGUI.jsx), with the JavaScript built-ins they rest on:
 * `Math.round`, `Math.min`, `Number.prototype.toString(16)`, `String.prototype.slice`
 * and `parseInt(_, 16)`. A JavaScript number is a `real`; NaN is `None`.
 */
module HexCodec {
  import opened Wrappers
  import opened Color

  // ---------------------------------------------------------------- digits

  predicate IsLowerHexDigit(c: char) { '0' <= c <= '9' || 'a' <= c <= 'f' }

  /** A digit `parseInt` accepts in radix 16: either case. */
  predicate IsHexDigit(c: char) { IsLowerHexDigit(c) || 'A' <= c <= 'F' }

  predicate AllLowerHex(s: string) { forall i :: 0 <= i < |s| ==> IsLowerHexDigit(s[i]) }

  function DigitValue(c: char): (d: nat)
    requires IsHexDigit(c)
    ensures d < 16
  {
    if '0' <= c <= '9' then c as int - '0' as int
    else if 'a' <= c <= 'f' then c as int - 'a' as int + 10
    else c as int - 'A' as int + 10
  }

  /** The lower-case digit `toString(16)` writes for `d`. */
  function DigitChar(d: int): (c: char)
    requires 0 <= d < 16
    ensures IsLowerHexDigit(c) && DigitValue(c) == d
  {
    if d < 10 then ('0' as int + d) as char else ('a' as int + d - 10) as char
  }

  /** Writing a digit's value back gives the digit: the two digit maps are inverse on lower case. */
  lemma DigitCharOfValue(c: char)
    requires IsLowerHexDigit(c)
    ensures DigitChar(DigitValue(c)) == c
  {}

  /**
   * `parseInt`'s accumulation: read radix-16 digits from the left, `acc * 16 + digit`
   * each, and stop at the first character that is not a digit.
   */
  function ReadHex(s: string, acc: int): int
    decreases |s|
  {
    if s != [] && IsHexDigit(s[0]) then ReadHex(s[1..], acc * 16 + DigitValue(s[0])) else acc
  }

  /** Reading through a run of digits and then on is reading the run first, then the rest. */
  lemma {:induction false} ReadHexAppend(a: string, b: string, acc: int)
    requires AllLowerHex(a)
    ensures ReadHex(a + b, acc) == ReadHex(b, ReadHex(a, acc))
    decreases |a|
  {
    if a != [] {
      assert (a + b)[0] == a[0];
      assert (a + b)[1..] == a[1..] + b;
      assert AllLowerHex(a[1..]) by {
        forall i | 0 <= i < |a[1..]| ensures IsLowerHexDigit(a[1..][i]) {
          assert a[1..][i] == a[i + 1];
        }
      }
      ReadHexAppend(a[1..], b, acc * 16 + DigitValue(a[0]));
    } else {
      assert a + b == b;
    }
  }

  // ---------------------------------------------------------------- formatting

  /** JavaScript `Math.round`: the nearest integer, halves rounded toward +infinity. */
  function Round(x: real): (n: int)
    ensures n as real - 0.5 <= x < n as real + 0.5
  {
    (x + 0.5).Floor
  }

  /** The digits `toString(16)` writes for a non-negative integer, most significant first. */
  function Digits(n: nat): string
    decreases n
  {
    if n < 16 then [DigitChar(n)] else Digits(n / 16) + [DigitChar(n % 16)]
  }

  /** `Number.prototype.toString(16)` on an integer. */
  function ToString16(n: int): string
  {
    if n < 0 then "-" + Digits(-n) else Digits(n)
  }

  /**
   * The inner `toHex` of `rgbToHex`: clamp from above only, round, write in base 16
   * and left-pad a single digit with `0`.
   */
  function ToHex(value: real): string
  {
    var digits := ToString16(Round(Min(value, 255.0)));
    if |digits| == 1 then "0" + digits else digits
  }

  /** `rgbToHex(r, g, b)`: `#` followed by the three `toHex` pieces. */
  function RgbToHex(r: real, g: real, b: real): string
  {
    "#" + ToHex(r) + ToHex(g) + ToHex(b)
  }

  /** A `#rrggbb` string with lower-case digits, the form `<input type="color">` reports. */
  predicate IsLowerHexColor(s: string) {
    |s| == 7 && s[0] == '#'
    && IsLowerHexDigit(s[1]) && IsLowerHexDigit(s[2]) && IsLowerHexDigit(s[3])
    && IsLowerHexDigit(s[4]) && IsLowerHexDigit(s[5]) && IsLowerHexDigit(s[6])
  }

  /** The two lower-case digits of a byte, high nibble first. */
  function Byte(n: int): (s: string)
    requires 0 <= n < 256
    ensures |s| == 2 && IsLowerHexDigit(s[0]) && IsLowerHexDigit(s[1])
  {
    [DigitChar(n / 16), DigitChar(n % 16)]
  }

  /** `toHex` of any integer 0..255 is its two-digit form: `toString(16)` plus the `0` pad. */
  lemma ToHexOfByte(n: int)
    requires 0 <= n < 256
    ensures ToHex(n as real) == Byte(n)
  {
    assert Round(Min(n as real, 255.0)) == n;
    if n >= 16 {
      assert Digits(n / 16) == [DigitChar(n / 16)];
    }
  }

  /**
   * For a non-negative value, `toHex` writes exactly two lower-case digits: those of
   * the rounded value, with everything from 254.5 up written as `ff`.
   */
  lemma ToHexOfNonNegative(value: real)
    requires 0.0 <= value
    ensures 0 <= Round(Min(value, 255.0)) < 256
    ensures ToHex(value) == Byte(Round(Min(value, 255.0)))
    ensures 254.5 <= value ==> ToHex(value) == "ff"
  {
    var n := Round(Min(value, 255.0));
    ToHexOfByte(n);
    assert ToHex(value) == ToHex(n as real);
  }

  /** A negative value that rounds below zero is written with a leading minus sign. */
  lemma ToHexOfNegative(value: real)
    requires value < -0.5
    ensures |ToHex(value)| >= 2 && ToHex(value)[0] == '-'
  {}

  /**
   * For non-negative channels `rgbToHex` yields `#` and six lower-case digits, two per
   * channel, each pair the `toHex` of its channel.
   */
  lemma RgbToHexFormat(r: real, g: real, b: real)
    requires 0.0 <= r && 0.0 <= g && 0.0 <= b
    ensures IsLowerHexColor(RgbToHex(r, g, b))
    ensures RgbToHex(r, g, b)[1..3] == ToHex(r)
    ensures RgbToHex(r, g, b)[3..5] == ToHex(g)
    ensures RgbToHex(r, g, b)[5..7] == ToHex(b)
  {
    ToHexOfNonNegative(r);
    ToHexOfNonNegative(g);
    ToHexOfNonNegative(b);
    HexColorOfPairs(ToHex(r), ToHex(g), ToHex(b));
  }

  lemma HexColorOfPairs(a: string, b: string, c: string)
    requires |a| == 2 && |b| == 2 && |c| == 2
    requires IsLowerHexDigit(a[0]) && IsLowerHexDigit(a[1]) && IsLowerHexDigit(b[0])
    requires IsLowerHexDigit(b[1]) && IsLowerHexDigit(c[0]) && IsLowerHexDigit(c[1])
    ensures var s := "#" + a + b + c;
      IsLowerHexColor(s) && s[1..3] == a && s[3..5] == b && s[5..7] == c
  {
    var s := "#" + a + b + c;
    assert s[1] == a[0] && s[2] == a[1] && s[3] == b[0] && s[4] == b[1] && s[5] == c[0] && s[6] == c[1];
  }

  // ---------------------------------------------------------------- parsing

  /** The white space and line terminators `parseInt` skips before a number. */
  predicate IsJsWhitespace(c: char) {
    c == '\t' || c == '\n' || c == '\U{000B}' || c == '\U{000C}' || c == '\r' || c == ' '
    || c == '\U{00A0}' || c == '\U{1680}' || ('\U{2000}' <= c <= '\U{200A}')
    || c == '\U{2028}' || c == '\U{2029}' || c == '\U{202F}' || c == '\U{205F}'
    || c == '\U{3000}' || c == '\U{FEFF}'
  }

  function TrimStart(s: string): string
  {
    if s != [] && IsJsWhitespace(s[0]) then TrimStart(s[1..]) else s
  }

  /**
   * `parseInt(s, 16)`: skip leading white space, take one optional sign, drop a
   * `0x`/`0X` prefix, read the longest run of hex digits; no digit at all is NaN.
   */
  function ParseInt16(s: string): Option<int>
  {
    ParseSigned(TrimStart(s))
  }

  /** `parseInt` after the white space: an optional `-` or `+`, then the magnitude. */
  function ParseSigned(t: string): Option<int>
  {
    if t != [] && t[0] == '-' then
      match ParseMagnitude(t[1..])
      case Some(m) => Some(-m)
      case None => None
    else if t != [] && t[0] == '+' then ParseMagnitude(t[1..])
    else ParseMagnitude(t)
  }

  /** `parseInt` after the sign: drop `0x`/`0X`, then read hex digits; none at all is NaN. */
  function ParseMagnitude(u: string): Option<int>
  {
    var body := if |u| >= 2 && u[0] == '0' && (u[1] == 'x' || u[1] == 'X') then u[2..] else u;
    if body != [] && IsHexDigit(body[0]) then Some(ReadHex(body, 0)) else None
  }

  /** `String.prototype.slice(start, end)` for non-negative indices: both are capped at the length. */
  function Slice(s: string, start: nat, end: nat): (t: string)
    ensures start <= end <= |s| ==> t == s[start..end]
    ensures end <= start || |s| <= start ==> t == []
  {
    var from := if start < |s| then start else |s|;
    var to := if end < |s| then end else |s|;
    if from < to then s[from..to] else []
  }

  /** The object `{ r, g, b }` that `hexToRgb` returns; each field may be NaN. */
  datatype Channels = Channels(r: Option<int>, g: Option<int>, b: Option<int>)

  /** `hexToRgb(hex)`: parse the fixed slices [1,3), [3,5) and [5,7) in radix 16. */
  function HexToRgb(hex: string): Channels
  {
    Channels(ParseInt16(Slice(hex, 1, 3)), ParseInt16(Slice(hex, 3, 5)), ParseInt16(Slice(hex, 5, 7)))
  }

  /** Two lower-case digits parse to the byte they write: `parseInt` inverts `Byte`. */
  lemma ParseOfPair(p: string)
    requires |p| == 2 && IsLowerHexDigit(p[0]) && IsLowerHexDigit(p[1])
    ensures ParseInt16(p) == Some(16 * DigitValue(p[0]) + DigitValue(p[1]))
  {
    assert TrimStart(p) == p;
    var q := p[1..];
    assert q[0] == p[1] && q[1..] == [];
    assert ReadHex(q, DigitValue(p[0])) == DigitValue(p[0]) * 16 + DigitValue(p[1]);
    assert ReadHex(p, 0) == ReadHex(q, DigitValue(p[0]));
    assert ParseMagnitude(p) == Some(ReadHex(p, 0));
  }

  /** `parseInt(toHex(n), 16) === n` for every integer channel 0..255. */
  lemma ParseOfByte(n: int)
    requires 0 <= n < 256
    ensures ParseInt16(Byte(n)) == Some(n)
  {
    ParseOfPair(Byte(n));
  }

  /** The digits of `toString(16)` are lower-case and read back to the number. */
  lemma {:induction false} DigitsRead(n: nat)
    ensures |Digits(n)| >= 1 && AllLowerHex(Digits(n))
    ensures ReadHex(Digits(n), 0) == n
    decreases n
  {
    if n >= 16 {
      DigitsRead(n / 16);
      var init := Digits(n / 16);
      var last := [DigitChar(n % 16)];
      assert Digits(n) == init + last;
      assert AllLowerHex(init + last) by {
        forall i | 0 <= i < |init + last| ensures IsLowerHexDigit((init + last)[i]) {
          if i < |init| { assert (init + last)[i] == init[i]; }
        }
      }
      ReadHexAppend(init, last, 0);
      assert last[1..] == [];
    } else {
      assert [DigitChar(n)][1..] == [];
    }
  }

  /** A run of `toString(16)` digits never starts with `0x`, so as a magnitude it parses to its number. */
  lemma MagnitudeOfDigits(n: nat)
    ensures ParseMagnitude(Digits(n)) == Some(n)
  {
    DigitsRead(n);
    var d := Digits(n);
    assert IsLowerHexDigit(d[0]);
    assert |d| >= 2 ==> IsLowerHexDigit(d[1]);
  }

  /** `parseInt(n.toString(16), 16) === n` for every integer `n`, negative ones included. */
  lemma ParseOfToString16(n: int)
    ensures ParseInt16(ToString16(n)) == Some(n)
  {
    if n < 0 {
      MagnitudeOfDigits(-n);
      var s := "-" + Digits(-n);
      assert s[0] == '-' && s[1..] == Digits(-n);
      assert TrimStart(s) == s;
    } else {
      MagnitudeOfDigits(n);
      DigitsRead(n);
      assert IsLowerHexDigit(Digits(n)[0]);
      assert TrimStart(Digits(n)) == Digits(n);
    }
  }

  // ---------------------------------------------------------------- round trips

  /** `hexToRgb(rgbToHex(r, g, b))` gives back `{ r, g, b }` for integer channels in 0..255. */
  lemma HexToRgbOfRgbToHex(r: int, g: int, b: int)
    requires 0 <= r < 256 && 0 <= g < 256 && 0 <= b < 256
    ensures HexToRgb(RgbToHex(r as real, g as real, b as real)) == Channels(Some(r), Some(g), Some(b))
  {
    RgbToHexFormat(r as real, g as real, b as real);
    ToHexOfByte(r);
    ToHexOfByte(g);
    ToHexOfByte(b);
    ParseOfByte(r);
    ParseOfByte(g);
    ParseOfByte(b);
  }

  /** The value of the digit pair at `s[i..i+2]`. */
  function PairValue(s: string, i: nat): (n: int)
    requires i + 2 <= |s| && IsLowerHexDigit(s[i]) && IsLowerHexDigit(s[i + 1])
    ensures 0 <= n < 256
  {
    16 * DigitValue(s[i]) + DigitValue(s[i + 1])
  }

  /** The channels `hexToRgb` reads from a `#rrggbb` string are its three digit-pair values. */
  lemma HexToRgbOfColor(s: string)
    requires IsLowerHexColor(s)
    ensures HexToRgb(s) == Channels(Some(PairValue(s, 1)), Some(PairValue(s, 3)), Some(PairValue(s, 5)))
  {
    ParseOfPair(s[1..3]);
    ParseOfPair(s[3..5]);
    ParseOfPair(s[5..7]);
  }

  /** A digit pair is the two-digit form of its own value. */
  lemma ByteOfPair(s: string, i: nat)
    requires i + 2 <= |s| && IsLowerHexDigit(s[i]) && IsLowerHexDigit(s[i + 1])
    ensures Byte(PairValue(s, i)) == s[i..i + 2]
  {
    var n := PairValue(s, i);
    assert n / 16 == DigitValue(s[i]) && n % 16 == DigitValue(s[i + 1]);
    DigitCharOfValue(s[i]);
    DigitCharOfValue(s[i + 1]);
  }

  /** Writing the three digit-pair values of a `#rrggbb` string with `rgbToHex` gives the string. */
  lemma FormatOfColor(s: string)
    requires IsLowerHexColor(s)
    ensures RgbToHex(PairValue(s, 1) as real, PairValue(s, 3) as real, PairValue(s, 5) as real) == s
  {
    ByteOfPair(s, 1);
    ByteOfPair(s, 3);
    ByteOfPair(s, 5);
    ToHexOfByte(PairValue(s, 1));
    ToHexOfByte(PairValue(s, 3));
    ToHexOfByte(PairValue(s, 5));
    assert s == "#" + s[1..3] + s[3..5] + s[5..7] by {
      assert s[..1] == "#";
      assert s == s[..1] + s[1..3] + s[3..5] + s[5..7];
    }
  }

  /** For every `#rrggbb` string with lower-case digits, `rgbToHex` of its parsed channels is that string. */
  lemma RgbToHexOfHexToRgb(s: string)
    requires IsLowerHexColor(s)
    ensures var c := HexToRgb(s);
      && c.r.Some? && c.g.Some? && c.b.Some?
      && 0 <= c.r.value < 256 && 0 <= c.g.value < 256 && 0 <= c.b.value < 256
      && RgbToHex(c.r.value as real, c.g.value as real, c.b.value as real) == s
  {
    HexToRgbOfColor(s);
    FormatOfColor(s);
  }

  // ---------------------------------------------------------------- picker decode

  /**
   * The colour-picker `onChange` decode: `hexToRgb` then each channel `/ 255`.
   * `None` when some channel is NaN.
   */
  function PickerDecode(hex: string): Option<Vec3>
  {
    DecodeChannels(HexToRgb(hex))
  }

  /** Each parsed channel divided by 255; NaN in any channel makes the whole colour unusable. */
  function DecodeChannels(c: Channels): Option<Vec3>
  {
    if c.r.Some? && c.g.Some? && c.b.Some? then
      Some(Vec3(c.r.value as real / 255.0, c.g.value as real / 255.0, c.b.value as real / 255.0))
    else None
  }

  /** The picker's displayed value: `rgbToHex(v.x * 255, v.y * 255, v.z * 255)`. */
  function PickerEncode(v: Vec3): string
  {
    RgbToHex(v.r * 255.0, v.g * 255.0, v.b * 255.0)
  }

  /** The picker decode of channels that all parsed: each over 255. */
  lemma DecodeOfChannels(s: string, r: int, g: int, b: int)
    requires HexToRgb(s) == Channels(Some(r), Some(g), Some(b))
    ensures PickerDecode(s).Some?
    ensures PickerDecode(s).value.r == r as real / 255.0
    ensures PickerDecode(s).value.g == g as real / 255.0
    ensures PickerDecode(s).value.b == b as real / 255.0
  {}

  /** Decoding a picker string yields channels in [0,1] that re-encode to the same string. */
  lemma PickerEncodeOfDecode(s: string)
    requires IsLowerHexColor(s)
    ensures PickerDecode(s).Some?
    ensures InUnitCube(PickerDecode(s).value)
    ensures PickerEncode(PickerDecode(s).value) == s
  {
    HexToRgbOfColor(s);
    DecodeOfChannels(s, PairValue(s, 1), PairValue(s, 3), PairValue(s, 5));
    EncodeOfChannels(PickerDecode(s).value, s);
  }

  /** A colour whose channels are the digit-pair values of `s` over 255 is displayed as `s`. */
  lemma EncodeOfChannels(v: Vec3, s: string)
    requires IsLowerHexColor(s)
    requires v.r == PairValue(s, 1) as real / 255.0
    requires v.g == PairValue(s, 3) as real / 255.0
    requires v.b == PairValue(s, 5) as real / 255.0
    ensures PickerEncode(v) == s
  {
    var r, g, b := PairValue(s, 1), PairValue(s, 3), PairValue(s, 5);
    ScaleBack(r);
    ScaleBack(g);
    ScaleBack(b);
    RgbToHexOfEqual(v.r * 255.0, v.g * 255.0, v.b * 255.0, r as real, g as real, b as real);
    FormatOfColor(s);
  }

  lemma ScaleBack(n: int)
    ensures n as real / 255.0 * 255.0 == n as real
  {}

  lemma RgbToHexOfEqual(x: real, y: real, z: real, x': real, y': real, z': real)
    requires x == x' && y == y' && z == z'
    ensures RgbToHex(x, y, z) == RgbToHex(x', y', z')
  {}

  /** The integer a channel in [0,1] is written as, and how far it lies from `255 * x`. */
  function EncodedChannel(x: real): (n: int)
    requires 0.0 <= x <= 1.0
    ensures 0 <= n < 256
    ensures n == Round(Min(x * 255.0, 255.0))
    ensures -1.0 / 510.0 <= n as real / 255.0 - x <= 1.0 / 510.0
  {
    Round(x * 255.0)
  }

  /** The picker shows a colour in [0,1]^3 as the bytes of its rounded channels. */
  lemma EncodeOfUnit(v: Vec3)
    requires InUnitCube(v)
    ensures PickerEncode(v) == RgbToHex(EncodedChannel(v.r) as real, EncodedChannel(v.g) as real, EncodedChannel(v.b) as real)
  {
    var r, g, b := EncodedChannel(v.r), EncodedChannel(v.g), EncodedChannel(v.b);
    var x, y, z := v.r * 255.0, v.g * 255.0, v.b * 255.0;
    assert ToHex(x) == ToHex(r as real) by { EncodedPair(v.r, x, r); }
    assert ToHex(y) == ToHex(g as real) by { EncodedPair(v.g, y, g); }
    assert ToHex(z) == ToHex(b as real) by { EncodedPair(v.b, z, b); }
    RgbToHexOfSamePairs(x, y, z, r as real, g as real, b as real);
  }

  lemma EncodedPair(x: real, scaled: real, n: int)
    requires 0.0 <= x <= 1.0 && scaled == x * 255.0 && n == EncodedChannel(x)
    ensures ToHex(scaled) == ToHex(n as real)
  {
    ToHexOfNonNegative(scaled);
    ToHexOfByte(n);
  }

  lemma RgbToHexOfSamePairs(x: real, y: real, z: real, x': real, y': real, z': real)
    requires ToHex(x) == ToHex(x') && ToHex(y) == ToHex(y') && ToHex(z) == ToHex(z')
    ensures RgbToHex(x, y, z) == RgbToHex(x', y', z')
  {}

  /** The picker decode of `rgbToHex(r, g, b)` for integer channels: each channel over 255. */
  lemma PickerOfBytes(r: int, g: int, b: int)
    requires 0 <= r < 256 && 0 <= g < 256 && 0 <= b < 256
    ensures PickerDecode(RgbToHex(r as real, g as real, b as real)).Some?
    ensures PickerDecode(RgbToHex(r as real, g as real, b as real)).value.r == r as real / 255.0
    ensures PickerDecode(RgbToHex(r as real, g as real, b as real)).value.g == g as real / 255.0
    ensures PickerDecode(RgbToHex(r as real, g as real, b as real)).value.b == b as real / 255.0
  {
    HexToRgbOfRgbToHex(r, g, b);
    DecodeOfChannels(RgbToHex(r as real, g as real, b as real), r, g, b);
  }

  /** Encoding a colour in [0,1]^3 and decoding it moves each channel by at most 1/510. */
  lemma PickerDecodeOfEncode(v: Vec3)
    requires InUnitCube(v)
    ensures PickerDecode(PickerEncode(v)).Some?
    ensures var w := PickerDecode(PickerEncode(v)).value;
      && InUnitCube(w)
      && -1.0 / 510.0 <= w.r - v.r <= 1.0 / 510.0
      && -1.0 / 510.0 <= w.g - v.g <= 1.0 / 510.0
      && -1.0 / 510.0 <= w.b - v.b <= 1.0 / 510.0
  {
    EncodeOfUnit(v);
    PickerOfBytes(EncodedChannel(v.r), EncodedChannel(v.g), EncodedChannel(v.b));
  }
}

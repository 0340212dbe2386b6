/** Colour encoding of layer values: hex colour parsing, per-channel
    interpolation, the piecewise-linear gradient lookup and the opacity ramp. */
module ColorScales {
  import opened Types
  import opened Helpers
  import opened Constants

  /** An RGB triple; the channels of a real colour are bytes. */
  datatype Rgb = Rgb(r: int, g: int, b: int)

  predicate IsByte(n: int)
  {
    0 <= n <= 255
  }

  predicate IsByteRgb(c: Rgb)
  {
    IsByte(c.r) && IsByte(c.g) && IsByte(c.b)
  }

  // ---------------------------------------------------------------------
  // hexToRgb

  /** `[a-f\d]` under the case-insensitive flag. */
  predicate IsHexDigit(c: char)
  {
    '0' <= c <= '9' || 'a' <= c <= 'f' || 'A' <= c <= 'F'
  }

  function HexDigitValue(c: char): (d: nat)
    requires IsHexDigit(c)
    ensures d < 16
  {
    if '0' <= c <= '9' then c as int - 48
    else if 'a' <= c <= 'f' then c as int - 87
    else c as int - 55
  }

  /** The strings the pattern `^#?([a-f\d]{2})([a-f\d]{2})([a-f\d]{2})$`
      (case-insensitive) accepts: six hex digits, optionally after one `#`. */
  predicate MatchesHexColor(s: string)
  {
    || (|s| == 6 && forall i :: 0 <= i < 6 ==> IsHexDigit(s[i]))
    || (|s| == 7 && s[0] == '#' && forall i :: 1 <= i < 7 ==> IsHexDigit(s[i]))
  }

  /** The byte written by the two hex digits at `k` and `k + 1`. */
  function ByteAt(digits: string, k: nat): (n: int)
    requires k + 1 < |digits| && IsHexDigit(digits[k]) && IsHexDigit(digits[k + 1])
    ensures IsByte(n)
  {
    HexDigitValue(digits[k]) * 16 + HexDigitValue(digits[k + 1])
  }

  /** hexToRgb: the three bytes of a hex colour, or black when the string
      is not one. */
  function HexToRgb(hex: string): (c: Rgb)
    ensures IsByteRgb(c)
    ensures !MatchesHexColor(hex) ==> c == Rgb(0, 0, 0)
  {
    var digits := if |hex| == 7 && hex[0] == '#' then hex[1..] else hex;
    if |digits| == 6 && forall i :: 0 <= i < 6 ==> IsHexDigit(digits[i]) then
      Rgb(ByteAt(digits, 0), ByteAt(digits, 2), ByteAt(digits, 4))
    else
      Rgb(0, 0, 0)
  }

  /** The leading `#` is optional: it does not change the parsed colour. */
  lemma HashIsOptional(s: string)
    requires |s| == 6
    ensures HexToRgb("#" + s) == HexToRgb(s)
  {
    var t := "#" + s;
    assert |t| == 7 && t[0] == '#';
    assert t[1..] == s;
  }

  function HexChar(d: nat): (c: char)
    requires d < 16
    ensures IsHexDigit(c) && HexDigitValue(c) == d
  {
    if d < 10 then (48 + d) as char else (87 + d) as char
  }

  function ByteToHex(n: int): (s: string)
    requires IsByte(n)
  {
    [HexChar(n / 16), HexChar(n % 16)]
  }

  /** The canonical `#rrggbb` spelling of a colour, with lower-case digits. */
  function RgbToHex(c: Rgb): (s: string)
    requires IsByteRgb(c)
  {
    "#" + ByteToHex(c.r) + ByteToHex(c.g) + ByteToHex(c.b)
  }

  /** Every colour survives being written as hex and parsed back. */
  lemma HexRoundTrip(c: Rgb)
    requires IsByteRgb(c)
    ensures MatchesHexColor(RgbToHex(c))
    ensures HexToRgb(RgbToHex(c)) == c
  {
    var s := RgbToHex(c);
    var d := s[1..];
    assert d == ByteToHex(c.r) + ByteToHex(c.g) + ByteToHex(c.b);
    assert ByteAt(d, 0) == c.r;
    assert ByteAt(d, 2) == c.g;
    assert ByteAt(d, 4) == c.b;
  }

  predicate IsLowerHexDigit(c: char)
  {
    '0' <= c <= '9' || 'a' <= c <= 'f'
  }

  /** A `#`-prefixed colour in lower case is exactly the canonical spelling
      of the colour it parses to. */
  lemma CanonicalHexRoundTrip(s: string)
    requires |s| == 7 && s[0] == '#' && forall i :: 1 <= i < 7 ==> IsLowerHexDigit(s[i])
    ensures RgbToHex(HexToRgb(s)) == s
  {
    var d := s[1..];
    assert HexToRgb(s) == Rgb(ByteAt(d, 0), ByteAt(d, 2), ByteAt(d, 4));
    ByteHexRoundTrip(d[0], d[1]);
    ByteHexRoundTrip(d[2], d[3]);
    ByteHexRoundTrip(d[4], d[5]);
    assert s == "#" + [d[0], d[1]] + [d[2], d[3]] + [d[4], d[5]];
  }

  /** A hex digit written in lower case. */
  function LowerHexDigit(c: char): (l: char)
    requires IsHexDigit(c)
    ensures IsLowerHexDigit(l) && HexDigitValue(l) == HexDigitValue(c)
  {
    if 'A' <= c <= 'F' then (c as int + 32) as char else c
  }

  /** The lower-case `#rrggbb` spelling of a string the pattern accepts. */
  function CanonicalSpelling(s: string): (t: string)
    requires MatchesHexColor(s)
    ensures |t| == 7 && t[0] == '#' && forall i :: 1 <= i < 7 ==> IsLowerHexDigit(t[i])
  {
    var d := HexDigits(s);
    "#" + seq(6, i requires 0 <= i < 6 => LowerHexDigit(d[i]))
  }

  /** The six digits of an accepted string, after any `#`. */
  function HexDigits(s: string): (d: string)
    requires MatchesHexColor(s)
    ensures |d| == 6 && forall i :: 0 <= i < 6 ==> IsHexDigit(d[i])
  {
    if |s| == 7 then s[1..] else s
  }

  /** An accepted string parses to the three bytes its digits write. */
  lemma ParsesDigits(s: string)
    requires MatchesHexColor(s)
    ensures var d := HexDigits(s); HexToRgb(s) == Rgb(ByteAt(d, 0), ByteAt(d, 2), ByteAt(d, 4))
  {
  }

  /** The pattern is case-insensitive: every accepted spelling, upper- or
      lower-case, with or without `#`, parses to the colour whose canonical
      spelling is its own digits in lower case. */
  lemma HexIgnoresCase(s: string)
    requires MatchesHexColor(s)
    ensures HexToRgb(s) == HexToRgb(CanonicalSpelling(s))
    ensures RgbToHex(HexToRgb(s)) == CanonicalSpelling(s)
  {
    var t := CanonicalSpelling(s);
    var d, e := HexDigits(s), HexDigits(t);
    ParsesDigits(s);
    ParsesDigits(t);
    assert forall i :: 0 <= i < 6 ==> HexDigitValue(e[i]) == HexDigitValue(d[i]);
    assert ByteAt(d, 0) == ByteAt(e, 0) && ByteAt(d, 2) == ByteAt(e, 2) && ByteAt(d, 4) == ByteAt(e, 4);
    CanonicalHexRoundTrip(t);
  }

  /** Two lower-case hex digits are the canonical spelling of their byte. */
  lemma ByteHexRoundTrip(c1: char, c2: char)
    requires IsLowerHexDigit(c1) && IsLowerHexDigit(c2)
    ensures IsHexDigit(c1) && IsHexDigit(c2)
    ensures ByteToHex(HexDigitValue(c1) * 16 + HexDigitValue(c2)) == [c1, c2]
  {
    var hi, lo := HexDigitValue(c1), HexDigitValue(c2);
    var n := hi * 16 + lo;
    assert n / 16 == hi && n % 16 == lo;
  }

  // ---------------------------------------------------------------------
  // lerpColor

  /** One channel of lerpColor: Math.round(a + (b - a) * t). */
  function LerpChannel(a: int, b: int, t: real): (r: int)
    ensures t == 0.0 ==> r == a
    ensures t == 1.0 ==> r == b
    ensures 0.0 <= t <= 1.0 ==> (a <= b ==> a <= r <= b) && (b <= a ==> b <= r <= a)
  {
    var x := Lerp(a as real, b as real, t);
    RoundOfInteger(a);
    RoundOfInteger(b);
    if 0.0 <= t <= 1.0 then
      RoundWithin(x, if a <= b then a else b, if a <= b then b else a);
      Round(x)
    else
      Round(x)
  }

  /** lerpColor: channel-wise interpolation from `c1` (t = 0) to `c2` (t = 1). */
  function LerpColor(c1: Rgb, c2: Rgb, t: real): (c: Rgb)
    ensures t == 0.0 ==> c == c1
    ensures t == 1.0 ==> c == c2
    ensures 0.0 <= t <= 1.0 && IsByteRgb(c1) && IsByteRgb(c2) ==> IsByteRgb(c)
  {
    Rgb(LerpChannel(c1.r, c2.r, t), LerpChannel(c1.g, c2.g, t), LerpChannel(c1.b, c2.b, t))
  }

  /** For t in [0, 1] every channel lies between the two end colours' channels. */
  lemma LerpColorBetween(c1: Rgb, c2: Rgb, t: real)
    requires 0.0 <= t <= 1.0
    ensures var c := LerpColor(c1, c2, t);
      && Min(c1.r as real, c2.r as real) <= c.r as real <= Max(c1.r as real, c2.r as real)
      && Min(c1.g as real, c2.g as real) <= c.g as real <= Max(c1.g as real, c2.g as real)
      && Min(c1.b as real, c2.b as real) <= c.b as real <= Max(c1.b as real, c2.b as real)
  {
  }

  // ---------------------------------------------------------------------
  // getColorForValue

  /** The colour getColorForValue produces: a stop's own hex string when the
      value is clamped to an end of the gradient, else an interpolated triple
      (whose `rgb(...)` rendering is not modelled). */
  datatype Color = ScaleColor(hex: string) | Interpolated(rgb: Rgb)

  /** Stops `i` and `i + 1` enclose `value`. */
  predicate Brackets(scale: seq<Breakpoint>, value: real, i: int)
  {
    0 <= i && i + 1 < |scale| && scale[i].value <= value <= scale[i + 1].value
  }

  /** The scan of getColorForValue from stop `from` on: the first bracketing
      pair, or None when no pair encloses the value. */
  function FindBracket(scale: seq<Breakpoint>, value: real, from: nat): (r: Option<nat>)
    ensures r.Some? ==> from <= r.value && Brackets(scale, value, r.value)
    ensures r.Some? ==> forall j :: from <= j < r.value ==> !Brackets(scale, value, j)
    ensures r.None? ==> forall j :: from <= j ==> !Brackets(scale, value, j)
    decreases |scale| - from
  {
    if from + 1 >= |scale| then None
    else if Brackets(scale, value, from) then Some(from)
    else FindBracket(scale, value, from + 1)
  }

  /** lowerIdx and upperIdx after the scan: the first bracketing pair, or the
      first and last stops when there is none. */
  function BracketIndices(scale: seq<Breakpoint>, value: real): (p: (nat, nat))
    requires ScaleWellFormed(scale)
    ensures p.0 < p.1 < |scale|
    ensures scale[p.0].value < scale[p.1].value
  {
    match FindBracket(scale, value, 0)
    case Some(i) => (i, i + 1)
    case None => (0, |scale| - 1)
  }

  /** The interpolation factor between two stops. */
  function Factor(lower: Breakpoint, upper: Breakpoint, value: real): (t: real)
    requires lower.value < upper.value
    ensures value == lower.value ==> t == 0.0
    ensures value == upper.value ==> t == 1.0
    ensures lower.value <= value <= upper.value ==> 0.0 <= t <= 1.0
  {
    var t := (value - lower.value) / (upper.value - lower.value);
    assert t * (upper.value - lower.value) == value - lower.value;
    t
  }

  function Interpolate(lower: Breakpoint, upper: Breakpoint, value: real): Color
    requires lower.value < upper.value
  {
    Interpolated(LerpColor(HexToRgb(lower.color), HexToRgb(upper.color), Factor(lower, upper, value)))
  }

  /** What getColorForValue computes for a well-formed gradient. */
  function ColorFor(scale: seq<Breakpoint>, value: real): Color
    requires ScaleWellFormed(scale)
  {
    var (lo, hi) := BracketIndices(scale, value);
    if value <= scale[0].value then ScaleColor(scale[0].color)
    else if value >= scale[|scale| - 1].value then ScaleColor(scale[|scale| - 1].color)
    else Interpolate(scale[lo], scale[hi], value)
  }

  /** getColorForValue on a layer: the scan below over the layer's gradient. */
  method GetColorForValue(layer: Layer, value: real) returns (c: Color)
    ensures c == ColorFor(ConfigFor(layer).colorScale, value)
  {
    c := ScanColorScale(ConfigFor(layer).colorScale, value);
  }

  /** The body of getColorForValue: scan the gradient for the first pair of
      stops enclosing the value, clamp to the end stops, else interpolate. */
  method ScanColorScale(scale: seq<Breakpoint>, value: real) returns (c: Color)
    requires ScaleWellFormed(scale)
    ensures c == ColorFor(scale, value)
  {
    var lowerIdx := 0;
    var upperIdx := |scale| - 1;
    var i := 0;
    while i < |scale| - 1
      invariant 0 <= i <= |scale| - 1
      invariant FindBracket(scale, value, i) == FindBracket(scale, value, 0)
      invariant lowerIdx == 0 && upperIdx == |scale| - 1
    {
      if value >= scale[i].value && value <= scale[i + 1].value {
        lowerIdx := i;
        upperIdx := i + 1;
        break;
      }
      i := i + 1;
    }
    assert (lowerIdx, upperIdx) == BracketIndices(scale, value);
    ghost var expected := ColorFor(scale, value);

    if value <= scale[0].value {
      return ScaleColor(scale[0].color);
    }
    if value >= scale[|scale| - 1].value {
      return ScaleColor(scale[|scale| - 1].color);
    }
    var lower := scale[lowerIdx];
    var upper := scale[upperIdx];
    var t := (value - lower.value) / (upper.value - lower.value);
    var rgb1 := HexToRgb(lower.color);
    var rgb2 := HexToRgb(upper.color);
    assert t == Factor(lower, upper, value);
    c := Interpolated(LerpColor(rgb1, rgb2, t));
    assert c == Interpolate(lower, upper, value);
  }

  /** At or below the first stop the colour is exactly the first stop's;
      at or above the last it is exactly the last stop's. */
  lemma ColorForClamps(scale: seq<Breakpoint>, value: real)
    requires ScaleWellFormed(scale)
    ensures value <= scale[0].value ==> ColorFor(scale, value) == ScaleColor(scale[0].color)
    ensures value >= scale[|scale| - 1].value ==> ColorFor(scale, value) == ScaleColor(scale[|scale| - 1].color)
  {
  }

  /** In a well-formed gradient every value between two stops is enclosed
      by some pair at or after `from`. */
  lemma {:induction false} BracketExists(scale: seq<Breakpoint>, value: real, from: nat)
    requires ScaleWellFormed(scale)
    requires from < |scale| - 1
    requires scale[from].value <= value <= scale[|scale| - 1].value
    ensures FindBracket(scale, value, from).Some?
    decreases |scale| - from
  {
    if !Brackets(scale, value, from) {
      BracketExists(scale, value, from + 1);
    }
  }

  /** Strictly inside the gradient, the scan finds the first adjacent pair
      enclosing the value, so the factor lies in [0, 1] and every channel is
      a byte between the two stops' channels. */
  lemma ColorForInterior(scale: seq<Breakpoint>, value: real)
    requires ScaleWellFormed(scale)
    requires scale[0].value < value < scale[|scale| - 1].value
    ensures var (lo, hi) := BracketIndices(scale, value);
      && hi == lo + 1
      && scale[lo].value <= value <= scale[hi].value
      && (forall j :: 0 <= j < lo ==> !Brackets(scale, value, j))
      && 0.0 <= Factor(scale[lo], scale[hi], value) <= 1.0
      && ColorFor(scale, value) == Interpolate(scale[lo], scale[hi], value)
      && IsByteRgb(ColorFor(scale, value).rgb)
  {
    BracketExists(scale, value, 0);
  }

  /** At an interior stop the gradient produces exactly that stop's colour. */
  lemma ColorAtInteriorStop(scale: seq<Breakpoint>, k: nat)
    requires ScaleWellFormed(scale)
    requires 0 < k < |scale| - 1
    ensures ColorFor(scale, scale[k].value) == Interpolated(HexToRgb(scale[k].color))
  {
    var v := scale[k].value;
    assert Brackets(scale, v, k - 1);
    forall j | 0 <= j < k - 1
      ensures !Brackets(scale, v, j)
    {
      assert scale[j + 1].value < v;
    }
    assert BracketIndices(scale, v) == (k - 1, k);
  }

  /** The two pieces of the gradient that meet at an interior stop agree
      there: both give the stop's own colour. */
  lemma PiecesAgreeAtStop(scale: seq<Breakpoint>, k: nat)
    requires ScaleWellFormed(scale)
    requires 0 < k < |scale| - 1
    ensures Interpolate(scale[k - 1], scale[k], scale[k].value) == Interpolated(HexToRgb(scale[k].color))
    ensures Interpolate(scale[k], scale[k + 1], scale[k].value) == Interpolated(HexToRgb(scale[k].color))
  {
  }

  /** Every stop of every configured gradient is a canonical `#rrggbb`
      colour, so hexToRgb never falls back to black on them. */
  lemma ConfigColorsAreHex(layer: Layer, i: nat)
    requires i < |ConfigFor(layer).colorScale|
    ensures MatchesHexColor(ConfigFor(layer).colorScale[i].color)
    ensures RgbToHex(HexToRgb(ConfigFor(layer).colorScale[i].color)) == ConfigFor(layer).colorScale[i].color
  {
    var s := ConfigFor(layer).colorScale[i].color;
    assert |s| == 7 && s[0] == '#' && forall j :: 1 <= j < 7 ==> IsLowerHexDigit(s[j]);
    CanonicalHexRoundTrip(s);
  }

  // ---------------------------------------------------------------------
  // getOpacityForValue

  /** What getOpacityForValue computes: 0.3 + 0.7 * normalised value, capped
      at 1 from above and not clamped from below. */
  function OpacityFor(scale: seq<Breakpoint>, value: real): (r: real)
    requires ScaleWellFormed(scale)
    ensures r <= 1.0
    ensures value == scale[0].value ==> r == 0.3
    ensures value >= scale[|scale| - 1].value ==> r == 1.0
    ensures scale[0].value <= value ==> 0.3 <= r
    ensures value < scale[0].value ==> r < 0.3
  {
    var min := scale[0].value;
    var max := scale[|scale| - 1].value;
    var normalized := (value - min) / (max - min);
    NormalizedOrder(min, max, value, max);
    NormalizedOrder(min, max, max, value);
    NormalizedOrder(min, max, value, min);
    NormalizedOrder(min, max, min, value);
    Min(0.3 + normalized * 0.7, 1.0)
  }

  /** Opacity never decreases as the value grows. */
  lemma OpacityMonotone(scale: seq<Breakpoint>, v1: real, v2: real)
    requires ScaleWellFormed(scale)
    requires v1 <= v2
    ensures OpacityFor(scale, v1) <= OpacityFor(scale, v2)
  {
    NormalizedOrder(scale[0].value, scale[|scale| - 1].value, v1, v2);
  }

  /** Normalising to [min, max] preserves order and maps the ends to 0 and 1. */
  lemma NormalizedOrder(min: real, max: real, v1: real, v2: real)
    requires min < max
    ensures v1 <= v2 ==> (v1 - min) / (max - min) <= (v2 - min) / (max - min)
    ensures v1 < v2 ==> (v1 - min) / (max - min) < (v2 - min) / (max - min)
    ensures (max - min) / (max - min) == 1.0 && (min - min) / (max - min) == 0.0
  {
    var d := max - min;
    var n1, n2 := (v1 - min) / d, (v2 - min) / d;
    assert n1 * d == v1 - min && n2 * d == v2 - min;
    assert (n2 - n1) * d == v2 - v1;
  }

  /** getOpacityForValue for a layer. */
  function GetOpacityForValue(layer: Layer, value: real): (r: real)
    ensures r <= 1.0
    ensures value >= ConfigFor(layer).colorScale[|ConfigFor(layer).colorScale| - 1].value ==> r == 1.0
    ensures value == ConfigFor(layer).colorScale[0].value ==> r == 0.3
  {
    OpacityFor(ConfigFor(layer).colorScale, value)
  }
}

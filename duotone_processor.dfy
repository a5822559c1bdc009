/**
  The duotone pixel engine: the working-size planner, the contrast S-curve and the two
  passes over an RGBA byte buffer that turn a photo into a two-colour rendition.

  Luminance uses the ITU-R BT.709 luma weights 0.2126, 0.7152 and 0.0722. It is kept
  exact as the integer 2126*R + 7152*G + 722*B, that is, luminance scaled by 10000.
  `Math.pow(x, 1.8)` has no exact model; it is the parameter `pow18`, and the facts used
  about it are collected in `PowFacts`.
*/
module DuotoneProcessor {
  import opened JsMath

  /** One channel of a canvas pixel buffer (a `Uint8ClampedArray` element). */
  type Byte = x: int | 0 <= x < 256

  /** An endpoint colour of the duotone ramp. */
  datatype Rgb = Rgb(r: int, g: int, b: int) {
    /** Channel 0 is red, 1 green, 2 blue: the offset of the channel inside a pixel. */
    function Channel(k: nat): int
      requires k < 3
    {
      if k == 0 then r else if k == 1 then g else b
    }
  }

  const SHADOW_COLOR: Rgb := Rgb(27, 96, 47)
  const HIGHLIGHT_COLOR: Rgb := Rgb(247, 132, 197)
  const MAX_DIMENSION: int := 3000

  // ---------------------------------------------------------------------------
  // Dimension planning

  datatype Dimensions = Dimensions(width: int, height: int)

  function Max(a: int, b: int): int { if a < b then b else a }

  /**
    `calculateDimensions` as written: an image within 3000 px on both edges keeps its
    size; otherwise both edges are scaled by 3000 / (longer edge) and rounded.
  */
  function CalculateDimensions(originalWidth: nat, originalHeight: nat): (d: Dimensions)
    ensures originalWidth <= MAX_DIMENSION && originalHeight <= MAX_DIMENSION ==>
              d == Dimensions(originalWidth, originalHeight)
    ensures 0 <= d.width <= MAX_DIMENSION && 0 <= d.height <= MAX_DIMENSION
    ensures originalWidth > MAX_DIMENSION || originalHeight > MAX_DIMENSION ==>
              Max(d.width, d.height) == MAX_DIMENSION
    ensures originalWidth >= originalHeight ==> d.width >= d.height
    ensures originalWidth <= originalHeight ==> d.width <= d.height
  {
    if originalWidth <= MAX_DIMENSION && originalHeight <= MAX_DIMENSION then
      Dimensions(originalWidth, originalHeight)
    else
      var longer := Max(originalWidth, originalHeight);
      Dimensions(ScaledEdge(originalWidth, longer), ScaledEdge(originalHeight, longer))
  }

  /** `Math.round(side * scale)` with `scale = 3000 / longer`. */
  function ScaledEdge(side: nat, longer: int): (e: int)
    requires side <= longer && longer > 0
    ensures 0 <= e <= MAX_DIMENSION
    ensures side == longer ==> e == MAX_DIMENSION
  {
    var scale := MAX_DIMENSION as real / longer as real;
    ScaleProperties(side, longer);
    Round(side as real * scale)
  }

  /** The scaled edge `side * (3000 / longer)` of an edge no longer than `longer`. */
  lemma ScaleProperties(side: nat, longer: int)
    requires side <= longer && longer > 0
    ensures var x := side as real * (MAX_DIMENSION as real / longer as real);
      && 0.0 <= x <= MAX_DIMENSION as real
      && (side == longer ==> x == MAX_DIMENSION as real)
      && x * longer as real == (side * MAX_DIMENSION) as real
  {
  }

  /**
    Each planned edge lies within half a pixel of the exact scaled edge
    side * 3000 / longer, so the aspect ratio is kept up to rounding.
  */
  lemma AspectPreserved(originalWidth: nat, originalHeight: nat)
    requires originalWidth > MAX_DIMENSION || originalHeight > MAX_DIMENSION
    ensures var d := CalculateDimensions(originalWidth, originalHeight);
      var longer := Max(originalWidth, originalHeight);
      && -longer <= 2 * (d.width * longer - originalWidth * MAX_DIMENSION) <= longer
      && -longer <= 2 * (d.height * longer - originalHeight * MAX_DIMENSION) <= longer
  {
    var longer := Max(originalWidth, originalHeight);
    ScaledEdgeWithinHalf(originalWidth, longer);
    ScaledEdgeWithinHalf(originalHeight, longer);
  }

  lemma ScaledEdgeWithinHalf(side: nat, longer: int)
    requires side <= longer && longer > 0
    ensures var e := ScaledEdge(side, longer);
      -longer <= 2 * (e * longer - side * MAX_DIMENSION) <= longer
  {
    var x := side as real * (MAX_DIMENSION as real / longer as real);
    var e := ScaledEdge(side, longer);
    assert e == Round(x);
    ScaleProperties(side, longer);
    assert x - 0.5 < e as real <= x + 0.5;
    var L := longer as real;
    assert (x - 0.5) * L < e as real * L <= (x + 0.5) * L by {
      MulMonotone(x - 0.5, e as real, L);
      MulMonotone(e as real, x + 0.5, L);
    }
    assert (e * longer) as real == e as real * L;
  }

  lemma MulMonotone(a: real, b: real, c: real)
    requires a <= b && c > 0.0
    ensures a * c <= b * c && (a < b ==> a * c < b * c)
  {
  }

  /**
    As written, a very thin image loses its short edge: when the longer edge exceeds
    3000 px and is more than 6000 times the shorter one, the shorter edge rounds to 0,
    leaving a canvas with no pixels. A 6001 x 1 image plans to 3000 x 0.
  */
  lemma ThinImagePlansZeroEdge()
    ensures CalculateDimensions(6001, 1) == Dimensions(3000, 0)
    ensures CalculateDimensions(1, 6001) == Dimensions(0, 3000)
  {
    ScaledEdgeWithinHalf(1, 6001);
  }

  /**
    The planner with the evident intent that every edge of a real image stays at least
    one pixel long: the scaled branch never rounds an edge below 1.
  */
  function PlanDimensions(originalWidth: nat, originalHeight: nat): (d: Dimensions)
    ensures originalWidth <= MAX_DIMENSION && originalHeight <= MAX_DIMENSION ==>
              d == Dimensions(originalWidth, originalHeight)
    ensures d.width <= MAX_DIMENSION && d.height <= MAX_DIMENSION
    ensures originalWidth > MAX_DIMENSION || originalHeight > MAX_DIMENSION ==>
              Max(d.width, d.height) == MAX_DIMENSION
    ensures originalWidth > 0 && originalHeight > 0 ==> d.width > 0 && d.height > 0
    ensures originalWidth > MAX_DIMENSION || originalHeight > MAX_DIMENSION ==>
              var longer := Max(originalWidth, originalHeight);
              && -longer <= 2 * (d.width * longer - originalWidth * MAX_DIMENSION) <= 2 * longer
              && -longer <= 2 * (d.height * longer - originalHeight * MAX_DIMENSION) <= 2 * longer
  {
    var planned := CalculateDimensions(originalWidth, originalHeight);
    if originalWidth <= MAX_DIMENSION && originalHeight <= MAX_DIMENSION then
      planned
    else
      AspectPreserved(originalWidth, originalHeight);
      Dimensions(Max(planned.width, 1), Max(planned.height, 1))
  }

  // ---------------------------------------------------------------------------
  // Contrast curve

  /**
    What the engine relies on about `x => Math.pow(x, 1.8)` on [0, 1]: it fixes 0 and 1,
    stays inside [0, 1] and never decreases.
  */
  ghost predicate PowFacts(pow18: real -> real) {
    && pow18(0.0) == 0.0
    && pow18(1.0) == 1.0
    && (forall x :: 0.0 <= x <= 1.0 ==> 0.0 <= pow18(x) <= 1.0)
    && (forall x, y :: 0.0 <= x <= y <= 1.0 ==> pow18(x) <= pow18(y))
  }

  /**
    `enhanceContrast`: an S-curve that pushes values below one half towards 0 and
    values above it towards 1.
  */
  function EnhanceContrast(pow18: real -> real, value: real): (r: real)
    ensures PowFacts(pow18) && 0.0 <= value <= 1.0 ==> 0.0 <= r <= 1.0
    ensures PowFacts(pow18) && 0.0 <= value < 0.5 ==> r <= 0.5
    ensures PowFacts(pow18) && 0.5 <= value <= 1.0 ==> 0.5 <= r
    ensures PowFacts(pow18) ==>
              && (value == 0.0 ==> r == 0.0)
              && (value == 0.5 ==> r == 0.5)
              && (value == 1.0 ==> r == 1.0)
  {
    if value < 0.5 then
      pow18(value * 2.0) / 2.0
    else
      1.0 - pow18((1.0 - value) * 2.0) / 2.0
  }

  /** The S-curve never decreases on [0, 1]. */
  lemma EnhanceContrastMonotone(pow18: real -> real, a: real, b: real)
    requires PowFacts(pow18)
    requires 0.0 <= a <= b <= 1.0
    ensures EnhanceContrast(pow18, a) <= EnhanceContrast(pow18, b)
  {
    if b < 0.5 {
      assert pow18(a * 2.0) <= pow18(b * 2.0);
    } else if 0.5 <= a {
      assert pow18((1.0 - b) * 2.0) <= pow18((1.0 - a) * 2.0);
    }
  }

  // ---------------------------------------------------------------------------
  // Luminance (pass 1)

  /** The starting values of `minLuminance` (255) and `maxLuminance` (0), scaled. */
  const INITIAL_MIN: int := 2550000
  const INITIAL_MAX: int := 0

  /** Rec. 709 luminance of a pixel, scaled by 10000. */
  function Luminance(r: Byte, g: Byte, b: Byte): (l: int)
    ensures 0 <= l <= 2550000
    ensures r == g == b ==> l == r * 10000
  {
    2126 * r + 7152 * g + 722 * b
  }

  /** An RGBA buffer: four channels per pixel. */
  predicate IsPixelBuffer(s: seq<Byte>) { |s| % 4 == 0 }

  function PixelCount(s: seq<Byte>): nat { |s| / 4 }

  /** The luminance of pixel `p`, read from bytes 4p, 4p+1 and 4p+2. */
  function LumAt(s: seq<Byte>, p: nat): int
    requires 4 * p + 4 <= |s|
  {
    Luminance(s[4 * p], s[4 * p + 1], s[4 * p + 2])
  }

  /** `minLuminance` after the first `n` pixels of pass 1. */
  function MinLum(s: seq<Byte>, n: nat): int
    requires 4 * n <= |s|
  {
    if n == 0 then INITIAL_MIN
    else
      var m := MinLum(s, n - 1);
      var l := LumAt(s, n - 1);
      if l < m then l else m
  }

  /** `maxLuminance` after the first `n` pixels of pass 1. */
  function MaxLum(s: seq<Byte>, n: nat): int
    requires 4 * n <= |s|
  {
    if n == 0 then INITIAL_MAX
    else
      var m := MaxLum(s, n - 1);
      var l := LumAt(s, n - 1);
      if l > m then l else m
  }

  /**
    After `n > 0` pixels, `MinLum` and `MaxLum` bound the luminance of every pixel seen
    and each is the luminance of one of them: the starting values 255 and 0 never
    survive, since every luminance lies in [0, 255].
  */
  lemma {:induction false} LuminanceBounds(s: seq<Byte>, n: nat)
    requires 4 * n <= |s|
    ensures forall p :: 0 <= p < n ==> MinLum(s, n) <= LumAt(s, p) <= MaxLum(s, n)
    ensures n > 0 ==> exists p :: 0 <= p < n && LumAt(s, p) == MinLum(s, n)
    ensures n > 0 ==> exists p :: 0 <= p < n && LumAt(s, p) == MaxLum(s, n)
    ensures n == 0 ==> MinLum(s, n) == INITIAL_MIN && MaxLum(s, n) == INITIAL_MAX
  {
    if n > 0 {
      LuminanceBounds(s, n - 1);
      if n == 1 {
        assert LumAt(s, 0) == MinLum(s, 1) && LumAt(s, 0) == MaxLum(s, 1);
      }
    }
  }

  /** `luminanceRange`: `max - min`, or 1 when that difference is 0. */
  function LuminanceRange(minL: int, maxL: int): (range: int)
    ensures range != 0
    ensures minL <= maxL ==> range > 0
    ensures minL == maxL ==> range == 1
    ensures minL != maxL ==> range == maxL - minL
  {
    if maxL - minL != 0 then maxL - minL else 1
  }

  /**
    The luminance range of a buffer with at least one pixel is positive and is the
    spread between its darkest and its brightest pixel, or 1 for a flat buffer.
  */
  lemma RangePositive(s: seq<Byte>)
    requires IsPixelBuffer(s) && PixelCount(s) > 0
    ensures MinLum(s, PixelCount(s)) <= MaxLum(s, PixelCount(s))
    ensures LuminanceRange(MinLum(s, PixelCount(s)), MaxLum(s, PixelCount(s))) > 0
  {
    LuminanceBounds(s, PixelCount(s));
    assert MinLum(s, PixelCount(s)) <= LumAt(s, 0) <= MaxLum(s, PixelCount(s));
  }

  // ---------------------------------------------------------------------------
  // Colour mapping (pass 2)

  /** `Math.max(0, Math.min(1, (luminance - minLuminance) / luminanceRange))`. */
  function Normalize(l: int, minL: int, range: int): (n: real)
    requires range != 0
    ensures 0.0 <= n <= 1.0
    ensures l == minL ==> n == 0.0
    ensures range > 0 && l == minL + range ==> n == 1.0
    ensures range > 0 && minL <= l <= minL + range ==> n * range as real == (l - minL) as real
  {
    var x := (l - minL) as real / range as real;
    if x > 1.0 then 1.0 else if x < 0.0 then 0.0 else x
  }

  /** With a positive range, normalisation never decreases. */
  lemma NormalizeMonotone(l1: int, l2: int, minL: int, range: int)
    requires range > 0 && l1 <= l2
    ensures Normalize(l1, minL, range) <= Normalize(l2, minL, range)
  {
    var x1 := (l1 - minL) as real / range as real;
    var x2 := (l2 - minL) as real / range as real;
    assert x1 * range as real <= x2 * range as real;
  }

  /** The storing of an integer into a `Uint8ClampedArray` element. */
  function ClampByte(x: int): (b: Byte)
    ensures 0 <= x <= 255 ==> b == x
    ensures x < 0 ==> b == 0
    ensures x > 255 ==> b == 255
  {
    if x < 0 then 0 else if x > 255 then 255 else x
  }

  /** The distance between two integers. */
  function Distance(x: int, y: int): nat {
    if x < y then y - x else x - y
  }

  /** The stored byte is the one nearest the value, and no other byte is as near. */
  lemma ClampByteNearest(x: int, b: Byte)
    ensures Distance(x, ClampByte(x)) <= Distance(x, b)
    ensures Distance(x, ClampByte(x)) == Distance(x, b) ==> b == ClampByte(x)
  {
  }

  /** `from + t * (to - from)`: the point at fraction `t` of the way from `from` to `to`. */
  function Interpolate(from: int, to: int, t: real): real {
    from as real + t * (to - from) as real
  }

  /**
    One output channel: the rounded interpolation between the shadow and highlight
    values of that channel, stored into the byte buffer.
  */
  function ShadeChannel(shadow: Byte, highlight: Byte, t: real): (c: Byte)
    ensures 0.0 <= t <= 1.0 ==>
              (shadow <= c <= highlight || highlight <= c <= shadow)
    ensures t == 0.0 ==> c == shadow
    ensures t == 1.0 ==> c == highlight
  {
    InterpolateWithin(shadow, highlight, t);
    ClampByte(Round(Interpolate(shadow, highlight, t)))
  }

  /** Rounding the interpolation between two bytes stays between them and hits each end. */
  lemma InterpolateWithin(shadow: Byte, highlight: Byte, t: real)
    ensures var c := Round(Interpolate(shadow, highlight, t));
      && (0.0 <= t <= 1.0 ==> (shadow <= c <= highlight || highlight <= c <= shadow))
      && (t == 0.0 ==> c == shadow)
      && (t == 1.0 ==> c == highlight)
  {
    var x := Interpolate(shadow, highlight, t);
    if 0.0 <= t <= 1.0 {
      InterpolateBetween(shadow, highlight, t);
      if shadow <= highlight {
        RoundWithin(x, shadow, highlight);
      } else {
        RoundWithin(x, highlight, shadow);
      }
    }
    if t == 1.0 {
      RoundOfInteger(highlight);
    }
    if t == 0.0 {
      RoundOfInteger(shadow);
    }
  }

  /** For t in [0, 1] the interpolation lies between its two ends. */
  lemma InterpolateBetween(from: int, to: int, t: real)
    requires 0.0 <= t <= 1.0
    ensures from <= to ==> from as real <= Interpolate(from, to, t) <= to as real
    ensures to < from ==> to as real <= Interpolate(from, to, t) <= from as real
  {
    FractionOfDifference(t, to - from);
  }

  /** A fraction in [0, 1] of a difference lies between 0 and that difference. */
  lemma FractionOfDifference(t: real, d: int)
    requires 0.0 <= t <= 1.0
    ensures d >= 0 ==> 0.0 <= t * d as real <= d as real
    ensures d < 0 ==> d as real <= t * d as real <= 0.0
  {
    if d >= 0 {
      MulMonotone(0.0, t, d as real + 1.0);
      MulMonotone(t, 1.0, d as real + 1.0);
    } else {
      MulMonotone(0.0, t, -d as real);
      MulMonotone(t, 1.0, -d as real);
    }
  }

  /** The two ramp endpoints chosen by `isReversed`. */
  datatype Ramp = Ramp(shadowColor: Rgb, highlightColor: Rgb)

  /** Reversal swaps which fixed colour stands for the shadows and which for the highlights. */
  function RampFor(isReversed: bool): (ramp: Ramp)
    ensures ramp.shadowColor == if isReversed then HIGHLIGHT_COLOR else SHADOW_COLOR
    ensures ramp.highlightColor == if isReversed then SHADOW_COLOR else HIGHLIGHT_COLOR
  {
    if isReversed then Ramp(HIGHLIGHT_COLOR, SHADOW_COLOR) else Ramp(SHADOW_COLOR, HIGHLIGHT_COLOR)
  }

  /** The reversed ramp is the plain ramp with its two ends exchanged. */
  lemma RampSwap()
    ensures RampFor(true) == Ramp(RampFor(false).highlightColor, RampFor(false).shadowColor)
    ensures RampFor(false).shadowColor != RampFor(false).highlightColor
  {
  }

  /** The contrast-enhanced interpolation fraction of pixel `p`. */
  function Fraction(s: seq<Byte>, p: nat, minL: int, range: int, pow18: real -> real): real
    requires 4 * p + 4 <= |s| && range != 0
  {
    EnhanceContrast(pow18, Normalize(LumAt(s, p), minL, range))
  }

  /**
    Channel `k` of pixel `p` after pass 2 with the given luminance bounds: the alpha
    channel (k = 3) is kept; R, G and B take the ramp's channel at the pixel's fraction.
  */
  function MappedChannel(s: seq<Byte>, p: nat, k: nat, minL: int, range: int, isReversed: bool,
                         pow18: real -> real): Byte
    requires 4 * p + 4 <= |s| && k < 4 && range != 0
  {
    if k == 3 then s[4 * p + 3]
    else
      var ramp := RampFor(isReversed);
      ShadeChannel(ramp.shadowColor.Channel(k), ramp.highlightColor.Channel(k),
                   Fraction(s, p, minL, range, pow18))
  }

  /** Byte `j` after pass 2: channel j % 4 of pixel j / 4. */
  function MappedByte(s: seq<Byte>, j: nat, minL: int, range: int, isReversed: bool,
                      pow18: real -> real): Byte
    requires IsPixelBuffer(s) && j < |s| && range != 0
  {
    MappedChannel(s, j / 4, j % 4, minL, range, isReversed, pow18)
  }

  /** The first `n` pixels of `a` are those of buffer `s` after pass 2, channel by channel. */
  ghost predicate MappedUpTo(a: seq<Byte>, s: seq<Byte>, n: nat, minL: int, range: int,
                             isReversed: bool, pow18: real -> real)
    requires 4 * n <= |a| && 4 * n <= |s| && range != 0
  {
    forall q, k :: 0 <= q < n && 0 <= k < 4 ==>
      a[4 * q + k] == MappedChannel(s, q, k, minL, range, isReversed, pow18)
  }

  /** The luminance range pass 1 finds for buffer `s`. */
  function BufferRange(s: seq<Byte>): int
    requires IsPixelBuffer(s)
  {
    LuminanceRange(MinLum(s, PixelCount(s)), MaxLum(s, PixelCount(s)))
  }

  /** The whole buffer after both passes. */
  function Duotone(s: seq<Byte>, isReversed: bool, pow18: real -> real): (out: seq<Byte>)
    requires IsPixelBuffer(s)
    ensures |out| == |s|
  {
    var minL := MinLum(s, PixelCount(s));
    var range := BufferRange(s);
    seq(|s|, j requires 0 <= j < |s| => MappedByte(s, j, minL, range, isReversed, pow18))
  }

  // ---------------------------------------------------------------------------
  // The two loops of `processImageOnCanvas`, in place on the canvas buffer

  /**
    Pass 1: one step of four bytes per pixel, keeping the darkest and the brightest
    luminance seen so far.
  */
  method FindLuminanceBounds(data: array<Byte>) returns (minL: int, maxL: int)
    requires data.Length % 4 == 0
    ensures minL == MinLum(data[..], data.Length / 4) && maxL == MaxLum(data[..], data.Length / 4)
    ensures forall p :: 0 <= p < data.Length / 4 ==> minL <= LumAt(data[..], p) <= maxL
    ensures data.Length > 0 ==>
              && (exists p :: 0 <= p < data.Length / 4 && LumAt(data[..], p) == minL)
              && (exists p :: 0 <= p < data.Length / 4 && LumAt(data[..], p) == maxL)
    ensures data.Length == 0 ==> minL == INITIAL_MIN && maxL == INITIAL_MAX
  {
    ghost var n := data.Length / 4;
    assert data.Length == 4 * n;
    minL, maxL := INITIAL_MIN, INITIAL_MAX;
    var i := 0;
    ghost var p := 0;
    while i < data.Length
      invariant 0 <= p <= n && i == 4 * p
      invariant minL == MinLum(data[..], p) && maxL == MaxLum(data[..], p)
    {
      assert p < n;
      var r, g, b := data[i], data[i + 1], data[i + 2];
      var luminance := Luminance(r, g, b);
      assert luminance == LumAt(data[..], p);
      if luminance < minL { minL := luminance; }
      if luminance > maxL { maxL := luminance; }
      i, p := i + 4, p + 1;
    }
    LuminanceBounds(data[..], n);
  }

  /**
    Pass 2: every pixel's R, G and B bytes are overwritten with its duotone colour;
    the alpha byte and every other pixel are left alone.
  */
  method ApplyDuotone(data: array<Byte>, minL: int, range: int, isReversed: bool,
                      pow18: real -> real)
    requires data.Length % 4 == 0 && range != 0
    modifies data
    ensures forall q, k :: 0 <= q < data.Length / 4 && 0 <= k < 4 ==>
              data[4 * q + k] == MappedChannel(old(data[..]), q, k, minL, range, isReversed, pow18)
  {
    var ramp := RampFor(isReversed);
    var shadowColor, highlightColor := ramp.shadowColor, ramp.highlightColor;
    ghost var before := data[..];
    ghost var n := data.Length / 4;
    assert data.Length == 4 * n;
    var i := 0;
    ghost var p := 0;
    while i < data.Length
      invariant 0 <= p <= n && i == 4 * p
      invariant MappedUpTo(data[..], before, p, minL, range, isReversed, pow18)
      invariant forall j :: i <= j < data.Length ==> data[j] == before[j]
    {
      assert p < n;
      var r, g, b := data[i], data[i + 1], data[i + 2];
      assert r == before[4 * p] && g == before[4 * p + 1] && b == before[4 * p + 2];
      var luminance := Luminance(r, g, b);
      var normalized := Normalize(luminance, minL, range);
      normalized := EnhanceContrast(pow18, normalized);
      ghost var head := data[..];
      data[i] := ShadeChannel(shadowColor.r, highlightColor.r, normalized);
      data[i + 1] := ShadeChannel(shadowColor.g, highlightColor.g, normalized);
      data[i + 2] := ShadeChannel(shadowColor.b, highlightColor.b, normalized);
      assert data[..][..i] == head[..i];
      PixelWritten(data[..], before, p, minL, range, isReversed, pow18);
      ExtendMapped(head, data[..], before, p, minL, range, isReversed, pow18);
      i, p := i + 4, p + 1;
    }
    assert MappedUpTo(data[..], before, n, minL, range, isReversed, pow18);
  }

  /**
    One iteration of pass 2: once the four bytes of pixel `p` hold its mapped channels
    and the bytes before it are unchanged, the mapped prefix covers that pixel too.
  */
  lemma ExtendMapped(a: seq<Byte>, a': seq<Byte>, s: seq<Byte>, p: nat, minL: int, range: int,
                     isReversed: bool, pow18: real -> real)
    requires |a| == |s| && |a'| == |s| && 4 * p + 4 <= |s| && range != 0
    requires MappedUpTo(a, s, p, minL, range, isReversed, pow18)
    requires a'[..4 * p] == a[..4 * p]
    requires forall k :: 0 <= k < 4 ==>
      a'[4 * p + k] == MappedChannel(s, p, k, minL, range, isReversed, pow18)
    ensures MappedUpTo(a', s, p + 1, minL, range, isReversed, pow18)
  {
    forall q, k | 0 <= q < p + 1 && 0 <= k < 4
      ensures a'[4 * q + k] == MappedChannel(s, q, k, minL, range, isReversed, pow18)
    {
      if q < p {
        assert a'[4 * q + k] == a'[..4 * p][4 * q + k];
      }
    }
  }

  /** The four bytes written for pixel `p` are its four mapped channels. */
  lemma PixelWritten(a': seq<Byte>, s: seq<Byte>, p: nat, minL: int, range: int,
                     isReversed: bool, pow18: real -> real)
    requires |a'| == |s| && 4 * p + 4 <= |s| && range != 0
    requires a'[4 * p + 3] == s[4 * p + 3]
    requires var ramp := RampFor(isReversed);
      var t := EnhanceContrast(pow18, Normalize(Luminance(s[4 * p], s[4 * p + 1], s[4 * p + 2]), minL, range));
      && a'[4 * p] == ShadeChannel(ramp.shadowColor.r, ramp.highlightColor.r, t)
      && a'[4 * p + 1] == ShadeChannel(ramp.shadowColor.g, ramp.highlightColor.g, t)
      && a'[4 * p + 2] == ShadeChannel(ramp.shadowColor.b, ramp.highlightColor.b, t)
    ensures a'[4 * p] == MappedChannel(s, p, 0, minL, range, isReversed, pow18)
    ensures a'[4 * p + 1] == MappedChannel(s, p, 1, minL, range, isReversed, pow18)
    ensures a'[4 * p + 2] == MappedChannel(s, p, 2, minL, range, isReversed, pow18)
    ensures a'[4 * p + 3] == MappedChannel(s, p, 3, minL, range, isReversed, pow18)
  {
  }

  /** The four bytes of pixel `p` after pass 2. */
  lemma PixelMapping(s: seq<Byte>, p: nat, minL: int, range: int, isReversed: bool,
                     pow18: real -> real)
    requires IsPixelBuffer(s) && 4 * p + 4 <= |s| && range != 0
    ensures var ramp := RampFor(isReversed);
      var t := Fraction(s, p, minL, range, pow18);
      && MappedByte(s, 4 * p, minL, range, isReversed, pow18)
           == ShadeChannel(ramp.shadowColor.r, ramp.highlightColor.r, t)
      && MappedByte(s, 4 * p + 1, minL, range, isReversed, pow18)
           == ShadeChannel(ramp.shadowColor.g, ramp.highlightColor.g, t)
      && MappedByte(s, 4 * p + 2, minL, range, isReversed, pow18)
           == ShadeChannel(ramp.shadowColor.b, ramp.highlightColor.b, t)
      && MappedByte(s, 4 * p + 3, minL, range, isReversed, pow18) == s[4 * p + 3]
  {
    PixelIndex(p, 0);
    PixelIndex(p, 1);
    PixelIndex(p, 2);
    PixelIndex(p, 3);
    assert MappedByte(s, 4 * p, minL, range, isReversed, pow18)
        == MappedChannel(s, p, 0, minL, range, isReversed, pow18);
    assert MappedByte(s, 4 * p + 1, minL, range, isReversed, pow18)
        == MappedChannel(s, p, 1, minL, range, isReversed, pow18);
    assert MappedByte(s, 4 * p + 2, minL, range, isReversed, pow18)
        == MappedChannel(s, p, 2, minL, range, isReversed, pow18);
    assert MappedByte(s, 4 * p + 3, minL, range, isReversed, pow18)
        == MappedChannel(s, p, 3, minL, range, isReversed, pow18);
  }

  /** Byte 4p + k of a buffer is channel k of pixel p. */
  lemma PixelIndex(p: nat, k: nat)
    requires k < 4
    ensures (4 * p + k) / 4 == p && (4 * p + k) % 4 == k
  {
  }

  /** Byte `j` of a buffer of whole pixels lies in pixel j / 4, at channel j % 4. */
  lemma ByteOfPixel(j: nat, len: nat)
    requires j < len && len % 4 == 0
    ensures 4 * (j / 4) + j % 4 == j && j % 4 < 4 && 4 * (j / 4) + 4 <= len
  {
  }

  /**
    The pixel work of `processImageOnCanvas`: the luminance-bounds loop, the range
    with its fallback of 1, the choice of endpoints, and the colour-mapping loop. The buffer ends up as `Duotone` of its old
    contents; its length and every alpha byte are unchanged.
  */
  method ProcessImageData(data: array<Byte>, isReversed: bool, pow18: real -> real)
    requires data.Length % 4 == 0
    modifies data
    ensures data[..] == Duotone(old(data[..]), isReversed, pow18)
    ensures forall p :: 0 <= p < data.Length / 4 ==> data[4 * p + 3] == old(data[4 * p + 3])
  {
    ghost var s := data[..];
    var minL, maxL := FindLuminanceBounds(data);
    var range := LuminanceRange(minL, maxL);
    assert range == BufferRange(s);
    ApplyDuotone(data, minL, range, isReversed, pow18);
    DuotoneByChannels(s, data[..], isReversed, pow18);
    forall p | 0 <= p < data.Length / 4
      ensures data[4 * p + 3] == old(data[4 * p + 3])
    {
      assert data[4 * p + 3] == MappedChannel(s, p, 3, minL, range, isReversed, pow18);
    }
  }

  /**
    A buffer whose every pixel holds the mapped channels of `s`, with the bounds pass 1
    finds for `s`, is `Duotone(s)`.
  */
  lemma DuotoneByChannels(s: seq<Byte>, out: seq<Byte>, isReversed: bool, pow18: real -> real)
    requires IsPixelBuffer(s) && |out| == |s|
    requires MappedUpTo(out, s, PixelCount(s), MinLum(s, PixelCount(s)), BufferRange(s),
                        isReversed, pow18)
    ensures out == Duotone(s, isReversed, pow18)
  {
    forall j | 0 <= j < |s|
      ensures out[j] == Duotone(s, isReversed, pow18)[j]
    {
      DuotoneByte(s, out, j, isReversed, pow18);
    }
  }

  /** One byte of `DuotoneByChannels`: byte j is channel j % 4 of pixel j / 4. */
  lemma DuotoneByte(s: seq<Byte>, out: seq<Byte>, j: nat, isReversed: bool, pow18: real -> real)
    requires IsPixelBuffer(s) && |out| == |s| && j < |s|
    requires MappedUpTo(out, s, PixelCount(s), MinLum(s, PixelCount(s)), BufferRange(s),
                        isReversed, pow18)
    ensures out[j] == Duotone(s, isReversed, pow18)[j]
  {
    var minL, range := MinLum(s, PixelCount(s)), BufferRange(s);
    ByteOfPixel(j, |s|);
    assert out[4 * (j / 4) + j % 4] == MappedChannel(s, j / 4, j % 4, minL, range, isReversed, pow18);
  }

  // ---------------------------------------------------------------------------
  // Properties of the transform

  /** The colour of pixel `p` of a buffer, alpha aside. */
  function PixelColor(s: seq<Byte>, p: nat): Rgb
    requires 4 * p + 4 <= |s|
  {
    Rgb(s[4 * p], s[4 * p + 1], s[4 * p + 2])
  }

  /** The interpolation fraction pass 2 gives pixel `p` of buffer `s`; it ignores `isReversed`. */
  function BufferFraction(s: seq<Byte>, p: nat, pow18: real -> real): real
    requires IsPixelBuffer(s) && p < PixelCount(s)
  {
    Fraction(s, p, MinLum(s, PixelCount(s)), BufferRange(s), pow18)
  }

  /** The fraction of every pixel lies in [0, 1]. */
  lemma BufferFractionInUnit(s: seq<Byte>, p: nat, pow18: real -> real)
    requires IsPixelBuffer(s) && p < PixelCount(s) && PowFacts(pow18)
    ensures 0.0 <= BufferFraction(s, p, pow18) <= 1.0
  {
  }

  /**
    Every output R, G or B byte lies between the shadow and the highlight value of its
    channel, so the clamping store never has to act.
  */
  lemma ChannelBetweenEndpoints(s: seq<Byte>, isReversed: bool, pow18: real -> real, j: nat)
    requires IsPixelBuffer(s) && j < |s| && j % 4 != 3 && PowFacts(pow18)
    ensures var c := Duotone(s, isReversed, pow18)[j];
      var k := j % 4;
      || SHADOW_COLOR.Channel(k) <= c <= HIGHLIGHT_COLOR.Channel(k)
      || HIGHLIGHT_COLOR.Channel(k) <= c <= SHADOW_COLOR.Channel(k)
  {
    BufferFractionInUnit(s, j / 4, pow18);
  }

  /**
    A buffer whose pixels all have the same luminance comes out entirely in the shadow
    endpoint of the chosen orientation: the normalised value is 0 everywhere and the
    curve keeps 0 at 0. Alpha is kept.
  */
  lemma FlatImageBecomesShadow(s: seq<Byte>, isReversed: bool, pow18: real -> real)
    requires IsPixelBuffer(s) && PowFacts(pow18)
    requires forall p, q :: 0 <= p < PixelCount(s) && 0 <= q < PixelCount(s) ==> LumAt(s, p) == LumAt(s, q)
    ensures forall p :: 0 <= p < PixelCount(s) ==>
              PixelColor(Duotone(s, isReversed, pow18), p) == RampFor(isReversed).shadowColor
              && Duotone(s, isReversed, pow18)[4 * p + 3] == s[4 * p + 3]
  {
    var n := PixelCount(s);
    var out := Duotone(s, isReversed, pow18);
    LuminanceBounds(s, n);
    forall p | 0 <= p < n
      ensures PixelColor(out, p) == RampFor(isReversed).shadowColor && out[4 * p + 3] == s[4 * p + 3]
    {
      var p0 :| 0 <= p0 < n && LumAt(s, p0) == MinLum(s, n);
      assert LumAt(s, p) == MinLum(s, n);
      ExtremesMapToEndpoints(s, isReversed, pow18, p);
      AlphaKept(s, isReversed, pow18, p);
    }
  }

  /** Pass 2 leaves the alpha byte of every pixel as it was. */
  lemma AlphaKept(s: seq<Byte>, isReversed: bool, pow18: real -> real, p: nat)
    requires IsPixelBuffer(s) && p < PixelCount(s)
    ensures Duotone(s, isReversed, pow18)[4 * p + 3] == s[4 * p + 3]
  {
    assert (4 * p + 3) % 4 == 3;
  }

  /**
    The darkest pixel takes the shadow endpoint of the chosen orientation (the green
    shadow colour, or the pink highlight colour when reversed), and the brightest pixel
    of a buffer that is not flat takes the other endpoint.
  */
  lemma ExtremesMapToEndpoints(s: seq<Byte>, isReversed: bool, pow18: real -> real, p: nat)
    requires IsPixelBuffer(s) && p < PixelCount(s) && PowFacts(pow18)
    ensures LumAt(s, p) == MinLum(s, PixelCount(s)) ==>
              PixelColor(Duotone(s, isReversed, pow18), p) ==
                (if isReversed then HIGHLIGHT_COLOR else SHADOW_COLOR)
    ensures LumAt(s, p) == MaxLum(s, PixelCount(s)) && MinLum(s, PixelCount(s)) != MaxLum(s, PixelCount(s)) ==>
              PixelColor(Duotone(s, isReversed, pow18), p) ==
                (if isReversed then SHADOW_COLOR else HIGHLIGHT_COLOR)
  {
    var n := PixelCount(s);
    LuminanceBounds(s, n);
    RangePositive(s);
    PixelMapping(s, p, MinLum(s, n), BufferRange(s), isReversed, pow18);
  }

  /** Interpolating from b to a at t is interpolating from a to b at 1 - t. */
  lemma InterpolateReversed(a: int, b: int, t: real)
    ensures Interpolate(b, a, t) == Interpolate(a, b, 1.0 - t)
  {
  }

  /**
    Orientation symmetry: both orientations give a pixel the same fraction t along the
    ramp; without reversal the output is the ramp from the shadow to the highlight
    colour at t, with reversal it is that same ramp at 1 - t.
  */
  lemma OrientationSwap(s: seq<Byte>, pow18: real -> real, j: nat)
    requires IsPixelBuffer(s) && j < |s| && j % 4 != 3
    ensures var k := j % 4;
      var t := BufferFraction(s, j / 4, pow18);
      && Duotone(s, false, pow18)[j] == ShadeChannel(SHADOW_COLOR.Channel(k), HIGHLIGHT_COLOR.Channel(k), t)
      && Duotone(s, true, pow18)[j] == ShadeChannel(SHADOW_COLOR.Channel(k), HIGHLIGHT_COLOR.Channel(k), 1.0 - t)
  {
    var k := j % 4;
    var t := BufferFraction(s, j / 4, pow18);
    InterpolateReversed(SHADOW_COLOR.Channel(k), HIGHLIGHT_COLOR.Channel(k), t);
  }

  /**
    Monotonicity: a pixel no brighter than another is given a fraction along the ramp
    no greater than the other's.
  */
  lemma FractionMonotone(s: seq<Byte>, pow18: real -> real, p: nat, q: nat)
    requires IsPixelBuffer(s) && p < PixelCount(s) && q < PixelCount(s) && PowFacts(pow18)
    requires LumAt(s, p) <= LumAt(s, q)
    ensures BufferFraction(s, p, pow18) <= BufferFraction(s, q, pow18)
  {
    var minL, range := MinLum(s, PixelCount(s)), BufferRange(s);
    RangePositive(s);
    NormalizeMonotone(LumAt(s, p), LumAt(s, q), minL, range);
    EnhanceContrastMonotone(pow18, Normalize(LumAt(s, p), minL, range), Normalize(LumAt(s, q), minL, range));
  }

  /** A single mid-grey opaque pixel becomes the shadow colour (27, 96, 47), alpha 255. */
  lemma SingleGreyPixel(s: seq<Byte>, pow18: real -> real)
    requires PowFacts(pow18)
    requires s == [128, 128, 128, 255]
    ensures Duotone(s, false, pow18) == [27, 96, 47, 255]
  {
    FlatImageBecomesShadow(s, false, pow18);
    assert PixelColor(Duotone(s, false, pow18), 0) == SHADOW_COLOR;
  }

  /**
    A black pixel and a white pixel become the shadow and the highlight colour; with
    reversal they swap.
  */
  lemma BlackAndWhite(s: seq<Byte>, pow18: real -> real)
    requires PowFacts(pow18)
    requires s == [0, 0, 0, 255, 255, 255, 255, 255]
    ensures PixelColor(Duotone(s, false, pow18), 0) == Rgb(27, 96, 47)
    ensures PixelColor(Duotone(s, false, pow18), 1) == Rgb(247, 132, 197)
    ensures PixelColor(Duotone(s, true, pow18), 0) == Rgb(247, 132, 197)
    ensures PixelColor(Duotone(s, true, pow18), 1) == Rgb(27, 96, 47)
  {
    assert s[0] == s[1] == s[2] == 0 && s[4] == s[5] == s[6] == 255;
    BlackAndWhiteLuminance(s);
    BlackAndWhiteOriented(s, false, pow18);
    BlackAndWhiteOriented(s, true, pow18);
  }

  lemma BlackAndWhiteOriented(s: seq<Byte>, isReversed: bool, pow18: real -> real)
    requires PowFacts(pow18) && |s| == 8
    requires LumAt(s, 0) == 0 && LumAt(s, 1) == 2550000
    ensures PixelColor(Duotone(s, isReversed, pow18), 0) == RampFor(isReversed).shadowColor
    ensures PixelColor(Duotone(s, isReversed, pow18), 1) == RampFor(isReversed).highlightColor
  {
    TwoPixelBounds(s);
    ExtremesMapToEndpoints(s, isReversed, pow18, 0);
    ExtremesMapToEndpoints(s, isReversed, pow18, 1);
  }

  lemma BlackAndWhiteLuminance(s: seq<Byte>)
    requires |s| == 8 && s[0] == s[1] == s[2] == 0 && s[4] == s[5] == s[6] == 255
    ensures LumAt(s, 0) == 0 && LumAt(s, 1) == 2550000
  {
  }

  lemma TwoPixelBounds(s: seq<Byte>)
    requires |s| == 8 && LumAt(s, 0) == 0 && LumAt(s, 1) == 2550000
    ensures MinLum(s, 2) == 0 && MaxLum(s, 2) == 2550000
  {
    assert MinLum(s, 1) == 0 && MaxLum(s, 1) == 0;
  }
}

/** Gradients and the colour of one pixel: the `Gradient` record, the three
    preset constants, `interpolate` and the colour choice of
    `generate_mandelbrot` (src/main.rs:8-27, 113-121, 130-132). */
module Colors {
  import opened Arith

  /** An unsigned 8-bit channel value (`u8`). */
  type Byte = b: int | 0 <= b < 256

  /** `[u8; 3]`: red, green, blue. */
  type Rgb = s: seq<Byte> | |s| == 3 witness [0, 0, 0]

  /** `[u8; 4]`: red, green, blue, alpha. */
  type Rgba = s: seq<Byte> | |s| == 4 witness [0, 0, 0, 0]

  /** A two-point colour ramp. */
  datatype Gradient = Gradient(startColor: Rgb, endColor: Rgb)

  const Rainbow: Gradient := Gradient([255, 0, 0], [0, 0, 255])
  const Purple: Gradient := Gradient([128, 0, 128], [255, 0, 255])
  const Green: Gradient := Gradient([0, 128, 0], [0, 255, 0])

  /** Opaque black, the colour of a pixel that used up its budget. */
  const Black: Rgba := [0, 0, 0, 255]

  /** Opaque alpha. */
  const Opaque: Byte := 255

  function Min(a: int, b: int): int { if a <= b then a else b }
  function Max(a: int, b: int): int { if a <= b then b else a }

  /** Rust's `as u8` on a float: truncation toward zero, saturating at 0 below
      and at 255 above. */
  function CastU8(v: real): (b: Byte)
    ensures 0.0 <= v < 256.0 ==> b as real <= v < b as real + 1.0
    ensures v < 0.0 ==> b == 0
    ensures v >= 256.0 ==> b == 255
  {
    if v < 0.0 then 0 else if v >= 255.0 then 255 else v.Floor
  }

  /** The blend `start*(1-t) + end*t` before the cast. */
  function Blend(start: Byte, end: Byte, t: real): real {
    start as real * (1.0 - t) + end as real * t
  }

  /** `interpolate`: the blend of the two channel values, cast to `u8`. */
  function Interpolate(start: Byte, end: Byte, t: real): Byte {
    CastU8(Blend(start, end, t))
  }

  /** At t = 0 the ramp gives its start value and at t = 1 its end value. */
  lemma InterpolateEndpoints(start: Byte, end: Byte)
    ensures Interpolate(start, end, 0.0) == start
    ensures Interpolate(start, end, 1.0) == end
  {
    assert Blend(start, end, 0.0) == start as real;
    assert Blend(start, end, 1.0) == end as real;
  }

  /** A weighting a*(1-t) + b*t with t in [0, 1] is no smaller than a common
      lower bound m of a and b. */
  lemma WeightedAtLeast(a: real, b: real, m: real, t: real)
    requires m <= a && m <= b && 0.0 <= t <= 1.0
    ensures m <= a * (1.0 - t) + b * t
  {
    ProductNonneg(a - m, 1.0 - t);
    ProductNonneg(b - m, t);
    assert a * (1.0 - t) + b * t == m + (a - m) * (1.0 - t) + (b - m) * t;
  }

  /** ... and no larger than a common upper bound m of a and b. */
  lemma WeightedAtMost(a: real, b: real, m: real, t: real)
    requires a <= m && b <= m && 0.0 <= t <= 1.0
    ensures a * (1.0 - t) + b * t <= m
  {
    ProductNonneg(m - a, 1.0 - t);
    ProductNonneg(m - b, t);
    assert a * (1.0 - t) + b * t == m - (m - a) * (1.0 - t) - (m - b) * t;
  }

  /** For t in [0, 1] the blend lies between the two channel values. */
  lemma BlendBetween(start: Byte, end: Byte, t: real)
    requires 0.0 <= t <= 1.0
    ensures Min(start, end) as real <= Blend(start, end, t)
    ensures Blend(start, end, t) <= Max(start, end) as real
  {
    WeightedAtLeast(start as real, end as real, Min(start, end) as real, t);
    WeightedAtMost(start as real, end as real, Max(start, end) as real, t);
  }

  /** Hence the cast in `interpolate` never saturates: the result truncates
      the blend and lies between the two channel values. */
  lemma InterpolateBetween(start: Byte, end: Byte, t: real)
    requires 0.0 <= t <= 1.0
    ensures Interpolate(start, end, t) as real <= Blend(start, end, t)
              < Interpolate(start, end, t) as real + 1.0
    ensures Min(start, end) <= Interpolate(start, end, t) <= Max(start, end)
  {
    BlendBetween(start, end, t);
    var b := Blend(start, end, t);
    var r := Interpolate(start, end, t);
    assert r as real <= b < r as real + 1.0;
    assert (Min(start, end) as real) < r as real + 1.0;
    assert r as real <= Max(start, end) as real;
  }

  /** The blend's distance from the end value is the channel span times
      1 - t: as t approaches 1 the blend approaches the end value. */
  lemma BlendApproachesEnd(start: Byte, end: Byte, t: real)
    ensures Blend(start, end, t) - end as real == (start as real - end as real) * (1.0 - t)
  {
  }

  /** The truncated byte approaches the end value from below only up to 1:
      for t in [0, 1) and start < end the byte is at most end - 1 (so it never
      equals end), yet it is within (end - start)*(1 - t) + 1 of end. For
      start >= end the byte is at least end and at most (start - end)*(1 - t)
      above it. */
  lemma InterpolateNearEnd(start: Byte, end: Byte, t: real)
    requires 0.0 <= t < 1.0
    ensures start < end ==> Interpolate(start, end, t) <= end - 1
    ensures start < end ==>
      end as real + (start as real - end as real) * (1.0 - t) - 1.0 < Interpolate(start, end, t) as real
    ensures end <= start ==> end <= Interpolate(start, end, t)
    ensures end <= start ==>
      Interpolate(start, end, t) as real <= end as real + (start as real - end as real) * (1.0 - t)
  {
    BlendApproachesEnd(start, end, t);
    InterpolateBetween(start, end, t);
    if start < end {
      ProductNegative(start as real - end as real, 1.0 - t);
    }
  }

  /** The normalised escape value `t = iter / max_iter` of an escaped pixel. */
  function Normalized(iter: nat, maxIter: nat): (t: real)
    requires iter < maxIter
    ensures 0.0 <= t < 1.0
    ensures t * maxIter as real == iter as real
  {
    iter as real / maxIter as real
  }

  /** The colour of a pixel whose escape loop ended at `iter`: the gradient,
      channel by channel, for an escaped pixel, and opaque black for one that
      used the whole budget. */
  function PixelColor(iter: nat, maxIter: nat, g: Gradient): (rgba: Rgba)
    ensures rgba[3] == Opaque
    ensures iter >= maxIter ==> rgba == Black
  {
    if iter < maxIter then
      var t := Normalized(iter, maxIter);
      [ Interpolate(g.startColor[0], g.endColor[0], t),
        Interpolate(g.startColor[1], g.endColor[1], t),
        Interpolate(g.startColor[2], g.endColor[2], t),
        Opaque ]
    else
      Black
  }

  /** An escaped pixel's channel k is `interpolate` of the gradient's channel k
      at t in [0, 1), and so lies between the gradient's two values for it. */
  lemma EscapedColor(iter: nat, maxIter: nat, g: Gradient, k: nat)
    requires iter < maxIter && k < 3
    ensures 0.0 <= Normalized(iter, maxIter) < 1.0
    ensures PixelColor(iter, maxIter, g)[k]
              == Interpolate(g.startColor[k], g.endColor[k], Normalized(iter, maxIter))
    ensures Min(g.startColor[k], g.endColor[k]) <= PixelColor(iter, maxIter, g)[k]
              <= Max(g.startColor[k], g.endColor[k])
  {
    InterpolateBetween(g.startColor[k], g.endColor[k], Normalized(iter, maxIter));
  }

  /** With a zero budget no pixel escapes: every colour is opaque black and the
      division by `max_iter` is never evaluated. */
  lemma ZeroBudgetIsBlack(iter: nat, g: Gradient)
    ensures PixelColor(iter, 0, g) == Black
  {
  }

  /** A count of 0 (only possible for a point outside the radius at z_0, which
      does not exist) would give exactly the gradient's start colour. */
  lemma StartColorAtZero(maxIter: nat, g: Gradient)
    requires maxIter >= 1
    ensures PixelColor(0, maxIter, g)[..3] == g.startColor
  {
    forall k | 0 <= k < 3
      ensures PixelColor(0, maxIter, g)[k] == g.startColor[k]
    {
      InterpolateEndpoints(g.startColor[k], g.endColor[k]);
    }
  }
}

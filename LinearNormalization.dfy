/**
 * Linear normalization of a 16-bit thermal image: each sample v becomes
 * floor(clip((v - bottom) / (top - bottom), 0, 1) * (2^d - 1)) for an output
 * depth d of 8 or 16 bits. The ratio is kept exactly, as the numerator
 * v - bottom over the common denominator top - bottom, so the model is the
 * exact rational version of the source's floating-point formula.
 *
 * The image is a flat array of samples in row-major order: every step is
 * elementwise, so the output has the shape of the input exactly when it has
 * its length.
 */
module LinearNormalization {
  import opened Wrappers

  /** The largest output level, which `top` maps to: 2^8 - 1 or 2^16 - 1. */
  function MaxLevel(bit8: bool): nat
  {
    if bit8 then 255 else 65535
  }

  /**
   * The conversion to the unsigned d-bit output type (numpy's astype). Only
   * levels in [0, 2^d - 1] ever reach it (NormalizeSampleInRange), where it
   * is the identity; reducing modulo 2^d elsewhere is a choice of this
   * model, since numpy leaves out-of-range float conversions undefined.
   */
  function ToUnsigned(x: int, bit8: bool): (r: int)
    ensures 0 <= r <= MaxLevel(bit8)
  {
    x % (MaxLevel(bit8) + 1)
  }

  /** Values below `lo` raised to `lo`. */
  function ClipBelow(x: int, lo: int): int
  {
    if x < lo then lo else x
  }

  /** Values above `hi` lowered to `hi`. */
  function ClipAbove(x: int, hi: int): int
  {
    if x > hi then hi else x
  }

  /** Clipping to [lo, hi]: first from below, then from above. */
  function Clip(x: int, lo: int, hi: int): int
  {
    ClipAbove(ClipBelow(x, lo), hi)
  }

  /**
   * The output level of sample `v`: the clipped ratio is
   * Clip(v - bottom, 0, span) / span and its scaled floor is an integer
   * division, exact because both operands are non-negative.
   */
  function NormalizeSample(v: int, bottom: int, top: int, bit8: bool): (level: int)
    requires bottom < top
    ensures 0 <= level <= MaxLevel(bit8)
  {
    var span, m := top - bottom, MaxLevel(bit8);
    var n := Clip(v - bottom, 0, span);
    MulMono(0, n, m);
    MulMono(n, span, m);
    DivMono(0, n * m, span);
    DivMono(n * m, span * m, span);
    DivIsFloor(span * m, span);
    FloorUnique(span * m / span, m, span * m, span);
    n * m / span
  }

  /** `r` is the floor of the exact value n / span * m. */
  ghost predicate IsFloorOfScaled(r: int, n: int, span: int, m: int)
  {
    r * span <= n * m < (r + 1) * span
  }

  // Arithmetic facts the solver does not find on its own.

  lemma MulMono(a: int, b: int, c: int)
    requires a <= b && 0 <= c
    ensures a * c <= b * c
  {
    assert b * c - a * c == (b - a) * c;
  }

  lemma DivIsFloor(x: int, d: int)
    requires 0 < d
    ensures (x / d) * d <= x < (x / d + 1) * d
  {
    assert x == (x / d) * d + x % d;
  }

  lemma FloorUnique(r1: int, r2: int, x: int, d: int)
    requires 0 < d
    requires r1 * d <= x < (r1 + 1) * d
    requires r2 * d <= x < (r2 + 1) * d
    ensures r1 == r2
  {
    if r1 < r2 {
      MulMono(r1 + 1, r2, d);
    } else if r2 < r1 {
      MulMono(r2 + 1, r1, d);
    }
  }

  lemma DivMono(x1: int, x2: int, d: int)
    requires 0 < d && x1 <= x2
    ensures x1 / d <= x2 / d
  {
    DivIsFloor(x1, d);
    DivIsFloor(x2, d);
    if x2 / d < x1 / d {
      MulMono(x2 / d + 1, x1 / d, d);
    }
  }

  /**
   * NormalizeSample is the floor of the exactly scaled, clipped ratio: it
   * satisfies the floor inequalities, and an integer satisfies them exactly
   * when it equals NormalizeSample.
   */
  lemma NormalizeSampleIsExactFloor(v: int, bottom: int, top: int, bit8: bool, r: int)
    requires bottom < top
    ensures IsFloorOfScaled(NormalizeSample(v, bottom, top, bit8),
                            Clip(v - bottom, 0, top - bottom), top - bottom, MaxLevel(bit8))
    ensures IsFloorOfScaled(r, Clip(v - bottom, 0, top - bottom), top - bottom, MaxLevel(bit8)) <==>
      r == NormalizeSample(v, bottom, top, bit8)
  {
    var span, n, m := top - bottom, Clip(v - bottom, 0, top - bottom), MaxLevel(bit8);
    DivIsFloor(n * m, span);
    if IsFloorOfScaled(r, n, span, m) {
      FloorUnique(r, n * m / span, n * m, span);
    }
  }

  /**
   * Every output level lies in [0, 2^d - 1] (NormalizeSample's contract),
   * so the conversion to the unsigned d-bit type leaves it unchanged.
   */
  lemma NormalizeSampleInRange(v: int, bottom: int, top: int, bit8: bool)
    requires bottom < top
    ensures 0 <= NormalizeSample(v, bottom, top, bit8) <= MaxLevel(bit8)
    ensures ToUnsigned(NormalizeSample(v, bottom, top, bit8), bit8) == NormalizeSample(v, bottom, top, bit8)
  {
  }

  /**
   * Samples at or below `bottom` map to 0 and samples at or above `top` map
   * to 2^d - 1; in particular bottom maps to 0 and top to 2^d - 1.
   */
  lemma NormalizeSampleClips(v: int, bottom: int, top: int, bit8: bool)
    requires bottom < top
    ensures v <= bottom ==> NormalizeSample(v, bottom, top, bit8) == 0
    ensures v >= top ==> NormalizeSample(v, bottom, top, bit8) == MaxLevel(bit8)
  {
    var span, m := top - bottom, MaxLevel(bit8);
    if v >= top {
      DivIsFloor(span * m, span);
      FloorUnique(span * m / span, m, span * m, span);
    }
  }

  /** For fixed bounds the output level never decreases as the sample grows. */
  lemma NormalizeSampleMonotone(v1: int, v2: int, bottom: int, top: int, bit8: bool)
    requires bottom < top && v1 <= v2
    ensures NormalizeSample(v1, bottom, top, bit8) <= NormalizeSample(v2, bottom, top, bit8)
  {
    var span, m := top - bottom, MaxLevel(bit8);
    var n1, n2 := Clip(v1 - bottom, 0, span), Clip(v2 - bottom, 0, span);
    MulMono(n1, n2, m);
    DivMono(n1 * m, n2 * m, span);
  }

  /** The smallest sample (np.min). */
  function Min(s: seq<int>): (lo: int)
    requires |s| > 0
    ensures lo in s && forall x :: x in s ==> lo <= x
  {
    if |s| == 1 then s[0]
    else
      var rest := Min(s[1..]);
      assert forall x :: x in s ==> x == s[0] || x in s[1..];
      if s[0] <= rest then s[0] else rest
  }

  /** The largest sample (np.max). */
  function Max(s: seq<int>): (hi: int)
    requires |s| > 0
    ensures hi in s && forall x :: x in s ==> x <= hi
  {
    if |s| == 1 then s[0]
    else
      var rest := Max(s[1..]);
      assert forall x :: x in s ==> x == s[0] || x in s[1..];
      if s[0] >= rest then s[0] else rest
  }

  /** The bound used when `given` is absent: the extreme the caller names. */
  function BottomOr(given: Option<int>, samples: seq<int>): int
    requires given.Some? || |samples| > 0
  {
    if given.Some? then given.value else Min(samples)
  }

  function TopOr(given: Option<int>, samples: seq<int>): int
    requires given.Some? || |samples| > 0
  {
    if given.Some? then given.value else Max(samples)
  }

  /**
   * With both bounds omitted and the samples not all equal, the output spans
   * the whole range: every level lies in [0, 2^d - 1], some sample (a
   * minimal one) maps to 0 and some sample (a maximal one) maps to 2^d - 1.
   */
  lemma DefaultBoundsSpanFullRange(s: seq<int>, bit8: bool)
    requires |s| > 0 && Min(s) < Max(s)
    ensures forall k :: 0 <= k < |s| ==> 0 <= NormalizeSample(s[k], Min(s), Max(s), bit8) <= MaxLevel(bit8)
    ensures exists k :: 0 <= k < |s| && NormalizeSample(s[k], Min(s), Max(s), bit8) == 0
    ensures exists k :: 0 <= k < |s| && NormalizeSample(s[k], Min(s), Max(s), bit8) == MaxLevel(bit8)
  {
    var lo, hi := Min(s), Max(s);
    var i :| 0 <= i < |s| && s[i] == lo;
    var j :| 0 <= j < |s| && s[j] == hi;
    NormalizeSampleClips(s[i], lo, hi, bit8);
    NormalizeSampleClips(s[j], lo, hi, bit8);
  }

  /** The masked assignment a[a < lo] = lo. */
  method ClipBelowInPlace(a: array<int>, lo: int)
    modifies a
    ensures forall j :: 0 <= j < a.Length ==> a[j] == ClipBelow(old(a[j]), lo)
  {
    var k := 0;
    while k < a.Length
      invariant 0 <= k <= a.Length
      invariant forall j :: 0 <= j < k ==> a[j] == ClipBelow(old(a[j]), lo)
      invariant forall j :: k <= j < a.Length ==> a[j] == old(a[j])
    {
      if a[k] < lo {
        a[k] := lo;
      }
      k := k + 1;
    }
  }

  /** The masked assignment a[a > hi] = hi. */
  method ClipAboveInPlace(a: array<int>, hi: int)
    modifies a
    ensures forall j :: 0 <= j < a.Length ==> a[j] == ClipAbove(old(a[j]), hi)
  {
    var k := 0;
    while k < a.Length
      invariant 0 <= k <= a.Length
      invariant forall j :: 0 <= j < k ==> a[j] == ClipAbove(old(a[j]), hi)
      invariant forall j :: k <= j < a.Length ==> a[j] == old(a[j])
    {
      if a[k] > hi {
        a[k] := hi;
      }
      k := k + 1;
    }
  }

  /**
   * Each ratio a[j] / span scaled to the output levels, floored and
   * converted to the unsigned d-bit type.
   */
  method QuantizeInPlace(a: array<int>, span: int, bit8: bool)
    requires 0 < span
    modifies a
    ensures forall j :: 0 <= j < a.Length ==> a[j] == ToUnsigned(old(a[j]) * MaxLevel(bit8) / span, bit8)
  {
    var levels := MaxLevel(bit8);
    var k := 0;
    while k < a.Length
      invariant 0 <= k <= a.Length
      invariant forall j :: 0 <= j < k ==> a[j] == ToUnsigned(old(a[j]) * levels / span, bit8)
      invariant forall j :: k <= j < a.Length ==> a[j] == old(a[j])
    {
      a[k] := ToUnsigned(a[k] * levels / span, bit8);
      k := k + 1;
    }
  }

  /**
   * The normalized copy of `image`. Absent bounds default to the image's
   * minimum and maximum; the resolved bounds must satisfy bottom < top.
   */
  method LinNormalizeImage(image: array<int>, bit8: bool, bottom: Option<int>, top: Option<int>)
    returns (scaled: array<int>)
    requires bottom.None? || top.None? ==> image.Length > 0
    requires BottomOr(bottom, image[..]) < TopOr(top, image[..])
    ensures fresh(scaled) && scaled.Length == image.Length
    ensures forall k :: 0 <= k < image.Length ==>
      scaled[k] == NormalizeSample(image[k], BottomOr(bottom, image[..]), TopOr(top, image[..]), bit8)
  {
    var lo := if bottom.Some? then bottom.value else Min(image[..]);
    var hi := if top.Some? then top.value else Max(image[..]);
    assert lo == BottomOr(bottom, image[..]) && hi == TopOr(top, image[..]);
    scaled := NormalizeWithBounds(image, bit8, lo, hi);
  }

  /**
   * The formula once the bounds are known. The steps follow the source: the
   * ratio array, clipping below 0, clipping above 1, then scaling, flooring
   * and converting to the output type.
   */
  method NormalizeWithBounds(image: array<int>, bit8: bool, lo: int, hi: int)
    returns (scaled: array<int>)
    requires lo < hi
    ensures fresh(scaled) && scaled.Length == image.Length
    ensures forall k :: 0 <= k < image.Length ==> scaled[k] == NormalizeSample(image[k], lo, hi, bit8)
  {
    var span := hi - lo;
    var n := image.Length;

    // (image - bottom) / (top - bottom): each ratio is stored as its numerator over span
    scaled := new int[n];
    var k := 0;
    while k < n
      invariant 0 <= k <= n
      invariant forall j :: 0 <= j < k ==> scaled[j] == image[j] - lo
    {
      scaled[k] := image[k] - lo;
      k := k + 1;
    }

    ClipBelowInPlace(scaled, 0);     // ratios below 0 become 0
    ClipAboveInPlace(scaled, span);  // ratios above 1 become 1

    // floor(ratio * (2^d - 1)), converted to the unsigned d-bit type
    QuantizeInPlace(scaled, span, bit8);
    forall j | 0 <= j < n ensures scaled[j] == NormalizeSample(image[j], lo, hi, bit8) {
      NormalizeSampleInRange(image[j], lo, hi, bit8);
    }
  }
}

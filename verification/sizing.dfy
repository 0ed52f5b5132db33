/**
 * The numeric helpers of the settings form: the threshold percentage turned
 * into an 8-bit cutoff, the rounding of a crop side down to a multiple of the
 * Braille cell size, and the choice of the target size from the preset table
 * or from the crop itself.
 */
module Sizing {

  /** Threshold the settings start with. */
  const DefaultThreshold: int := 50

  /**
   * The threshold percentage as an 8-bit cutoff. The program computes
   * floor(t * 2.55) in double precision; this model uses the exact integer
   * value (t * 255) / 100 (Dafny's division by a positive divisor floors, also
   * for negative t). The result is characterised as that floor: the largest
   * c with 100 * c <= 255 * t.
   */
  function ConvertedThreshold(t: int): (cutoff: int)
    ensures 100 * cutoff <= 255 * t < 100 * cutoff + 100
    ensures 1 <= t <= 99 ==> 2 <= cutoff <= 252
    ensures 0 <= t <= 100 ==> 0 <= cutoff <= 255
  {
    (t * 255) / 100
  }

  /** A larger percentage never gives a smaller cutoff. */
  lemma ThresholdMonotone(s: int, t: int)
    requires s <= t
    ensures ConvertedThreshold(s) <= ConvertedThreshold(t)
  {
  }

  /** The default threshold of 50 gives the cutoff 127. */
  lemma DefaultCutoff()
    ensures ConvertedThreshold(DefaultThreshold) == 127
  {
  }

  /**
   * JavaScript's `%`: the remainder of a division truncated toward zero, so
   * it takes the sign of the dividend (Dafny's `%` is never negative).
   */
  function JsRemainder(a: int, n: int): (r: int)
    requires n > 0
    ensures a >= 0 ==> 0 <= r < n && r <= a
    ensures a < 0 ==> -n < r <= 0 && a <= r
    ensures (a - r) % n == 0
    ensures a % n == 0 ==> r == 0
  {
    if a >= 0 then
      NonNegativeRemainder(a, n);
      a % n
    else
      NegativeRemainder(a, n);
      -((-a) % n)
  }

  lemma NonNegativeRemainder(a: int, n: int)
    requires a >= 0 && n > 0
    ensures a % n <= a
    ensures (a - a % n) % n == 0
  {
    assert a - a % n == n * (a / n);
    ModOfMultiple(n, a / n);
  }

  lemma NegativeRemainder(a: int, n: int)
    requires a < 0 && n > 0
    ensures (-a) % n <= -a
    ensures (a + (-a) % n) % n == 0
    ensures a % n == 0 ==> (-a) % n == 0
  {
    NonNegativeRemainder(-a, n);
    assert a + (-a) % n == n * (-((-a) / n));
    ModOfMultiple(n, -((-a) / n));
    if a % n == 0 {
      assert -a == n * (-(a / n));
      ModOfMultiple(n, -(a / n));
    }
  }

  /** A multiple of `n` leaves no remainder. */
  lemma ModOfMultiple(n: int, q: int)
    requires n > 0
    ensures (n * q) % n == 0
  {
    var d, m := (n * q) / n, (n * q) % n;
    assert m == n * (q - d);
    BoundedMultipleIsZero(n, q - d);
  }

  lemma BoundedMultipleIsZero(n: int, k: int)
    requires n > 0 && 0 <= n * k < n
    ensures k == 0
  {
    if k >= 1 {
      MultipleAtLeastDivisor(n, k);
    } else if k <= -1 {
      MultipleAtLeastDivisor(n, -k);
    }
  }

  /**
   * A crop side rounded toward zero to a multiple of `to` (2 for widths, 4 for
   * heights). For a non-negative side the result is the largest multiple of
   * `to` that does not exceed it.
   */
  function CutDownSide(side: int, to: int): (r: int)
    requires to > 0
    ensures r % to == 0
    ensures side >= 0 ==> 0 <= r <= side < r + to
    ensures side < 0 ==> r - to < side <= r <= 0
    ensures side % to == 0 ==> r == side
  {
    var rem := JsRemainder(side, to);
    side - rem
  }

  /** No multiple of `to` lies strictly between the cut-down side and the side. */
  lemma CutDownSideGreatest(side: int, to: int, m: int)
    requires to > 0 && side >= 0
    requires m % to == 0 && m <= side
    ensures m <= CutDownSide(side, to)
  {
    var r := CutDownSide(side, to);
    var a, b := m / to, r / to;
    assert m == to * a;
    assert r == to * b;
    if a > b {
      assert m - r == to * (a - b);
      MultipleAtLeastDivisor(to, a - b);
      assert false;
    }
  }

  lemma MultipleAtLeastDivisor(n: int, k: int)
    requires n > 0 && k >= 1
    ensures n * k >= n
  {
  }

  /** Cutting a side down twice is the same as cutting it down once. */
  lemma CutDownSideIdempotent(side: int, to: int)
    requires to > 0
    ensures CutDownSide(CutDownSide(side, to), to) == CutDownSide(side, to)
  {
  }

  /** The entries of the preset menu; `Twitch` is the one selected first. */
  datatype Preset = Twitch | Youtube | Custom

  /** The preset selected first: the first key of the preset table. */
  const DefaultPreset: Preset := Twitch

  /**
   * The form starts on a named preset, so before any choice is made the
   * target size is fixed at 60 by 64 whatever the crop.
   */
  lemma DefaultPresetSize(cropWidth: nat, cropHeight: nat)
    ensures DefaultPreset != Custom
    ensures AspectRatios(DefaultPreset) == [60, 64]
    ensures TargetSize(DefaultPreset, cropWidth, cropHeight) == Size(60, 64)
  {
  }

  /**
   * The preset table: a [width, height] pair in pixels for each named preset,
   * nothing for the custom one.
   */
  function AspectRatios(p: Preset): (dims: seq<nat>)
    ensures p == Custom <==> dims == []
    ensures dims != [] ==> |dims| == 2 && dims[0] % 2 == 0 && dims[1] % 4 == 0
  {
    match p
    case Twitch => [60, 64]
    case Youtube => [60, 24]
    case Custom => []
  }

  datatype Size = Size(width: nat, height: nat)

  /**
   * The size the thresholded image is scaled to: the preset's pair, or for
   * the custom preset the crop's own width and height cut down to a multiple
   * of 2 and of 4.
   */
  function TargetSize(p: Preset, cropWidth: nat, cropHeight: nat): (size: Size)
    ensures size.width % 2 == 0 && size.height % 4 == 0
    ensures p == Twitch ==> size == Size(60, 64)
    ensures p == Youtube ==> size == Size(60, 24)
    ensures p == Custom ==>
      size.width <= cropWidth < size.width + 2 && size.height <= cropHeight < size.height + 4
  {
    if p == Custom then
      Size(CutDownSide(cropWidth, 2), CutDownSide(cropHeight, 4))
    else
      var dims := AspectRatios(p);
      Size(dims[0], dims[1])
  }

  /**
   * The presets' cell budgets: Twitch gives 30 glyphs by 16 lines (within 500
   * characters), YouTube 30 by 6 (within 200).
   */
  lemma PresetGlyphBudget(p: Preset, w: nat, h: nat)
    requires p != Custom
    ensures var s := TargetSize(p, w, h);
      s.width / 2 == 30 &&
      (p == Twitch ==> s.height / 4 == 16 && (s.width / 2) * (s.height / 4) <= 500) &&
      (p == Youtube ==> s.height / 4 == 6 && (s.width / 2) * (s.height / 4) <= 200)
  {
  }

  /** A custom crop narrower than 2 or shorter than 4 gives a zero side. */
  lemma SmallCropGivesZeroSide(cropWidth: nat, cropHeight: nat)
    ensures cropWidth < 2 ==> TargetSize(Custom, cropWidth, cropHeight).width == 0
    ensures cropHeight < 4 ==> TargetSize(Custom, cropWidth, cropHeight).height == 0
  {
  }
}

/**
 * The numeric helpers of the micro module: floored modulo, clamping,
 * proportion/spread, and the particle intensity colour scale whose indexFor
 * maps a wind speed onto a draw bucket.
 */
module Micro {
  import opened Values

  /**
   * floorMod: the remainder of floored division. With exact reals the raw
   * remainder never equals n, so the guard that maps it to 0 (there to absorb
   * floating-point rounding) is dead code here; FloorModRange shows it.
   * A zero modulus, which yields NaN in JavaScript, is not modelled.
   */
  function FloorMod(a: real, n: real): real
    requires n != 0.0
  {
    var f := a - n * (a / n).Floor as real;
    if f == n then 0.0 else f
  }

  /** For n > 0 the result is in [0, n) and differs from a by a whole multiple of n. */
  lemma FloorModRange(a: real, n: real)
    requires n > 0.0
    ensures 0.0 <= FloorMod(a, n) < n
    ensures ((a - FloorMod(a, n)) / n).Floor as real == (a - FloorMod(a, n)) / n
  {
    var q := (a / n).Floor;
    var qr := q as real;
    RemainderBracket(a, n, qr);
    var f := a - n * qr;
    assert FloorMod(a, n) == f;
    assert a - f == n * qr;
    assert (n * qr) / n == qr;
  }

  /** The remainder after the largest whole multiple of n not above a lies in [0, n). */
  lemma RemainderBracket(a: real, n: real, qr: real)
    requires n > 0.0 && qr <= a / n < qr + 1.0
    ensures 0.0 <= a - n * qr
    ensures a - n * qr < n
  {
    var t := a / n;
    var d := t - qr;
    assert 0.0 <= d < 1.0;
    ScaleLe(0.0, d, n);
    ScaleLt(d, 1.0, n);
    assert t * n == a;
    assert d * n == t * n - qr * n;
    assert a - n * qr == d * n;
  }

  /** The value in [0, n) that is congruent to a modulo n is the one floorMod returns. */
  lemma FloorModUnique(a: real, n: real, r: real, k: int)
    requires n > 0.0
    requires 0.0 <= r < n
    requires a == r + k as real * n
    ensures FloorMod(a, n) == r
  {
    assert a / n == r / n + k as real;
    ScaleLe(0.0, r, 1.0 / n);
    ScaleLt(r, n, 1.0 / n);
    assert 0.0 <= r / n < 1.0;
    assert (a / n).Floor == k;
  }

  /** Multiplying both sides of an inequality by a non-negative factor. */
  lemma ScaleLe(x: real, y: real, c: real)
    requires x <= y && c >= 0.0
    ensures x * c <= y * c
  {
    assert (y - x) * c >= 0.0;
  }

  /** Multiplying both sides of a strict inequality by a positive factor. */
  lemma ScaleLt(x: real, y: real, c: real)
    requires x < y && c > 0.0
    ensures x * c < y * c
  {
    assert (y - x) * c > 0.0;
  }

  /** A fraction in [0, 1] of a non-negative quantity lies between 0 and that quantity. */
  lemma FractionOf(p: real, w: real)
    requires 0.0 <= p <= 1.0 && w >= 0.0
    ensures 0.0 <= p * w <= w
  {
    assert p * w >= 0.0;
    assert (1.0 - p) * w >= 0.0;
  }

  /** floorMod is periodic in its first argument. */
  lemma FloorModPeriodic(a: real, n: real, k: int)
    requires n > 0.0
    ensures FloorMod(a + k as real * n, n) == FloorMod(a, n)
  {
    FloorModRange(a, n);
    var r := FloorMod(a, n);
    var q := ((a - r) / n).Floor;
    assert a == r + q as real * n;
    assert a + k as real * n == r + (q + k) as real * n;
    FloorModUnique(a + k as real * n, n, r, q + k);
  }

  /** clamp: x limited to [low, high]; when low > high the result is low. */
  function Clamp(x: real, low: real, high: real): (r: real)
    ensures low <= high ==> low <= r <= high
    ensures low <= x <= high ==> r == x
    ensures x < low ==> r == low
    ensures low <= high < x ==> r == high
    ensures high < low ==> r == low
  {
    Max(low, Min(x, high))
  }

  /**
   * proportion: the fraction of [low, high] covered by x after clamping it.
   * An empty range, which yields NaN in JavaScript, is not modelled.
   */
  function Proportion(x: real, low: real, high: real): (p: real)
    requires low != high
    ensures low < high ==> 0.0 <= p <= 1.0
    ensures low < high && x <= low ==> p == 0.0
    ensures low < high && x >= high ==> p == 1.0
  {
    (Clamp(x, low, high) - low) / (high - low)
  }

  /** spread: the point p of [0, 1] scaled onto [low, high]. */
  function Spread(p: real, low: real, high: real): real
  {
    p * (high - low) + low
  }

  /** spread undoes proportion: together they clamp x to the range. */
  lemma SpreadOfProportion(x: real, low: real, high: real)
    requires low < high
    ensures Spread(Proportion(x, low, high), low, high) == Clamp(x, low, high)
  {
    var c := Clamp(x, low, high);
    assert Proportion(x, low, high) * (high - low) == c - low;
  }

  /** proportion undoes spread on [0, 1]. */
  lemma ProportionOfSpread(p: real, low: real, high: real)
    requires low < high
    requires 0.0 <= p <= 1.0
    ensures Proportion(Spread(p, low, high), low, high) == p
  {
    var s := Spread(p, low, high);
    var w := high - low;
    FractionOf(p, w);
    var pw := p * w;
    assert s == low + pw && 0.0 <= pw <= w;
    assert low <= s <= high;
    assert Clamp(s, low, high) == s;
    assert (p * w) / w == p;
  }

  /** A CSS colour style "rgba(r, g, b, a)", kept as its four components. */
  datatype ColorStyle = Rgba(r: int, g: int, b: int, a: real)

  /** The grey style that the intensity scale uses for level j. */
  function Gray(j: int): ColorStyle
  {
    Rgba(j, j, j, 1.0)
  }

  /** The array of styles returned by windIntensityColorScale, with its indexFor. */
  datatype ColorScale = ColorScale(styles: seq<ColorStyle>, maxWind: real) {
    /**
     * indexFor: map a wind speed to a style. A zero maxWind, which yields
     * NaN in JavaScript, is not modelled.
     */
    function IndexFor(m: real): int
      requires maxWind != 0.0
    {
      ((Min(m, maxWind) / maxWind) * (|styles| - 1) as real).Floor
    }
  }

  /** Euclidean division by a positive divisor is characterised by its bracket. */
  lemma DivByBracket(n: int, d: int, q: int)
    requires d > 0
    requires q * d <= n < (q + 1) * d
    ensures n / d == q
  {
    var q' := n / d;
    assert q' * d <= n < (q' + 1) * d;
    MulCancelLt(q, q' + 1, d);
    MulCancelLt(q', q + 1, d);
  }

  /** A positive factor can be cancelled from a strict inequality. */
  lemma MulCancelLt(a: int, b: int, c: int)
    requires c > 0 && a * c < b * c
    ensures a < b
  {
  }

  /**
   * windIntensityColorScale: grey styles for levels 85, 85+step, ... up to 255,
   * and the maximum wind that indexFor scales by.
   */
  method WindIntensityColorScale(step: int, maxWind: real) returns (scale: ColorScale)
    requires step > 0
    ensures scale.maxWind == maxWind
    ensures |scale.styles| == 170 / step + 1
    ensures forall k :: 0 <= k < |scale.styles| ==> scale.styles[k] == Gray(85 + k * step)
  {
    var result: seq<ColorStyle> := [];
    var j := 85;
    while j <= 255
      invariant j == 85 + |result| * step
      invariant |result| > 0 ==> (|result| - 1) * step <= 170
      invariant forall k :: 0 <= k < |result| ==> result[k] == Gray(85 + k * step)
    {
      result := result + [Gray(j)];
      j := j + step;
    }
    DivByBracket(170, step, |result| - 1);
    scale := ColorScale(result, maxWind);
  }

  /** For a non-negative speed, indexFor names one of the styles. */
  lemma IndexForRange(scale: ColorScale, m: real)
    requires scale.maxWind > 0.0 && |scale.styles| >= 1
    requires m >= 0.0
    ensures 0 <= scale.IndexFor(m) <= |scale.styles| - 1
  {
    var w := scale.maxWind;
    var n := (|scale.styles| - 1) as real;
    var p := Min(m, w) / w;
    QuotientInUnit(Min(m, w), w);
    FractionOf(p, n);
    var v := p * n;
    assert scale.IndexFor(m) == v.Floor;
    assert v.Floor as real <= v < v.Floor as real + 1.0;
  }

  /** A quantity between 0 and a positive w, divided by w, lies in [0, 1]. */
  lemma QuotientInUnit(a: real, w: real)
    requires w > 0.0 && 0.0 <= a <= w
    ensures 0.0 <= a / w <= 1.0
  {
    ScaleLe(0.0, a, 1.0 / w);
    ScaleLe(a, w, 1.0 / w);
    assert a / w == a * (1.0 / w);
    assert w * (1.0 / w) == 1.0;
  }

  /** indexFor never decreases as the speed grows. */
  lemma IndexForMonotone(scale: ColorScale, m1: real, m2: real)
    requires scale.maxWind > 0.0 && |scale.styles| >= 1
    requires m1 <= m2
    ensures scale.IndexFor(m1) <= scale.IndexFor(m2)
  {
    var w := scale.maxWind;
    var n := (|scale.styles| - 1) as real;
    var p1, p2 := Min(m1, w) / w, Min(m2, w) / w;
    assert p1 <= p2;
    ScaleLe(p1, p2, n);
  }

  /** Every speed at or above maxWind lands in the last style. */
  lemma IndexForSaturates(scale: ColorScale, m: real)
    requires scale.maxWind > 0.0 && |scale.styles| >= 1
    requires m >= scale.maxWind
    ensures scale.IndexFor(m) == |scale.styles| - 1
  {
    var w := scale.maxWind;
    assert Min(m, w) / w == 1.0;
  }

  /** The scale the animation builds (step 10) has 18 styles, grey levels 85 to 255. */
  lemma IntensityScaleOfStep10(scale: ColorScale)
    requires |scale.styles| == 170 / 10 + 1
    requires forall k :: 0 <= k < |scale.styles| ==> scale.styles[k] == Gray(85 + k * 10)
    ensures |scale.styles| == 18
    ensures scale.styles[0] == Gray(85) && scale.styles[17] == Gray(255)
  {
  }
}

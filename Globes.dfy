/**
 * The viewport clamp of the globes module: the projection's bounding box,
 * whose corners may be NaN or infinite, clamped to the pixel grid of the view.
 */
module Globes {
  import opened Values

  /** ensureNumber: finite numbers and the infinities pass, anything else becomes the fallback. */
  function EnsureNumber(num: JsNumber, fallback: JsNumber): (r: JsNumber)
    ensures num.NaN? ==> r == fallback
    ensures !num.NaN? ==> r == num
  {
    if num.IsFinite() || num.PosInf? || num.NegInf? then num else fallback
  }

  /** Math.floor and Math.ceil. */
  function JsFloor(a: JsNumber): JsNumber
  {
    match a
    case Num(r) => Num(r.Floor as real)
    case _ => a
  }

  function JsCeil(a: JsNumber): JsNumber
  {
    match a
    case Num(r) => Num(-((-r).Floor) as real)
    case _ => a
  }

  /** Math.max and Math.min: NaN wins, then the infinities order as usual. */
  function JsMax(a: JsNumber, b: JsNumber): JsNumber
  {
    if a.NaN? || b.NaN? then NaN
    else if a.PosInf? || b.PosInf? then PosInf
    else if a.NegInf? then b
    else if b.NegInf? then a
    else Num(Max(a.r, b.r))
  }

  function JsMin(a: JsNumber, b: JsNumber): JsNumber
  {
    if a.NaN? || b.NaN? then NaN
    else if a.NegInf? || b.NegInf? then NegInf
    else if a.PosInf? then b
    else if b.PosInf? then a
    else Num(Min(a.r, b.r))
  }

  /** IEEE addition and subtraction: opposite infinities give NaN. */
  function JsAdd(a: JsNumber, b: JsNumber): JsNumber
  {
    if a.NaN? || b.NaN? then NaN
    else if (a.PosInf? && b.NegInf?) || (a.NegInf? && b.PosInf?) then NaN
    else if a.PosInf? || b.PosInf? then PosInf
    else if a.NegInf? || b.NegInf? then NegInf
    else Num(a.r + b.r)
  }

  function JsNeg(a: JsNumber): JsNumber
  {
    match a
    case Num(r) => Num(-r)
    case PosInf => NegInf
    case NegInf => PosInf
    case NaN => NaN
  }

  function JsSub(a: JsNumber, b: JsNumber): JsNumber
  {
    JsAdd(a, JsNeg(b))
  }

  /** A finite number with no fractional part. */
  predicate IsInteger(a: JsNumber)
  {
    a.Num? && a.r.Floor as real == a.r
  }

  /** The view: the size of the host element in pixels. */
  datatype View = View(width: nat, height: nat)

  /** The object clampedBounds returns: {x, y, xMax, yMax, width, height}. */
  datatype ScreenBounds = ScreenBounds(x: JsNumber, y: JsNumber, xMax: JsNumber, yMax: JsNumber,
                                       width: JsNumber, height: JsNumber)

  /** The same bounds once every coordinate is known to be an integer. */
  datatype Bounds = Bounds(x: int, y: int, xMax: int, yMax: int, width: int, height: int)

  /** A lower clamp result: an integer at or above zero, or +Infinity. */
  predicate AtLeastZero(a: JsNumber)
  {
    a.PosInf? || (IsInteger(a) && a.r >= 0.0)
  }

  /** An upper clamp result: an integer at or below limit, or -Infinity. */
  predicate AtMost(a: JsNumber, limit: int)
  {
    a.NegInf? || (IsInteger(a) && a.r <= limit as real)
  }

  /** The clamp of an upper-left coordinate: max(floor(ensureNumber(a, 0)), 0). */
  function LowClamp(a: JsNumber): (r: JsNumber)
    ensures AtLeastZero(r)
    ensures a.NaN? || a.NegInf? ==> r == Num(0.0)
    ensures a.PosInf? ==> r.PosInf?
    ensures a.Num? ==> r == Num(Max(a.r.Floor as real, 0.0))
  {
    JsMax(JsFloor(EnsureNumber(a, Num(0.0))), Num(0.0))
  }

  /** The clamp of a lower-right coordinate: min(ceil(ensureNumber(a, size)), size - 1). */
  function HighClamp(a: JsNumber, size: int): (r: JsNumber)
    ensures AtMost(r, size - 1)
    ensures a.NaN? || a.PosInf? ==> r == Num((size - 1) as real)
    ensures a.NegInf? ==> r.NegInf?
    ensures a.Num? ==> r == Num(Min(-((-a.r).Floor) as real, (size - 1) as real))
  {
    JsMin(JsCeil(EnsureNumber(a, Num(size as real))), Num((size - 1) as real))
  }

  /** The pixel count from lo to hi inclusive: hi - lo + 1. */
  function Extent(lo: JsNumber, hi: JsNumber): (r: JsNumber)
    ensures IsInteger(lo) && IsInteger(hi) ==> IsInteger(r) && r.r == hi.r - lo.r + 1.0
    ensures lo.PosInf? && (hi.Num? || hi.NegInf?) ==> r.NegInf?
  {
    var r := JsAdd(JsSub(hi, lo), Num(1.0));
    assert IsInteger(lo) && IsInteger(hi) ==> r == Num((hi.r.Floor - lo.r.Floor + 1) as real);
    r
  }

  /**
   * clampedBounds: the upper-left corner floored and clamped from below at 0, the
   * lower-right corner ceiled and clamped from above at the view's last pixel; a NaN
   * corner coordinate falls back to 0 (upper left) or the view size (lower right). The
   * two corners are clamped independently, so the box may be empty.
   */
  function ClampedBounds(upperLeft: (JsNumber, JsNumber), lowerRight: (JsNumber, JsNumber), view: View)
    : (b: ScreenBounds)
    ensures AtLeastZero(b.x) && AtLeastZero(b.y)
    ensures AtMost(b.xMax, view.width - 1) && AtMost(b.yMax, view.height - 1)
    ensures upperLeft.0.NaN? || upperLeft.0.NegInf? ==> b.x == Num(0.0)
    ensures upperLeft.1.NaN? || upperLeft.1.NegInf? ==> b.y == Num(0.0)
    ensures lowerRight.0.NaN? || lowerRight.0.PosInf? ==> b.xMax == Num((view.width - 1) as real)
    ensures lowerRight.1.NaN? || lowerRight.1.PosInf? ==> b.yMax == Num((view.height - 1) as real)
  {
    var x := LowClamp(upperLeft.0);
    var y := LowClamp(upperLeft.1);
    var xMax := HighClamp(lowerRight.0, view.width);
    var yMax := HighClamp(lowerRight.1, view.height);
    ScreenBounds(x, y, xMax, yMax, Extent(x, xMax), Extent(y, yMax))
  }

  /** The clamped bounds with every coordinate an integer, when they are. */
  function AsBounds(b: ScreenBounds): Option<Bounds>
  {
    if IsInteger(b.x) && IsInteger(b.y) && IsInteger(b.xMax) && IsInteger(b.yMax)
       && IsInteger(b.width) && IsInteger(b.height)
    then Some(Bounds(b.x.r.Floor, b.y.r.Floor, b.xMax.r.Floor, b.yMax.r.Floor, b.width.r.Floor, b.height.r.Floor))
    else None
  }

  /**
   * Integer bounds as clampedBounds leaves them: x and y at least 0, xMax and yMax at
   * most the view's last pixel, width and height counted from the corners. Nothing
   * orders x before xMax, so the box may be empty (width or height at most 0).
   */
  predicate ClampedTo(b: Bounds, view: View)
  {
    && 0 <= b.x && 0 <= b.y
    && b.xMax <= view.width - 1 && b.yMax <= view.height - 1
    && b.width == b.xMax - b.x + 1 && b.height == b.yMax - b.y + 1
  }

  /**
   * When no corner coordinate is at the infinity ensureNumber passes, the clamped bounds
   * are integers, with x, y >= 0, xMax and yMax at most the view's last pixel, and width
   * and height counting the pixels from x to xMax and from y to yMax.
   */
  lemma ClampedBoundsFinite(upperLeft: (JsNumber, JsNumber), lowerRight: (JsNumber, JsNumber), view: View)
    requires !upperLeft.0.PosInf? && !upperLeft.1.PosInf? && !lowerRight.0.NegInf? && !lowerRight.1.NegInf?
    ensures AsBounds(ClampedBounds(upperLeft, lowerRight, view)).Some?
    ensures ClampedTo(AsBounds(ClampedBounds(upperLeft, lowerRight, view)).value, view)
  {
    var b := ClampedBounds(upperLeft, lowerRight, view);
    assert IsInteger(b.x) && IsInteger(b.y) && IsInteger(b.xMax) && IsInteger(b.yMax);
  }

  /**
   * An upper-left corner at +Infinity passes ensureNumber and leaves x at +Infinity,
   * so the width comes out as -Infinity.
   */
  lemma ClampedBoundsInfiniteLeft(upperLeft: (JsNumber, JsNumber), lowerRight: (JsNumber, JsNumber), view: View)
    requires upperLeft.0.PosInf?
    ensures ClampedBounds(upperLeft, lowerRight, view).x.PosInf?
    ensures ClampedBounds(upperLeft, lowerRight, view).width.NegInf?
  {
  }
}

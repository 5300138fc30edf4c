/**
 * Value types shared by the whole model: JavaScript's null/undefined as Option,
 * exceptions as Result, JavaScript numbers that may be non-finite, bytes, and
 * JavaScript's Math.round.
 */
module Values {

  /** A JavaScript value that may be null or undefined. */
  datatype Option<+T> = None | Some(value: T)

  /** An opaque exception value thrown by code outside the model. */
  datatype Error = Error(message: string)

  /** The outcome of a call that may throw. */
  datatype Result<+R> = Success(value: R) | Failure(error: Error) {
    predicate IsFailure() {
      Failure?
    }

    function PropagateFailure<U>(): Result<U>
      requires Failure?
    {
      Failure(error)
    }

    function Extract(): R
      requires Success?
    {
      value
    }
  }

  /** A JavaScript number: finite, one of the two infinities, or NaN. */
  datatype JsNumber = Num(r: real) | PosInf | NegInf | NaN {
    predicate IsFinite() {
      Num?
    }
  }

  /** An element of a Uint8ClampedArray. */
  type byte = b: int | 0 <= b < 256

  /**
   * Math.round: the nearest integer, halves rounded towards +Infinity.
   */
  function JsRound(r: real): (n: int)
    ensures n as real - 0.5 <= r < n as real + 0.5
  {
    (r + 0.5).Floor
  }

  /** Math.max and Math.min on two finite numbers. */
  function Max(a: real, b: real): real { if a >= b then a else b }
  function Min(a: real, b: real): real { if a <= b then a else b }
}

/**
 Values shared by every part of the model: an optional value, and the
 slice of Python's `float` that the memory gate compares.
 */
module Common {

  /** An absent or present value: a missing metadata key, a file that does
      not exist, or an external call that raised. */
  datatype Option<+T> = None | Some(value: T) {

    /** The value, or `default` when absent (Python's `dict.get(k, default)`). */
    function GetOr(default: T): T {
      match this
      case Some(v) => v
      case None => default
    }
  }

  /** A Python float as far as the model needs it: a finite value, one of the
      two infinities, or NaN (which `json.loads` and `float()` both accept). */
  datatype Float = Finite(r: real) | Infinity(positive: bool) | NaN {

    /** IEEE `self < t`: false whenever either side is NaN. */
    predicate Less(t: real) {
      match this
      case Finite(r) => r < t
      case Infinity(positive) => !positive
      case NaN => false
    }

    /** IEEE `self >= t`: false whenever either side is NaN. */
    predicate AtLeast(t: real) {
      match this
      case Finite(r) => r >= t
      case Infinity(positive) => positive
      case NaN => false
    }
  }
}

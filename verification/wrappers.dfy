/** Optional values: the model's rendering of TypeScript's `T | null` and `field?: T`. */
module Wrappers {

  /** `None` is `null` / `undefined`; `Some(v)` is a present value. */
  datatype Option<+T> = None | Some(value: T) {

    /** `x ?? default`: the present value, else the fallback. */
    function GetOr(default: T): T {
      match this
      case Some(v) => v
      case None() => default
    }
  }
}

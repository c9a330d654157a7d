/** The optional value used throughout the session state (Rust's `Option`). */
module Opt {

  datatype Option<+T> = None | Some(value: T) {

    /** `Option::unwrap_or`: the held value, or `default` when there is none. */
    function UnwrapOr(default: T): (r: T)
      ensures Some? ==> r == value
      ensures None? ==> r == default
    {
      match this
      case Some(v) => v
      case None => default
    }
  }
}

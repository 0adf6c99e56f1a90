/** Option and Result values for absent data and for failures that the
    modelled code propagates to its caller. */
module Wrappers {

  /** A value that may be absent (Python's `None`). */
  datatype Option<+T> = None | Some(value: T) {

    /** The wrapped value, or `default` when absent (`dict.get(k, default)`). */
    function GetOr(default: T): T {
      if Some? then value else default
    }
  }

  /** Either a value or the error an operation lets escape. */
  datatype Result<+T, +E> = Success(value: T) | Failure(error: E)
}

/** The optional-value datatype used across the model, standing for Python's
    `Optional[...]` arguments and for the outcome of a pattern match. */
module Wrappers {

  datatype Option<+T> = None | Some(value: T) {

    /** Returns the value held in Some, or `default` for None. */
    function GetOr(default: T): T {
      match this
      case Some(v) => v
      case None => default
    }
  }
}

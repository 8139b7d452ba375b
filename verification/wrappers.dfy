/** The optional-value datatype shared by the model: Java's nullable
    references and `Optional` both become `Option`. */
module Wrappers {

  datatype Option<+T> = None | Some(value: T) {

    /** The value held in `Some`, or `default` for `None` (Java's `orElse`). */
    function GetOr(default: T): T {
      match this
      case Some(v) => v
      case None => default
    }
  }
}

/** The optional-value datatype shared by the model: JavaScript's `undefined`
    (an absent property or a missing search result) is `None`. */
module Wrappers {

  datatype Option<+T> = None | Some(value: T) {

    /** Returns the value encapsulated in Some or a default value if None */
    function GetOr(default: T): T {
      match this
      case Some(v) => v
      case None => default
    }
  }
}

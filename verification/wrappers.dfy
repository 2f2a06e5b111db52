/** The optional-value datatype used throughout the model: `None` stands for
    JavaScript's `undefined` (an absent property, a missing request field). */
module Wrappers {

  datatype Option<+T> = None | Some(value: T) {

    /** Returns the value encapsulated in Some or a default value if None */
    function GetOr(default: T): T {
      match this
      case Some(v) => v
      case None => default
    }
  }
}

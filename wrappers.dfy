/** The optional value used for the nullable results and columns of the chat layer. */
module Wrappers {

  /** `None` stands for JavaScript's `null` (or an absent argument). */
  datatype Option<+T> = None | Some(value: T) {

    /** The wrapped value, or `default` when there is none (JavaScript's `x || default` on objects). */
    function GetOr(default: T): T {
      match this
      case Some(v) => v
      case None => default
    }
  }
}

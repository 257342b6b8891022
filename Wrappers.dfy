/** The optional-value datatype shared by the modules of this model. JavaScript's
    `null` and `undefined` results are written `None`. */
module Wrappers {

  datatype Option<+T> = None | Some(value: T) {

    /** The value, or `default` when there is none. */
    function GetOr(default: T): T {
      match this
      case Some(v) => v
      case None => default
    }
  }
}

/** Small datatypes used by the account model. */
module Wrappers {

  /** A value that may be absent; stands for a nullable model field. */
  datatype Option<+T> = None | Some(value: T) {

    /** The wrapped value, or `default` when there is none. */
    function GetOr(default: T): T {
      match this
      case Some(v) => v
      case None => default
    }
  }

  /** The outcome of a check that produces no value: it passes or fails with an error. */
  datatype Outcome<+E> = Pass | Fail(error: E)
}

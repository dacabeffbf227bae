/** Small value wrappers shared by the modules of this model. */
module Wrappers {

  /** A value that may be missing: a form field not sent, a lookup that found nothing. */
  datatype Option<+T> = None | Some(value: T) {

    /** The wrapped value, or `default` when there is none (Python's `dict.get(key, default)`). */
    function GetOr(default: T): T {
      match this
      case Some(v) => v
      case None => default
    }
  }
}

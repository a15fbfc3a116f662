/** Failure-carrying values used across the model. */
module Wrappers {

  /** A value that may be absent (Python's `None`, or a missing dict key). */
  datatype Option<+T> = None | Some(value: T) {
    function GetOr(default: T): T {
      match this
      case Some(v) => v
      case None => default
    }
  }

  /** The outcome of a Python call that may raise: either the value it returned
      or the text `str(e)` of the exception it raised. */
  datatype Try<+T> = Ok(value: T) | Raised(message: string)

  /** Python's `str(KeyError(key))`: the key between single quotes. */
  function KeyErrorText(key: string): (msg: string)
    ensures |msg| == |key| + 2 && msg[0] == '\'' && msg[|msg| - 1] == '\''
    ensures msg[1..|msg| - 1] == key
  {
    "'" + key + "'"
  }
}

/** Option and Result, plus the failures the application lets escape to its caller. */
module Wrappers {

  /** A JSON field that may be absent from a document. */
  datatype Option<+T> = None | Some(value: T) {
    /** Python's `d.get(key, default)`. */
    function GetOr(default: T): T {
      match this
      case Some(v) => v
      case None => default
    }
  }

  datatype Result<+T, +E> = Ok(value: T) | Err(error: E)

  /** The exceptions the modelled code raises or propagates. */
  datatype Error =
    | RequestFailed            // a `requests` exception or a body that is not JSON; a non-2xx
                               // status only where the caller calls `raise_for_status()`
    | MissingKey(key: string)  // a `KeyError` from indexing a JSON object with `[...]`
}

/** Option and Result, used for Python's `None` returns and its raised exceptions. */
module Wrappers {

  /** A value that may be absent: Python's `Optional[...]`. */
  datatype Option<+T> = None | Some(value: T) {

    /** The value, or `default` when absent: Python's `d.get(key, default)`. */
    function GetOr(default: T): T
    {
      if Some? then value else default
    }
  }

  /** The outcome of a computation that may raise: `Err` carries the exception's name. */
  datatype Result<+T> = Ok(value: T) | Err(error: string)
}

// Option values shared by every module of the model: a nullable Java
// reference, a Python None, an absent JSON field or SQL NULL.
module Wrappers {
  datatype Option<T> = None | Some(value: T)
  {
    /** The wrapped value, or `default` when there is none (Python `x or d`, SQL COALESCE). */
    function GetOr(default: T): T
    {
      match this
      case None => default
      case Some(v) => v
    }
  }
}

/** Optional values and success-or-error results, as used by every other module. */
module Results {

  /** A value that may be absent (a PHP `null`, an unset array key). */
  datatype Option<+T> = None | Some(value: T) {
    function GetOr(default: T): T {
      match this
      case Some(v) => v
      case None => default
    }
  }

  /** The outcome of an operation that either yields a value or fails with an error. */
  datatype Result<+T, +E> = Ok(value: T) | Err(error: E)

  /**
   * A WordPress `WP_Error`: a machine-readable code, a message, and the
   * HTTP status code some errors carry in their data.
   */
  datatype WpError = WpError(code: string, message: string, status: Option<int>)
}

// Optional values and operation outcomes.

module Options {

  datatype Option<+T> = None | Some(value: T) {
    function GetOr(default: T): T {
      match this
      case Some(v) => v
      case None => default
    }
  }

  /** The outcome of a database operation. */
  datatype Result<+T> = Ok(value: T) | Err
}

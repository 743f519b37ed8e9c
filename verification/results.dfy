/** Failure-carrying values shared by every module of the model: an optional
    value (a row that may be missing, a JavaScript `undefined`) and a result
    that is either a value or the error the service would throw. */
module Results {

  datatype Option<+T> = None | Some(value: T) {
    function GetOr(default: T): T {
      match this
      case Some(v) => v
      case None => default
    }
  }

  datatype Result<+T, +E> = Ok(value: T) | Err(error: E)
}

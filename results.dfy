/** Failure-carrying values: `null` returns become `Option`, thrown exceptions become `Result`. */
module Results {

  datatype Option<+T> = None | Some(value: T) {
    function GetOr(default: T): T {
      match this
      case Some(v) => v
      case None => default
    }
  }

  datatype Result<+T, +E> = Success(value: T) | Failure(error: E) {
    function ToOption(): Option<T> {
      match this
      case Success(v) => Some(v)
      case Failure(_) => None
    }
  }

  /** The outcome of an operation that returns nothing on success (`Promise<void>`). */
  datatype Outcome<+E> = Pass | Fail(error: E)
}

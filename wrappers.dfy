/** Option and Result, the two wrappers the model uses. */
module Wrappers {

  /** A value that may be absent: `std::optional` in the source. */
  datatype Option<+T> = None | Some(value: T)

  /** A value or the reason there is none. */
  datatype Result<+R, +E> = Success(value: R) | Failure(error: E) {

    /** Forgets the reason, keeping only whether there is a value. */
    function ToOption(): Option<R> {
      match this
      case Success(v) => Some(v)
      case Failure(_) => None
    }
  }
}

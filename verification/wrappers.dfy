/** Failure-carrying wrappers shared by every module of the model. */
module Wrappers {

  /** Rust's `Option<T>`. */
  datatype Option<+T> = None | Some(value: T)

  /** Rust's `Result<T, E>`. */
  datatype Result<+T, +E> = Ok(value: T) | Err(error: E) {

    /** Rust's `Result::ok`: keep the value, forget the error. */
    function ToOption(): Option<T>
    {
      match this
      case Ok(v) => Some(v)
      case Err(_) => None
    }
  }
}

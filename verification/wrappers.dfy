/** Option and Result datatypes shared by the cipher modules. */
module Wrappers {

  /** An optional value, as Rust's `Option`. */
  datatype Option<+T> = None | Some(value: T) {

    /** This value if present, otherwise `other` (Rust's `or_else`). */
    function OrElse(other: Option<T>): Option<T> {
      match this
      case Some(_) => this
      case None => other
    }
  }

  /** The outcome of a validating constructor. */
  datatype Result<+T, +E> = Success(value: T) | Failure(error: E)
}

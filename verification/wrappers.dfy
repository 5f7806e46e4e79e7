/** The two result shapes the service uses: vavr's `Option` and `Either`. */
module Wrappers {

  /** A value that may be absent (vavr `Option`). */
  datatype Option<+T> = None | Some(value: T)

  /** A failure on the left or a success on the right (vavr `Either`). */
  datatype Either<+L, +R> = Left(left: L) | Right(right: R)
}

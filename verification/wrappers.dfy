/** Wrappers shared by the whole model: `Option` stands for Kotlin's
    nullable references, `Result` for a call that may throw. */
module Wrappers {

  datatype Option<+T> = None | Some(value: T)

  datatype Result<+T, +E> = Success(value: T) | Failure(error: E)
}

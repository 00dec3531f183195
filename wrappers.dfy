/** Option, Result and Outcome: the model's stand-ins for JavaScript's `undefined`,
    for a value-or-error, and for "returned normally" versus "threw". */
module Wrappers {

  datatype Option<+T> = None | Some(value: T)

  datatype Result<+R, +E> = Success(value: R) | Failure(error: E)

  datatype Outcome<+E> = Pass | Fail(error: E)
}

/** Failure-compatible wrappers shared by the model: an optional value and the
    result of an operation that may throw one of the library's exceptions. */
module Wrappers {

  datatype Option<+T> = None | Some(value: T)

  /** The C++ exceptions the modelled operations throw, and undefined
      behaviour, which the model reports instead of choosing an outcome. */
  datatype Error =
    | InvalidArgument   // std::invalid_argument
    | OutOfRange        // std::out_of_range
    | EncodingError     // core::EncodingError
    | ArgumentError     // core::ArgumentError
    | UndefinedBehaviour

  datatype Result<+T> = Ok(value: T) | Err(error: Error) {
    predicate IsFailure() { Err? }

    function PropagateFailure<U>(): Result<U>
      requires Err?
    {
      Err(error)
    }

    function Extract(): T
      requires Ok?
    {
      value
    }
  }
}

/** The error kinds the registry can raise, and the result wrappers that carry them.
    NotValidChoiceError and EmptyFieldError are the project's own exceptions; the others
    are the Python built-in exceptions its code can let escape: ValueError (from int()
    or from an enumeration lookup), IndexError (from list indexing), TypeError (from a
    call with unexpected keyword arguments) and EOFError (from reading past the end of
    the operator's input). */
module Exceptions {

  datatype Error =
    | NotValidChoiceError
    | EmptyFieldError
    | ValueError
    | IndexError
    | TypeError
    | EOFError

  datatype Option<T> = None | Some(value: T)

  datatype Result<T> = Ok(value: T) | Err(error: Error)
}

/** The optional value and the success-or-error value that the cipher's operations return
    where the program returns None or shows an error dialog. */
module Wrappers {

  datatype Option<T> = None | Some(value: T)

  datatype Result<T, E> = Ok(value: T) | Err(error: E)
}

/** Option and the panic outcome used throughout the model. */
module Wrappers {

  datatype Option<+T> = None | Some(value: T)

  /** What an operation that may `panic!` (or `expect` on an error) ends with:
      `Panic` carries the panic message; the state is left as it was at the
      point where the source panics. */
  datatype Outcome = Ok | Panic(message: string)
}

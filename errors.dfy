/** The result vocabulary of the library: the error codes of error.hpp and
    the optional value that the checked operations return. */
module Errors {

  /** safely::errc. Only `Ok` and `Overflow` are ever produced by the
      operations of this model. */
  datatype Errc = Ok | Overflow | DivByZero | Overshift | NegativeShift

  /** std::optional<T>. */
  datatype Option<T> = None | Some(value: T)
}

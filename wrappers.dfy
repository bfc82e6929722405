// Option and Result values shared by every module of the model.
// A C++ `throw` becomes a `Fail` carrying the exception's message, a
// null pointer or `end()` iterator becomes `None`.
module Wrappers {

  datatype Option<T> = None | Some(value: T)
  {
    predicate IsSome() { this.Some? }
  }

  datatype Result<T> = Ok(value: T) | Fail(reason: string)
  {
    predicate IsOk() { this.Ok? }
  }
}

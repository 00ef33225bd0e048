/** Result and option types shared by all modules of the flasher model. */
module Wrappers {

  datatype Option<+T> = None | Some(value: T)
  {
    predicate IsSome() { Some? }
  }

  /** Outcome of an operation that can fail with an error of type E. */
  datatype Result<+T, +E> = Success(value: T) | Failure(error: E)
  {
    predicate IsSuccess() { Success? }
  }
}

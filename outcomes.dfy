/** Outcome types shared by the whole model: the source's
    exceptions and "nothing found" branches become values of these types. */
module Outcomes {

  datatype Option<+T> = None | Some(value: T)

  datatype Result<+T, +E> = Success(value: T) | Failure(error: E)
}

/** Success-or-error results, standing in for the exceptions the solver throws. */
module Outcomes {

  datatype Result<+T, +E> = Ok(value: T) | Err(error: E)

  datatype Option<+T> = None | Some(value: T)
}

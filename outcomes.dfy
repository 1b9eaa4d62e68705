/** The success-or-error result shared by the modules of the model. */
module Outcomes {

  datatype Result<+T, +E> = Ok(value: T) | Err(error: E)
}

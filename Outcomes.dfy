// Optional values and results with an error, used where the modelled code
// returns null or throws.
module Outcomes {

  datatype Option<T> = None | Some(value: T)

  datatype Result<T, E> = Ok(value: T) | Err(error: E)
}

/** Result types shared by the models. */
module Outcomes {
  datatype Option<+T> = None | Some(value: T)

  /** A Go function that either returns or panics. */
  datatype Outcome<+T> = Value(value: T) | Panic
}

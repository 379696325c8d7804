/** Result datatypes shared by the whole model. */
module Outcomes {

  /** An optional value, as Rust's `Option`. */
  datatype Option<+T> = None | Some(value: T)

  /** The outcome of a constructor or setter that validates its arguments with
      `assert!`: either the validated value, or the panic the assertion raises. */
  datatype Checked<+T> = Ok(value: T) | Panic(message: string)

  /** The outcome of a search or a minimisation run. `Panicked` is a failed
      `assert!` inside the run; `OutOfFuel` marks a run that had not returned
      after the number of loop iterations the model allows it (the source
      would keep looping). */
  datatype Outcome<+T> = Returned(value: T) | Panicked | OutOfFuel
}

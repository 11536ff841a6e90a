/** The two result shapes shared by the modules of this project. */
module Wrappers {

  datatype Option<+T> = None | Some(value: T)

  /** What a call that contains an `assert` delivers. `__assert` loops for ever
      (kernel/assertk.cpp:19), so a failed assertion means that the caller never
      gets a result. */
  datatype Outcome<+T> = Halted | Done(value: T)
}

/** Optional values, and computations that may end in a crash of the C program. */
module Wrappers {

  datatype Option<+T> = None | Some(value: T)

  /** How the C program can come to grief: a failed `assert`, a division by zero, a write past the
      end of a variable, or a decision on a variable that was never set. */
  datatype Fault = AssertionFailed | DivideByZero | OutOfBoundsWrite | UninitialisedRead

  datatype Outcome<+T> = Done(value: T) | Crash(fault: Fault)
}

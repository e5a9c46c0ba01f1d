/** Optional values and the ways a pass of the converter can fail to produce text. */
module Outcomes {

  /** A value that may be absent; the script's `None` return of `Buffer.add`. */
  datatype Option<+T> = None | Some(value: T)

  /** The failures the converter can run into. */
  datatype Fault =
    /** An index such as `target[-2]` or `buffer[1]` that is out of range. */
    | IndexOutOfRange
    /** The assertion of `Buffer.match` that the pattern fits the capacity. */
    | AssertionFailed
    /** A `while True` loop that can never reach its `break`. */
    | NonTermination

  /** Either the result of a pass, or the fault that stopped it. */
  datatype Outcome<+T> = Done(value: T) | Failed(fault: Fault)
}

/** Failure-compatible result type shared by every component of the codec.
    The source signals each failure by throwing; here a failing operation
    returns `Err` and the caller propagates it with `:-`. */
module Outcome {

  /** The ways a codec operation fails. */
  datatype Error =
    | OutOfRange                  // a cursor read, write or seek outside the buffer
    | NotSar                      // the container does not start with "sar"
    | InvalidFlag                 // the container flag is neither 0x04 nor 0x84
    | PositiveOffset(offset: int) // a decompressor copy that points forward
    | TypeError                   // a property read on `undefined`

  datatype Result<+T> = Ok(value: T) | Err(error: Error) {

    predicate IsFailure() {
      Err?
    }

    function PropagateFailure<U>(): Result<U>
      requires Err?
    {
      Err(error)
    }

    function Extract(): T
      requires Ok?
    {
      value
    }
  }
}

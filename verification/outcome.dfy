/** Failure-carrying results shared by the encoder modules.

    The Java encoder signals failure by throwing. The model raises three of
    its exceptions, one `Error` variant each; the `NullPointerException` of
    a null zoom-level table has no counterpart, since the model's table is
    never null. */
module Outcome {

  /** A value that may be absent, used by the decoders. */
  datatype Option<+T> = None | Some(value: T)

  /** The exceptions the model raises. */
  datatype Error =
    /** `UnsupportedGeometryTypeException`, with the message it is built with. */
    | UnsupportedGeometryType(message: string)
    /** `ArrayIndexOutOfBoundsException` from reading past the zoom-level table. */
    | IndexOutOfBounds(index: int)
    /** `NegativeArraySizeException` from allocating a table of negative length. */
    | NegativeArraySize(size: int)

  /** Either the value an operation returns or the exception it throws. */
  datatype Result<+T> = Success(value: T) | Failure(error: Error) {

    predicate IsFailure() {
      Failure?
    }

    function PropagateFailure<U>(): Result<U>
      requires Failure?
    {
      Failure(error)
    }

    function Extract(): T
      requires Success?
    {
      value
    }
  }
}

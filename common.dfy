/** Failure-compatible wrappers and the driver's error kinds.

    The driver reports failures with Java exceptions; here each exception the
    core can raise becomes one constructor of `Error`, and an operation that can
    fail returns a `Result`. */
module Common {

  datatype Option<+T> = None | Some(value: T)

  datatype Result<+T, +E> = Success(value: T) | Failure(error: E) {
    predicate IsFailure() { Failure? }

    function PropagateFailure<U>(): Result<U, E>
      requires Failure?
    {
      Failure(error)
    }

    function Extract(): T
      requires Success?
    {
      value
    }
  }

  /** The exceptions of the driver core, by the condition that raises them. */
  datatype Error =
    | InvalidId           // IllegalArgumentException "... is not a valid ID!"
    | NotAttached         // IllegalArgumentException "... is not an attached ID!"
    | EmptyList           // IndexOutOfBoundsException "... list is empty!"
    | IndexOutOfBounds    // a List.get with an index outside the list
    | InvalidArgument     // IllegalArgumentException for an out-of-range argument
    | InvalidIndex        // InvalidIndexError of the module accessors
    | InvalidModule       // the wrapped Exception of setConnectedModules
    | EepromAckFailed     // Exception "EEPROM write acknowledgment failed"
    | NullValue           // NullPointerException: an absent value unboxed, or a null element of List.of
    | ClassCast           // ClassCastException when a value has another type

  type Outcome = Result<(), Error>
}

/** Failure-compatible result types shared by every module of the model.

    The C++ code reports errors by throwing exceptions; each exception
    class the modelled code throws is one constructor of `Error`. */
module Wrappers {

  /** The exception classes thrown by the modelled code. */
  datatype Error =
    | InvalidArgument   // Invalid_Argument, BOTAN_ARG_CHECK
    | InvalidState      // Invalid_State
    | AssertionFailure  // BOTAN_ASSERT / BOTAN_ASSERT_NOMSG (Internal_Error)
    | KeyNotSet         // Key_Not_Set, from assert_key_material_set
    | DecodingError     // Decoding_Error
    | BadRecordMac      // TLS_Exception(Alert::BadRecordMac)

  datatype Option<+T> = None | Some(value: T) {
    predicate IsFailure() { None? }

    function PropagateFailure<U>(): Option<U>
      requires None?
    {
      None
    }

    function Extract(): T
      requires Some?
    {
      value
    }
  }

  /** A value, or the exception that replaced it. */
  datatype Result<+T> = Success(value: T) | Failure(error: Error) {
    predicate IsFailure() { Failure? }

    function PropagateFailure<U>(): Result<U>
      requires Failure?
    {
      Failure(error)
    }

    function Extract(): T
      requires Success?
    {
      value
    }
  }

  /** The outcome of an operation that returns nothing (a `void` function). */
  datatype Outcome = Pass | Fail(error: Error) {
    predicate IsFailure() { Fail? }

    function PropagateFailure(): Outcome
      requires Fail?
    {
      this
    }
  }
}

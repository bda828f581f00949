/** The failures the codec produces, and the result and option types that carry them.
    This is the set of error variants the decoders actually construct; the derive-only
    error enum of the client names a different set. */
module Errors {
  import opened Bytes

  /** The kind of an underlying `std::io::Error`. */
  datatype IoErrorKind =
    | UnexpectedEof            // the stream ended before the bytes a decode needs arrived
    | Transport(code: nat)     // any other transport failure, identified by an opaque code

  datatype ClientError =
    | UVarintOverFlow                    // a varint needs more than 64 bits
    | ReadTimeout                        // one fill attempt did not complete in time
    | IoError(kind: IoErrorKind)         // propagated from the transport
    | FromUtf8Error(bytes: seq<byte>)     // a string payload that is not UTF-8; carries the payload
    | UnknownByte                        // a strict boolean that is neither 0 nor 1

  /** `Result<T, ClickHouseClientError>`; failure-compatible, so `:-` plays the part of `?`. */
  datatype Result<+T> = Ok(value: T) | Err(error: ClientError) {
    predicate IsFailure() {
      Err?
    }

    function PropagateFailure<U>(): Result<U>
      requires Err?
    {
      Err(error)
    }

    function Extract(): T
      requires Ok?
    {
      value
    }
  }

  /** Failure-compatible as well, so that `:-` stops at the first `None`. */
  datatype Option<+T> = None | Some(value: T) {
    predicate IsFailure() {
      None?
    }

    function PropagateFailure<U>(): Option<U>
      requires None?
    {
      None
    }

    function Extract(): T
      requires Some?
    {
      value
    }
  }
}

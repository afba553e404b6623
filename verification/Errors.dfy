/** The crate's typed failures, and the failure-compatible values that carry them. */
module Errors {

  /** The variants of the crate's error type that the modelled code can return. */
  datatype ClientError =
    | InvalidRequestPart(part: string)
    | InvalidPublicKey
    | InvalidSignature
    | RandomSource
    | InvalidTrustAnchor
    | MalformedEnrollmentResponse

  datatype Result<+T> = Ok(value: T) | Err(error: ClientError) {
    predicate IsFailure() {
      Err?
    }

    function PropagateFailure<U>(): Result<U>
      requires Err?
    {
      Err(error)
    }

    function Extract(): T
      requires Ok?
    {
      value
    }
  }

  datatype Option<+T> = None | Some(value: T) {
    predicate IsFailure() {
      None?
    }

    function PropagateFailure<U>(): Option<U>
      requires None?
    {
      None
    }

    function Extract(): T
      requires Some?
    {
      value
    }

    function OkOr(error: ClientError): Result<T> {
      if None? then Err(error) else Ok(value)
    }
  }
}

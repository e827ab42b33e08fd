/** The CTAP2 status codes the modelled code returns (include/swpasskey/status.hpp), and its result type. */
module Statuses {
  datatype Status =
    | InvalidCommand | InvalidParameter | InvalidLength | CborUnexpectedType | InvalidCbor | MissingParameter
    | LimitExceeded | CredentialExcluded | InvalidCredential | UnsupportedAlgorithm | OperationDenied
    | KeyStoreFull | UnsupportedOption | InvalidOption | KeepaliveCancel | NoCredentials | UserActionTimeout
    | NotAllowed | PinInvalid | PinBlocked | PinAuthInvalid | PinNotSet | PuattRequired | PinPolicyViolation
    | UnauthorizedPermission | UnsupportedExtension | Other

  datatype Result<+T> = Success(value: T) | Failure(error: Status) {
    predicate IsFailure() { Failure? }

    function PropagateFailure<U>(): Result<U>
      requires Failure?
    {
      Failure(error)
    }

    function Extract(): T
      requires Success?
    {
      value
    }
  }
}

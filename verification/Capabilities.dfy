/** What a capability call may answer. */
module Capabilities {
  datatype CapabilityError = Fatal | InvalidArgument | PermissionDenied | IllegalOperation | OtherError

  datatype Status = Ok | Err(error: CapabilityError)

  datatype Outcome<+T> = Value(value: T) | Error(error: CapabilityError)
}

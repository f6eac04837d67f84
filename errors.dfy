/** The error kinds the boot-partition detector can raise, an optional value, and a
    failure-compatible result type so that `:-` propagates them unchanged, as the C++ exceptions do. */
module Errors {

  import opened Endian

  datatype Error =
    | NoEfiVars                        // BootCurrent cannot be opened
    | BootOptionUnavailable(index: uint16) // Boot####  cannot be opened
    | Truncated                        // a read found fewer bytes than it asked for
    | Malformed                        // a device-path node declares a length below 4
    | NotInDevicePath                  // the device path holds no usable partition signature
    | PartitionNotFound(partuuid: string) // no block device carries that PARTUUID

  datatype Option<+T> = None | Some(value: T)

  datatype Result<+T> = Ok(value: T) | Err(error: Error) {
    predicate IsFailure() { Err? }

    function PropagateFailure<U>(): Result<U>
      requires Err?
    {
      Err(error)
    }

    function Extract(): T
      requires Ok?
    {
      value
    }
  }
}

/** The error numbers a system call can return, and the shape of its result. */
module Errno {

  datatype ErrNo =
    | BadFileDescriptor
    | TooManyOpenFiles
    | BadAddress
    | InvalidArgument
    | FileDescriptorInBadState
    | NoSuchFileOrDirectory
    | FileExists
    | DeviceOrResourceBusy
    | NotADirectory
    | OperationNotPermitted

  /**
   * `SyscallResult`: `Ok(value)` or an error. Most handlers fail with a named
   * error number; `brk` fails with the raw value -1.
   */
  datatype SyscallResult = Ok(value: int) | Fail(errno: ErrNo) | Raw(code: int)
}

/** The library's error codes and the option type. */
module Types {

  datatype Option<+T> = None | Some(value: T)

  /** The SmpError values the modelled code can produce. `Unspecified` marks a result that the
      C code does not determine from its inputs; no call is allowed to reach it. */
  datatype Error =
    | InvalidParam
    | NoMem
    | BadFd
    | NotSupported
    | Io
    | TooBig
    | OverflowError
    | BadMessage
    | Device(code: int)
    | Unspecified

  datatype Status = Ok | Failed(error: Error)
}

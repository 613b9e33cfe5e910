/** Records shared by the device registry and the session authenticator
    (cmd/types.go, cmd/errors.go), and the outcome types every operation returns. */
module Types {

  /** A device as it is kept in the pending and saved device lists. */
  datatype DeviceInfo = DeviceInfo(name: string, identifier: string)

  /** Go's zero value of DeviceInfo: both fields empty. */
  const ZeroDevice := DeviceInfo("", "")

  /** Time, as an integer count of nanoseconds (Go's time.Duration unit). */
  type Time = int

  const Second: int := 1_000_000_000
  const Minute: int := 60 * Second

  /** A session token: a secret issued to one device, valid while `now < expiredAt`. */
  datatype Token = Token(deviceId: string, secret: string, expiredAt: Time)

  /** The error values the core distinguishes. */
  datatype Error =
    | InvalidFormBody       // ErrInvalidFormBody: identifier or name missing
    | HardwareAddrNotFound  // ErrHardwareAddrNotFound
    | StoreError            // a stored JSON collection could not be read or written
    | SchemeError           // "authorization requires Basic scheme"
    | EncodingError         // "base64 encoding issue"
    | IncompleteHeader      // "authorization header is not completed"
    | RegisterError         // zeroconf.Register failed
    | NilServerPanic        // Shutdown called on a nil *zeroconf.Server

  datatype Option<T> = None | Some(value: T)

  datatype Result<T> = Ok(value: T) | Err(error: Error)

  /** What a Go function that returns only `error` returns. */
  datatype Outcome = Pass | Fail(error: Error)

  /** How the environment answers one read-modify-write of a stored collection:
      whether the read succeeds and whether the write that follows it succeeds. */
  datatype StoreIo = StoreIo(readOk: bool, writeOk: bool) {
    predicate Succeeds() { readOk && writeOk }
  }
}

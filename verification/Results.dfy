/** Outcomes: the exceptions of the Tilt modules as values. */
module Results {

  /** What GET_STATUS reports. */
  datatype ShadeStatus = ShadeStatus(rawPosition: nat, battery: nat, charge: nat, calibrated: bool)

  datatype Error =
    | Protocol                               // TiltProtocolError
    | UnsafeCommand                          // UnsafeCommandError
    | Authentication                         // AuthenticationError
    | Ble                                    // TiltBleError
    | BleTimeout                             // TiltBleTimeout
    | AmbiguousWrite                         // AmbiguousPositionWrite
    | VerificationPending(seen: ShadeStatus) // PositionVerificationPending
    | Cleanup                                // TiltBleCleanupError
    | Transport                              // BleakError
    | Timeout                                // TimeoutError
    | Cancelled                              // CancelledError
    | Other                                  // any other exception

  datatype Option<+T> = None | Some(value: T)

  datatype Result<+T> = Ok(value: T) | Err(error: Error) {
    predicate IsFailure() {
      Err?
    }

    function PropagateFailure<U>(): Result<U>
      requires Err?
    {
      Err(error)
    }

    function Extract(): T
      requires Ok?
    {
      value
    }
  }

  /** What anything below the client can raise: only a client judges a movement. */
  type Fault = e: Error | !e.VerificationPending? && !e.AmbiguousWrite? witness Ble

  type Attempt<+T> =
    r: Result<T> | r.Ok? || (!r.error.VerificationPending? && !r.error.AmbiguousWrite?) witness Err(Ble)
}

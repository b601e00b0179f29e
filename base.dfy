/** Value types shared by the XDP attach model: machine integers, Go's
    error-or-value returns, and the errors attach.go can report. */
module Base {

  /** A byte of a Go `[]byte` or `string`. */
  newtype byte = x: int | 0 <= x < 256

  /** A Go `uint32`. */
  newtype u32 = x: int | 0 <= x < 0x1_0000_0000

  /** Go's conversion `uint32(x)` of a signed integer: keeps the low 32 bits.
      Dafny's `%` is Euclidean, so this is also right for negative `x`. */
  function ToU32(x: int): (r: u32)
    ensures 0 <= x < 0x1_0000_0000 ==> r as int == x
    ensures (r as int - x) % 0x1_0000_0000 == 0
  {
    (x % 0x1_0000_0000) as u32
  }

  /** A network interface name, as the bytes of the Go string. */
  type Iface = seq<byte>

  datatype Option<T> = None | Some(value: T)

  /** The value of a Go `(value, error)` pair, or None when the error is set. */
  function ValueOf<T>(r: Result<T>): Option<T>
  {
    if r.Ok? then Some(r.value) else None
  }

  /** What attach.go and the primitives it calls can report in a Go `error`.
      `Sys` is any error returned by a loader, kernel or record-store
      primitive; the others are the errors attach.go builds itself, with the
      cause attach.go wraps with `%w` (None where it wraps a nil error). */
  datatype Error =
    | Sys
    | ProgramIDUnavailable(iface: Iface, cause: Error)
    | GetAttachedIDFailed(cause: Error)
    | ConfigureFailed(cause: Error)
    | PinFailed(mapName: string, cause: Error)
    | LoadFailed(cause: Error)
    | AttachFailed(program: string, iface: Iface)
    | ProgramMismatch(wrapped: Option<Error>)
    | RemoveFailed(progID: int)
    | ForgetFailed(cause: Error)
    | JumpMapUpdateFailed(program: string, index: int, cause: Error)

  /** A Go `(value, error)` pair: `Ok(v)` when the error is nil. */
  datatype Result<T> = Ok(value: T) | Err(error: Error)

  /** A lone Go `error`: `Pass` when it is nil. */
  datatype Outcome = Pass | Fail(error: Error)
}

/** Go `error` values as this core produces and compares them. `Nil` is Go's
    nil error; `Errno(0)` is the raw "no error" value a bare ptrace syscall
    returns, which is a different value from `Nil` and must be normalised. */
module Errors {

  /** `Wrapped` is an fmt.Errorf that quotes another error, `StopFailed` the
      "stop err ... on thread ..." one that also names the thread; `IndexOutOfRange`
      stands for a Go run-time panic on a slice or index expression, which the
      model returns as a value. */
  datatype Error =
    | Nil
    | Errno(code: int)
    | ProcessExited(pid: int, status: int)
    | UnknownRegister(reg: int)
    | DecodeFailed
    | Message(text: string)
    | Wrapped(context: string, inner: Error)
    | StopFailed(inner: Error, tid: int)
    | IndexOutOfRange

  datatype Option<T> = None | Some(value: T)

  datatype Result<T> = Ok(value: T) | Err(error: Error)

  const ESRCH: int := 3
  const EIO: int := 5
  const ENODEV: int := 19

  /** The `if err == syscall.Errno(0) { err = nil }` step that follows the raw
      ptrace syscalls of registers_linux_arm.go and threads_linux_arm.go. */
  function Normalise(e: Error): (r: Error)
    ensures r != Errno(0)
    ensures e != Errno(0) ==> r == e
  {
    if e == Errno(0) then Nil else e
  }

  /** The result of a raw syscall that reported errno `code`, normalised. */
  function SyscallErr(code: int): (r: Error)
    ensures r == Nil <==> code == 0
    ensures code != 0 ==> r == Errno(code)
  {
    Normalise(Errno(code))
  }
}

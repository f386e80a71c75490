/** Machine words, the error numbers the drivers return, and the option type shared by the models. */
module Words {
  const WORD32: int := 0x1_0000_0000

  type u32 = x: int | 0 <= x < 0x1_0000_0000
  type u16 = x: int | 0 <= x < 0x1_0000
  type byte = x: int | 0 <= x < 0x100

  /** Unsigned 32-bit subtraction, with the wrap-around of C. */
  function Sub32(a: u32, b: u32): u32 {
    if a >= b then a - b else a - b + WORD32
  }

  /** Unsigned 32-bit addition, with the wrap-around of C. */
  function Add32(a: u32, b: u32): u32 {
    if a + b < WORD32 then a + b else a + b - WORD32
  }

  function Min(a: int, b: int): int {
    if a <= b then a else b
  }

  function Max(a: int, b: int): int {
    if a >= b then a else b
  }

  datatype Option<+T> = None | Some(value: T)

  /** The return value of a driver call: 0 or a negative error number. */
  datatype Errno =
    | Success
    | EINVAL
    | ENOTSUP
    | EFAULT
    | EAGAIN
    | EIO
    | EBUSY
    | ENOSPC
    | ENOBUFS
    | ENXIO
    | ENETDOWN
    | ENETUNREACH
    | ETIMEDOUT
}

/** Word sizes and error numbers that several platforms share (errno.h, stdint.h). */
module Platform {

  const T16: int := 0x1_0000
  const T32: int := 0x1_0000_0000

  const EIO: int := 5
  const EAGAIN: int := 11
  const EINVAL: int := 22
  const ENOSPC: int := 28
  const ENODATA: int := 61

  /** Conversion to uint16_t. */
  function U16(x: int): (w: int)
    ensures 0 <= x < T16 ==> w == x
  {
    x % T16
  }
}

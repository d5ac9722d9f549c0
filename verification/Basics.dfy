/** Small shared types and constants. */
module Basics {

  /** A value that a lookup may fail to find (a C pointer that may be NULL). */
  datatype Option<+T> = None | Some(value: T)
  {
    function GetOr(default: T): T {
      match this
      case Some(v) => v
      case None => default
    }
  }

  // error numbers
  const ENOENT := 2
  const EIO := 5
  const E2BIG := 7
  const EBADF := 9
  const ENOMEM := 12
  const EFAULT := 14
  const EINVAL := 22
  const ENOSPC := 28
  const EALREADY := 114

  type Byte = x: int | 0 <= x < 0x100
  type U16 = x: int | 0 <= x < 0x1_0000
  type U32 = x: int | 0 <= x < 0x1_0000_0000
  type U64 = x: int | 0 <= x < 0x1_0000_0000_0000_0000
}

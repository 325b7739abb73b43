/** Types and machine-integer conversions that every component uses. */
module Basics {

  type byte = d: int | 0 <= d < 256

  datatype Option<+T> = None | Some(value: T)

  const UINT16: nat := 0x1_0000
  const UINT32: nat := 0x1_0000_0000

  type uint16 = n: nat | n < 0x1_0000
  type uint32 = n: nat | n < 0x1_0000_0000

  function Abs(x: int): nat { if x < 0 then -x else x }

  /** The conversion to a signed 32-bit integer. */
  function ToInt32(x: int): int { (x + 0x8000_0000) % 0x1_0000_0000 - 0x8000_0000 }
}

/** Fixed-width integers of the x86-64 target and the result type shared by the kernel modules. */
module Machine {

  const TWO_TO_16: int := 0x1_0000
  const TWO_TO_31: int := 0x8000_0000
  const TWO_TO_32: int := 0x1_0000_0000
  const TWO_TO_64: int := 0x1_0000_0000_0000_0000

  // Subset types: every value stored in a variable of one of these types is proved to fit it,
  // so arithmetic on them cannot wrap unless a `%` says so.
  type uint8 = x: int | 0 <= x < 0x100
  type uint16 = x: int | 0 <= x < TWO_TO_16
  type uint32 = x: int | 0 <= x < TWO_TO_32
  type uint64 = x: int | 0 <= x < TWO_TO_64
  type int8 = x: int | -0x80 <= x < 0x80
  type int32 = x: int | -TWO_TO_31 <= x < TWO_TO_31

  datatype Option<+T> = None | Some(value: T)

  // The outcomes of kernel/error.hpp that the memory path produces.
  datatype Error = Success | NoEnoughMemory

  /** The value an 8-bit signed char keeps of `x`. */
  function ToInt8(x: int): int8 {
    if x % 0x100 < 0x80 then x % 0x100 else x % 0x100 - 0x100
  }

  /** The value a 32-bit signed int keeps of `x`. */
  function ToInt32(x: int): int32 {
    if x % TWO_TO_32 < TWO_TO_31 then x % TWO_TO_32 else x % TWO_TO_32 - TWO_TO_32
  }
}

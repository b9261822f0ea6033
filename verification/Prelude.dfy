/** Number types and the optional value shared by every module. */
module Prelude {

  type byte = b: int | 0 <= b < 0x100
  type u16 = n: int | 0 <= n < 0x1_0000
  type u32 = n: int | 0 <= n < 0x1_0000_0000
  type u64 = n: int | 0 <= n < 0x1_0000_0000_0000_0000

  datatype Option<+T> = None | Some(value: T)

  /** `Vec::len` and slice indices: a Rust allocation never exceeds `isize::MAX` bytes. */
  const ISIZE_MAX: nat := 0x7fff_ffff_ffff_ffff

  /** Bit `k` of a byte, counted from the least significant one. */
  predicate Bit(b: byte, k: nat)
    requires k < 8
  {
    match k
    case 0 => b % 2 == 1
    case 1 => b / 2 % 2 == 1
    case 2 => b / 4 % 2 == 1
    case 3 => b / 8 % 2 == 1
    case 4 => b / 16 % 2 == 1
    case 5 => b / 32 % 2 == 1
    case 6 => b / 64 % 2 == 1
    case 7 => b / 128 == 1
  }
}

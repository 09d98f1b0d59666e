/** The C type `unsigned long long` of the program, 64 bits wide. */
module Word {

  /** 2^64, the modulus of unsigned 64-bit arithmetic. */
  const TWO_64: nat := 0x1_0000_0000_0000_0000

  /** ULLONG_MAX from <limits.h>. */
  const ULLONG_MAX: nat := 0xFFFF_FFFF_FFFF_FFFF

  /** An `unsigned long long`: every arithmetic step on it is checked to stay in range. */
  newtype u64 = x: int | 0 <= x < 0x1_0000_0000_0000_0000
}

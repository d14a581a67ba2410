/** The unsigned and signed machine integers, and the addresses of the contracts' host. */
module Integers {
  type u32 = x: int | 0 <= x < 0x1_0000_0000
  type u64 = x: int | 0 <= x < 0x1_0000_0000_0000_0000

  const U32_MAX: nat := 0xFFFF_FFFF
  const U64_MAX: nat := 0xFFFF_FFFF_FFFF_FFFF
  const I128_LIMIT: nat := 0x8000_0000_0000_0000_0000_0000_0000_0000

  type i128 = x: int | 0 <= x + I128_LIMIT && x < I128_LIMIT

  /** Machine words whose every operation must stay within their width. */
  newtype word32 = x: int | 0 <= x < 0x1_0000_0000
  newtype word64 = x: int | 0 <= x < 0x1_0000_0000_0000_0000
  newtype word128 = x: int | 0 <= x < 0x1_0000_0000_0000_0000_0000_0000_0000_0000

  datatype Address = Address(id: nat)
}

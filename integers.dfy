/** The unsigned integer widths of the C++ source, and `std::min` on naturals. */
module Integers {

  /** One more than the largest `uint32`. */
  const U32: nat := 0x1_0000_0000

  /** One more than the largest `uint64`. */
  const U64: nat := 0x1_0000_0000_0000_0000

  function Min(a: nat, b: nat): nat
  {
    if a <= b then a else b
  }
}

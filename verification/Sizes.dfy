/** The width of size_t. */
module Sizes {
  const SIZE_WRAP: nat := 0x1_0000_0000_0000_0000
}

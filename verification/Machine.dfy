/** The numbers every part of the kernel shares. */
module Machine {
  type Byte = x: int | 0 <= x < 256

  /** PAGE_SIZE and KERNEL_VIRTUAL_ADDRESS_BASE. */
  const PAGE := 4096
  const BASE := 0xC000_0000

  /** One more than the largest number of 32 and of 64 bits. */
  const U32 := 0x1_0000_0000
  const U64 := 0x1_0000_0000_0000_0000
}

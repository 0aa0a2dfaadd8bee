/** Pages, 64-bit words, and the fixed addresses of a thread's address space. */
module MemoryMap {
  const PAGE: nat := 0x1000
  const WORD: nat := 0x1_0000_0000_0000_0000

  const DEVICE: nat := 0x3C00_0000
  const DEVICE_SIZE: nat := 0x300_0000
  const SIGNAL: nat := 0xffff_ffff_9000
  const SIGNAL_SIZE: nat := 0x2000
  const STACK: nat := 0xffff_ffff_b000
  const STACK_SIZE: nat := 0x4000

  /** Rounding up to whole pages, in 64-bit arithmetic. */
  function RoundUp(n: nat): nat {
    if n % PAGE != 0 then (n + (PAGE - n % PAGE)) % WORD else n
  }
}

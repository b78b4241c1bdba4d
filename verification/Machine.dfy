/** The target is a 32-bit machine: what its bytes and words can hold. */
module Machine {
  const WORD: int := 0x1_0000_0000

  type byte = x: int | 0 <= x < 256
  type u32 = x: int | 0 <= x < WORD
}

/** Machine integers of the 32-bit target. */
module Words {
  type byte = b: int | 0 <= b < 256 witness 0

  type Short = w: int | 0 <= w < 0x1_0000 witness 0

  /** 2 to the 32nd: unsigned long arithmetic is modulo this. */
  const WORD: nat := 0x1_0000_0000
}

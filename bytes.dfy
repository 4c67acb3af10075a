/** Machine integer types of the two programs, as ranges of mathematical integers. */
module Bytes {

  /** `unsigned char` */
  type byte = b: int | 0 <= b < 0x100

  /** `unsigned short` on the host, `unsigned int` (16 bits) on the Spectrum */
  type u16 = x: int | 0 <= x < 0x1_0000

  /** `unsigned int` on the host */
  type u32 = x: int | 0 <= x < 0x1_0000_0000

  function Min(a: int, b: int): int { if a > b then b else a }

  function Abs(a: int): nat { if a < 0 then -a else a }

  function Pow2(n: nat): nat { if n == 0 then 1 else 2 * Pow2(n - 1) }
}

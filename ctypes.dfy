// Fixed-width integers of the game's C source as compiled by DJGPP:
// `unsigned char` (the `byte` typedef) and 32-bit `int`. Declaring the
// game's variables with these types makes every store into them checked.
module CTypes {

  /** `unsigned char`, the `byte` typedef of VGAMEM.C */
  newtype byte = x: int | 0 <= x < 0x100

  /** `int` under DJGPP (32 bits) */
  newtype int32 = x: int | -0x8000_0000 <= x < 0x8000_0000

  /** Storing an `int` (the result of `getch()`) into a `byte` variable:
      C's conversion to an unsigned type keeps the value modulo 256. */
  function Truncate(raw: int): (b: byte)
    ensures 0 <= raw < 0x100 ==> b as int == raw
    ensures (raw - b as int) % 0x100 == 0
  {
    (raw % 0x100) as byte
  }
}

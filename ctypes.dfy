/** The C integer types the simulator uses, and the conversions between them. */
module CTypes {
  /** `int` on the platform the program targets: 32-bit two's complement. */
  type int32 = x: int | -0x8000_0000 <= x < 0x8000_0000

  /** `unsigned char`: the type of TLB fields and of the free-frame cursor. */
  type byte = x: int | 0 <= x < 0x100

  /** `signed char`: the type of a byte of physical memory and of the backing store. */
  type int8 = x: int | -0x80 <= x < 0x80

  /** Conversion of an `int` to `unsigned char`: C keeps the value modulo 256. */
  function ToUnsignedChar(x: int): (r: byte)
    ensures (x - r) % 0x100 == 0
    ensures 0 <= x < 0x100 ==> r == x
  {
    x % 0x100
  }

  /** Values 256 apart collapse onto the same byte. */
  lemma ToUnsignedCharAliases(x: int)
    ensures ToUnsignedChar(x + 0x100) == ToUnsignedChar(x)
  {
  }
}

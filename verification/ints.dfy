/** Fixed-width integers of the driver, as subset types of `int`, and the
    conversion of a Go `int` to a C `int`. */
module Ints {
  import opened Arith

  const TWO_8: int := 0x100
  const TWO_16: int := 0x1_0000
  const TWO_24: int := 0x100_0000
  const TWO_31: int := 0x8000_0000
  const TWO_32: int := 0x1_0000_0000
  const TWO_64: int := 0x1_0000_0000_0000_0000

  /** C `uint8_t` */
  type byte = x: int | 0 <= x < TWO_8
  /** C `uint16_t` */
  type u16 = x: int | 0 <= x < TWO_16
  /** C `uint32_t` / Go `uint32` */
  type u32 = x: int | 0 <= x < TWO_32
  /** C `uint64_t` */
  type u64 = x: int | 0 <= x < TWO_64
  /** C `int`, 32 bits wide on the driver's targets */
  type i32 = x: int | -TWO_31 <= x < TWO_31

  /** Go's conversion `C.int(x)`: the low 32 bits of `x`, read in two's
      complement. The result is the only `int32` value congruent to `x`
      modulo 2^32, so values already in range are kept. */
  function CInt(x: int): (r: i32)
    ensures (r - x) % TWO_32 == 0
    ensures -TWO_31 <= x < TWO_31 ==> r == x
  {
    var low := x % TWO_32;
    ModShift(0, -(x / TWO_32), TWO_32);
    ModShift(0, -(x / TWO_32) - 1, TWO_32);
    if low >= TWO_31 then low - TWO_32 else low
  }

  /** No other `int32` value is congruent to `x` modulo 2^32. */
  lemma CIntUnique(x: int, y: i32)
    requires (y - x) % TWO_32 == 0
    ensures y == CInt(x)
  {
    var r := CInt(x);
    var d := y - r;
    ModShift(y - x, -((r - x) / TWO_32), TWO_32);
    assert d == (y - x) + (-((r - x) / TWO_32)) * TWO_32;
    DivUnique(d + TWO_32, TWO_32, d / TWO_32 + 1, 0);
  }
}

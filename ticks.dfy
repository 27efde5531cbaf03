/** Fixed-width integers of the C source and the timing thresholds of z_btnmgr.h. */
module Ticks {

  const TWO_32: int := 0x1_0000_0000

  /** uint8_t */
  type u8 = x: int | 0 <= x < 0x100

  /** uint32_t, the width of the tick counter and of every timer field */
  type u32 = x: int | 0 <= x < 0x1_0000_0000

  /** `a + b` on uint32_t: wraps modulo 2^32 */
  function Add32(a: u32, b: u32): (r: u32)
    ensures a + b < TWO_32 ==> r == a + b
    ensures a + b >= TWO_32 ==> r == a + b - TWO_32
  {
    (a + b) % TWO_32
  }

  /** `a - b` on uint32_t: wraps modulo 2^32 */
  function Sub32(a: u32, b: u32): (r: u32)
    ensures b <= a ==> r == a - b
    ensures a < b ==> r == a - b + TWO_32
  {
    (a - b) % TWO_32
  }

  /** `x++` on uint8_t: wraps from 255 to 0 */
  function Inc8(x: u8): (r: u8)
    ensures x < 0xFF ==> r == x + 1
    ensures x == 0xFF ==> r == 0
  {
    (x + 1) % 0x100
  }

  /** Z_BTNMGR_SHORTTIME_ACTIVE: debounce window */
  const SHORT: u32 := 20
  /** Z_BTNMGR_LONGTIME_ACTIVE: hold time that makes a press a long press */
  const LONG: u32 := 1300
  /** Z_BTNMGR_LONGTIME_PEER: repeat period while a long press is held */
  const PEER: u32 := 100
  /** Z_BTNMGR_DOUBLECLICK_ACTIVE: declared, used by no transition */
  const DOUBLECLICK: u32 := 300

  /** The thresholds are ordered, and PEER is a valid modulus. */
  lemma ThresholdsOrdered()
    ensures 0 < SHORT < PEER < LONG < TWO_32
    ensures LONG % PEER == 0
  {
  }
}

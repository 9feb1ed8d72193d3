/**
 * Rust's fixed-width unsigned integers, and the handful of operations on them
 * that the NTP64 timestamp uses, written over Dafny's unbounded integers.
 *
 * Arithmetic overflow follows a release build: `+`, `-` and `*` on `u64` wrap
 * around modulo 2^64. The contracts say exactly when the exact result fits, which
 * is also exactly when a debug build would not panic.
 *
 * The bit operations the timestamp needs are the ones with a fixed 32-bit
 * amount, given by their arithmetic meaning: `x >> 32` is `x / 2^32`,
 * `x << 32` is `x * 2^32` with the bits above bit 63 dropped, `x & 0xFFFF_FFFF`
 * keeps the remainder modulo 2^32, and `as u32` truncates to the low 32 bits.
 */
module Machine {

  const TWO_32: int := 0x1_0000_0000
  const TWO_64: int := 0x1_0000_0000_0000_0000

  type u32 = x: int | 0 <= x < TWO_32
  type u64 = x: int | 0 <= x < TWO_64

  /** The outcome of an operation that may panic (an `assert!`, an overflow check). */
  datatype Checked<T> = Returns(value: T) | Panics

  /** `a + b` on `u64`. */
  function WrappingAdd(a: u64, b: u64): (r: u64)
    ensures a + b < TWO_64 ==> r == a + b
    ensures a + b >= TWO_64 ==> r == a + b - TWO_64
  {
    (a + b) % TWO_64
  }

  /** `a - b` on `u64`. */
  function WrappingSub(a: u64, b: u64): (r: u64)
    ensures b <= a ==> r == a - b
    ensures a < b ==> r == a - b + TWO_64
  {
    (a - b) % TWO_64
  }

  /** `a * b` on `u64`. */
  function WrappingMul(a: u64, b: u64): (r: u64)
    ensures a * b < TWO_64 ==> r == a * b
    ensures (a * b - r) % TWO_64 == 0
  {
    (a * b) % TWO_64
  }

  /** `x >> 32` on `u64`: the high half. */
  function Shr32(x: u64): (r: u32)
    ensures r * TWO_32 <= x < (r + 1) * TWO_32
  {
    x / TWO_32
  }

  /** `x << 32` on `u64`: the low half moved up, the high half shifted out. */
  function Shl32(x: u64): (r: u64)
    ensures x < TWO_32 ==> r == x * TWO_32
    ensures r % TWO_32 == 0
  {
    (x % TWO_32) * TWO_32
  }

  /** `x & 0xFFFF_FFFF` on `u64`: the low half. */
  function LowHalf(x: u64): (r: u32)
    ensures (x - r) % TWO_32 == 0
  {
    x % TWO_32
  }

  /** `x as u32`: truncation to the low 32 bits. */
  function AsU32(x: u64): (r: u32)
    ensures x < TWO_32 ==> r == x
    ensures (x - r) % TWO_32 == 0
  {
    x % TWO_32
  }
}

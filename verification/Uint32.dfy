/** Unsigned 32-bit arithmetic as the firmware's `uint32_t` performs it:
    every result is taken modulo 2^32. Millisecond timestamps, elapsed
    times and the stored durations all live in this type. */
module Uint32 {

  const Modulus: int := 0x1_0000_0000

  newtype U32 = x: int | 0 <= x < 0x1_0000_0000

  /** `a - b` on `uint32_t`: wraps around when `b` is larger than `a`. */
  function Sub(a: U32, b: U32): (r: U32)
    ensures a >= b ==> r as int == a as int - b as int
    ensures a < b ==> r as int == a as int - b as int + Modulus
  {
    ((a as int - b as int) % Modulus) as U32
  }

  /** `a + b` on `uint32_t`: wraps around on overflow. */
  function Add(a: U32, b: U32): (r: U32)
    ensures a as int + b as int < Modulus ==> r as int == a as int + b as int
    ensures a as int + b as int >= Modulus ==> r as int == a as int + b as int - Modulus
  {
    ((a as int + b as int) % Modulus) as U32
  }

  /** Wrapping subtraction undoes wrapping addition: the elapsed time
      `now - start` added back to `start` gives `now` again, even when the
      clock wrapped once in between. */
  lemma AddSubRoundTrip(start: U32, now: U32)
    ensures Add(start, Sub(now, start)) == now
  {
  }

  /** The reverse direction: a duration added to a start time and then
      measured from that start time is the duration itself. */
  lemma SubAddRoundTrip(start: U32, d: U32)
    ensures Sub(Add(start, d), start) == d
  {
  }
}

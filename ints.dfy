/** Fixed-width machine integers used by the sequencer, with the wrap-around
    and casts of C++ unsigned and signed arithmetic written out. */
module Ints {
  const TWO_32: int := 0x1_0000_0000
  const TWO_64: int := 0x1_0000_0000_0000_0000
  const TWO_31: int := 0x8000_0000

  /** `unsigned`, `uint32_t`, `jack_nframes_t` */
  type uint32 = x: int | 0 <= x < TWO_32
  /** `uint64_t` */
  type uint64 = x: int | 0 <= x < TWO_64
  /** `int` */
  type int32 = x: int | -TWO_31 <= x < TWO_31

  /** Unsigned 32-bit addition: the sum modulo 2^32. */
  function Add32(a: uint32, b: uint32): (r: uint32)
    ensures a + b < TWO_32 ==> r == a + b
    ensures a + b >= TWO_32 ==> r == a + b - TWO_32
  {
    (a + b) % TWO_32
  }

  /** The C++ conversion `(int)n` of a size: two's complement wrap-around. */
  function Int32Cast(n: nat): (r: int32)
    ensures n < TWO_31 ==> r == n
    ensures r % TWO_32 == n % TWO_32
  {
    var m := n % TWO_32;
    if m < TWO_31 then m else m - TWO_32
  }
}

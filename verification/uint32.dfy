/** C's 32-bit unsigned int: values and arithmetic modulo 2^32. */
module Uint32 {

  const TwoTo32: nat := 0x1_0000_0000

  /** The result of an unsigned int operation whose exact value is x. */
  function Wrap(x: int): (r: nat)
    ensures r < TwoTo32
    ensures 0 <= x < TwoTo32 ==> r == x
  {
    x % TwoTo32
  }
}

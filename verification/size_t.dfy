/** The C `size_t` arithmetic the heap loops rely on: an unsigned 64-bit
    subtraction wraps around, so `n / 2 - 1` is SIZE_MAX when `n / 2 == 0`,
    and a count-down loop `for (i = k - 1; i < k; i--)` ends when `i` wraps. */
module SizeT {
  const SIZE_MODULUS: nat := 0x1_0000_0000_0000_0000
  const SIZE_MAX: nat := SIZE_MODULUS - 1

  /** `a - b` on size_t. */
  function Sub(a: nat, b: nat): (r: nat)
    requires a < SIZE_MODULUS && b < SIZE_MODULUS
    ensures r < SIZE_MODULUS
    ensures b <= a ==> r == a - b
    ensures a < b ==> r == SIZE_MODULUS + a - b
  {
    if b <= a then a - b else SIZE_MODULUS + a - b
  }
}

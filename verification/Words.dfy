/** Machine words shared by every part of the model: bytes and 32-bit wrap-around. */
module Words {
  const U32: nat := 0x1_0000_0000

  type u32 = x: nat | x < 0x1_0000_0000
  newtype byte = x: int | 0 <= x < 256

  /** The value a C `u32` holds after an operation whose exact result is `x`. */
  function Wrap(x: int): (r: u32) {
    x % 0x1_0000_0000
  }

  lemma WrapSmall(x: int)
    requires 0 <= x < U32
    ensures Wrap(x) == x
  {
  }

  /** A whole number of 32-bit words. */
  predicate Aligned(n: nat) {
    n % 4 == 0
  }

  lemma AlignedMul(k: nat, n: nat)
    requires Aligned(n)
    ensures Aligned(k * n)
  {
    assert k * n == (k * (n / 4)) * 4;
  }

  lemma AlignedSub(n: nat, m: nat)
    requires Aligned(n) && Aligned(m) && m <= n
    ensures Aligned(n - m)
  {
  }

  lemma WrapAligned(x: int)
    requires x % 4 == 0
    ensures Aligned(Wrap(x))
  {
  }
}

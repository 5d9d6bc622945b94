/** The 32-bit unsigned integers that the library works on. */
module Words {
  const WORD: int := 0x1_0000_0000

  type uint32 = x: int | 0 <= x < 0x1_0000_0000

  /** What a 32-bit register holds after an operation whose exact result is `x`. */
  function Wrap(x: int): uint32 {
    x % WORD
  }

  /** Adding multiples of 2^32 changes nothing: together with WrapFits, this is all there is to it. */
  lemma WrapAround(x: int, k: int)
    ensures Wrap(x + k * 0x1_0000_0000) == Wrap(x)
  {
    var q, r := x / WORD, x % WORD;
    assert x + k * WORD == (q + k) * WORD + r;
  }

  lemma WrapFits(x: int)
    requires 0 <= x < WORD
    ensures Wrap(x) == x
  {
  }
}

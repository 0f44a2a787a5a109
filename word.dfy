/** Machine words of a 64-bit target: `std::uintptr_t`/`std::size_t` and
    `std::intptr_t`/`std::ptrdiff_t`, with their wrap-around written out. */
module Word {

  /** 2^64: the number of distinct `uintptr_t` values. */
  const W: int := 0x1_0000_0000_0000_0000

  /** 2^63: the bound of `intptr_t`. */
  const HalfW: int := 0x8000_0000_0000_0000

  /** The largest `uintptr_t`, `std::numeric_limits<std::uintptr_t>::max()`. */
  const MaxWord: int := W - 1

  type u64 = x: int | 0 <= x < W
  type i64 = x: int | -HalfW <= x < HalfW

  /** Unsigned 64-bit wrap-around of an exact result. */
  function Wrap(x: int): (r: u64)
    ensures (r - x) % W == 0
    ensures 0 <= x < W ==> r == x
  {
    x % W
  }

  /** `static_cast<intptr_t>` of a `uintptr_t`: two's-complement reading. */
  function ToSigned(x: u64): (r: i64)
    ensures r == x || r == x - W
    ensures Wrap(r) == x
  {
    if x < HalfW then x else x - W
  }

  /** Two wrapped values that are congruent modulo 2^64 are equal. */
  lemma WrapCongruent(x: int, y: int)
    requires (x - y) % W == 0
    ensures Wrap(x) == Wrap(y)
  {
    var k := (x - y) / W;
    assert x == y + k * W;
    assert (y + k * W) % W == y % W;
  }
}

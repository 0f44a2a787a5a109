/** The address value `mem::pointer`: one `uintptr_t` with arithmetic that
    never faults (it wraps modulo 2^64), comparisons on the stored integer,
    null tests and the null-propagating combinators. */
module Mem {
  import opened Word

  datatype Pointer = Pointer(value: u64) {

    /** `add(count)` and `operator+(count)`: the sum, wrapped at most once. */
    function Add(count: u64): (r: Pointer)
      ensures value + count < W ==> r.value == value + count
      ensures value + count >= W ==> r.value == value + count - W
    {
      Pointer(Wrap(value + count))
    }

    /** `sub(count)` and `operator-(count)`: the difference, wrapped at most once. */
    function Sub(count: u64): (r: Pointer)
      ensures count <= value ==> r.value == value - count
      ensures count > value ==> r.value == value - count + W
    {
      Pointer(Wrap(value - count))
    }

    /** `offset(count)`: a signed displacement, computed in `intptr_t`. */
    function Offset(count: i64): (r: Pointer)
      ensures 0 <= value + count < W ==> r.value == value + count
      ensures value + count < 0 ==> r.value == value + count + W
      ensures value + count >= W ==> r.value == value + count - W
    {
      Pointer(Wrap(ToSigned(value) + count))
    }

    /** `shift(from, to)`: move this address from one base to another. */
    function Shift(from: Pointer, to: Pointer): (r: Pointer)
      ensures (r.value - to.value) % W == (value - from.value) % W
    {
      Pointer(Wrap(Wrap(value - from.value) + to.value))
    }

    /** `align_up(align)`: when `value + align - 1` does not overflow, the least
        multiple of `align` that is at least `value`. */
    function AlignUp(align: u64): (r: Pointer)
      requires align > 0
      ensures value + align - 1 < W ==>
        r.value % align == 0 && value <= r.value && r.value - value < align
    {
      var sum := Wrap(value + align - 1);
      var q := sum / align;
      DivBounds(sum, align);
      MultipleMod(q, align);
      Pointer(Wrap(q * align))
    }

    /** `align_down(align)`: the greatest multiple of `align` that is at most `value`. */
    function AlignDown(align: u64): (r: Pointer)
      requires align > 0
      ensures r.value % align == 0 && r.value <= value && value - r.value < align
    {
      DivBounds(value, align);
      MultipleMod(value / align, align);
      Pointer(value - value % align)
    }

    /** `operator-(pointer)`: the signed distance in `intptr_t`; exact whenever
        the true distance fits in `intptr_t`. */
    function Diff(rhs: Pointer): (r: i64)
      ensures -HalfW <= value - rhs.value < HalfW ==> r == value - rhs.value
      ensures rhs.Add(Wrap(r)) == this
    {
      ToSigned(Wrap(ToSigned(value) - ToSigned(rhs.value)))
    }

    predicate Eq(rhs: Pointer) { value == rhs.value }
    predicate Ne(rhs: Pointer) { value != rhs.value }
    predicate Lt(rhs: Pointer) { value < rhs.value }
    predicate Gt(rhs: Pointer) { value > rhs.value }
    predicate Le(rhs: Pointer) { value <= rhs.value }
    predicate Ge(rhs: Pointer) { value >= rhs.value }

    /** `explicit operator bool`. */
    predicate IsSet() { value != 0 }

    /** `operator!`. */
    predicate IsNull() { value == 0 }

    /** `and_then(func)`: `func(*this)` for a non-null address, null otherwise. */
    function AndThen(func: Pointer -> Pointer): (r: Pointer)
      ensures IsNull() ==> r == Null
      ensures IsSet() ==> r == func(this)
    {
      if value != 0 then func(this) else Null
    }

    /** `or_else(func)`: this address when it is non-null, `func()` otherwise. */
    function OrElse(func: () -> Pointer): (r: Pointer)
      ensures IsSet() ==> r == this
      ensures IsNull() ==> r == func()
    {
      if value != 0 then this else func()
    }
  }

  /** Euclidean division of a non-negative number: quotient times divisor
      plus remainder, with the remainder below the divisor. */
  lemma DivBounds(x: nat, a: nat)
    requires a > 0
    ensures x == x / a * a + x % a && 0 <= x % a < a
    ensures x / a * a <= x < x / a * a + a
  {
  }

  /** Quotient and remainder are the only ones with their defining property. */
  lemma DivModUnique(x: int, a: int, q: int, r: int)
    requires a > 0 && x == q * a + r && 0 <= r < a
    ensures x / a == q && x % a == r
  {
    var q', r' := x / a, x % a;
    assert x == q' * a + r' && 0 <= r' < a;
    if q > q' {
      assert (q - q') * a == q * a - q' * a;
      MulAtLeast(q - q', a);
    } else if q < q' {
      assert (q' - q) * a == q' * a - q * a;
      MulAtLeast(q' - q, a);
    }
  }

  lemma MulAtLeast(d: int, a: int)
    requires d >= 1 && a > 0
    ensures d * a >= a
  {
    if d > 1 {
      MulAtLeast(d - 1, a);
      assert d * a == (d - 1) * a + a;
    }
  }

  /** A multiple of `a` leaves no remainder. */
  lemma MultipleMod(k: nat, a: nat)
    requires a > 0
    ensures (k * a) % a == 0
  {
    DivModUnique(k * a, a, k, 0);
  }

  /** `pointer(nullptr)` and the default `pointer()`. */
  const Null: Pointer := Pointer(0)

  /** `add` and `sub` undo each other for every address and every count. */
  lemma AddSubInverse(p: Pointer, n: u64)
    ensures p.Add(n).Sub(n) == p
    ensures p.Sub(n).Add(n) == p
  {
  }

  /** `shift(from, to)` sends `from` to `to`. */
  lemma ShiftMapsFromToTo(from: Pointer, to: Pointer)
    ensures from.Shift(from, to) == to
  {
  }

  /** `shift(from, to)` keeps the distance from the base: the shifted address
      lies as far past `to` as the original lies past `from`. */
  lemma ShiftPreservesDistance(p: Pointer, from: Pointer, to: Pointer)
    ensures p.Shift(from, to).Sub(to.value) == p.Sub(from.value)
  {
    var r := p.Shift(from, to);
    assert (r.value - to.value) % W == (p.value - from.value) % W;
    WrapCongruent(r.value - to.value, p.value - from.value);
  }

  /** A non-negative `offset` is `add`. */
  lemma OffsetNonNegativeIsAdd(p: Pointer, n: i64)
    requires n >= 0
    ensures p.Offset(n) == p.Add(n)
  {
  }

  /** The comparison operators agree with one another and with the signed
      distance whenever that distance fits in `intptr_t`. */
  lemma ComparisonsAgree(p: Pointer, q: Pointer)
    ensures p.Lt(q) <==> !p.Ge(q)
    ensures p.Gt(q) <==> q.Lt(p)
    ensures p.Le(q) <==> (p.Lt(q) || p.Eq(q))
    ensures p.Ne(q) <==> !p.Eq(q)
    ensures p.Eq(q) <==> p == q
    ensures -HalfW <= p.value - q.value < HalfW ==>
      (p.Lt(q) <==> p.Diff(q) < 0) && (p.Eq(q) <==> p.Diff(q) == 0)
  {
  }

  /** `operator!` is the negation of `operator bool`, and only null is false. */
  lemma NullTests(p: Pointer)
    ensures p.IsNull() <==> !p.IsSet()
    ensures p.IsNull() <==> p == Null
  {
  }

  /** A null address short-circuits `and_then` whatever the function, and a
      non-null one short-circuits `or_else`; so null propagates through chains. */
  lemma Combinators(p: Pointer, f: Pointer -> Pointer, g: Pointer -> Pointer, h: () -> Pointer)
    ensures Null.AndThen(f) == Null
    ensures p.IsSet() ==> p.OrElse(h) == p
    ensures p.AndThen(f).AndThen(g) == p.AndThen(x => f(x).AndThen(g))
  {
  }

  /** A `pointer` variable, for the operators that update `value_` in place. */
  class PointerVar {
    var p: Pointer

    constructor (init: Pointer)
      ensures p == init
    {
      p := init;
    }

    /** `operator+=`. */
    method AddAssign(count: u64)
      modifies this
      ensures p == old(p).Add(count)
    {
      p := p.Add(count);
    }

    /** `operator-=`. */
    method SubAssign(count: u64)
      modifies this
      ensures p == old(p).Sub(count)
    {
      p := p.Sub(count);
    }

    /** Prefix `operator++`: step, then yield the new value. */
    method PreIncrement() returns (r: Pointer)
      modifies this
      ensures p == old(p).Add(1) && r == p
    {
      p := p.Add(1);
      r := p;
    }

    /** Prefix `operator--`: step, then yield the new value. */
    method PreDecrement() returns (r: Pointer)
      modifies this
      ensures p == old(p).Sub(1) && r == p
    {
      p := p.Sub(1);
      r := p;
    }

    /** Postfix `operator++`: yield the old value, then step. */
    method PostIncrement() returns (r: Pointer)
      modifies this
      ensures r == old(p) && p == old(p).Add(1)
    {
      r := p;
      p := p.Add(1);
    }

    /** Postfix `operator--`: yield the old value, then step. */
    method PostDecrement() returns (r: Pointer)
      modifies this
      ensures r == old(p) && p == old(p).Sub(1)
    {
      r := p;
      p := p.Sub(1);
    }
  }
}

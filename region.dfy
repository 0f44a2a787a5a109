/** The region descriptor `mem::region`: the half-open interval
    `[start, start + size)` with a protection snapshot. The bounds are
    `pointer` values, so `start + size` wraps modulo 2^64 as in the source. */
module Regions {
  import opened Word
  import opened ProtFlags
  import opened Mem
  import opened Common

  datatype Region = Region(start: Pointer, size: u64, flags: Flags) {

    /** The end of the interval, `start + size`, as a `pointer`. */
    function End(): Pointer {
      start.Add(size)
    }

    /** The interval does not wrap past the top of the address space. */
    predicate NoWrap() {
      start.value + size < W
    }

    /** `contains(pointer address)`. */
    predicate ContainsAddress(address: Pointer) {
      address.Ge(start) && address.Lt(End())
    }

    /** `contains(pointer start, size_t size)`. */
    predicate ContainsRange(s: Pointer, n: u64) {
      s.Ge(start) && s.Add(n).Le(End())
    }

    /** `contains(region rhs)`, written in the source as its own expression. */
    predicate ContainsRegion(rhs: Region) {
      rhs.start.Ge(start) && rhs.start.Add(rhs.size).Le(End())
    }

    /** `contains<T>(pointer address)` with `sizeof(T) == sizeOfT`. */
    predicate ContainsObject(address: Pointer, sizeOfT: u64) {
      address.Ge(start) && address.Add(sizeOfT).Le(End())
    }

    /** `operator==` as written: it compares the flags with `!=`. */
    predicate EqAsWritten(rhs: Region) {
      start.Eq(rhs.start) && size == rhs.size && flags != rhs.flags
    }

    /** `operator==` as evidently intended: all three fields equal. */
    predicate Eq(rhs: Region) {
      start.Eq(rhs.start) && size == rhs.size && flags == rhs.flags
    }

    /** `operator!=`. */
    predicate Ne(rhs: Region) {
      start.Ne(rhs.start) || size != rhs.size || flags != rhs.flags
    }

    /** `sub_region(address)`: the tail of this region from `address` on, with
        the size computed as `size - (size_t)(address - start)` in wrapping
        arithmetic. */
    function SubRegion(address: Pointer): (r: Region)
      ensures r.start == address && r.flags == flags
      ensures NoWrap() && ContainsAddress(address) ==>
        r.NoWrap() && address.value + r.size == start.value + size
    {
      Region(address, Wrap(size - Wrap(address.Diff(start))), flags)
    }
  }

  /** `region()`: the null, empty, NONE region. */
  function DefaultRegion(): (r: Region)
    ensures r.start.IsNull() && r.size == 0 && r.flags == NONE
    ensures forall a: Pointer :: !r.ContainsAddress(a)
  {
    Region(Null, 0, NONE)
  }

  /** `region(start, size, flags = NONE)`. */
  function MakeRegion(start: Pointer, size: u64, flags: Flags := NONE): (r: Region)
    ensures r.start == start && r.size == size && r.flags == flags
    ensures r.NoWrap() ==> forall a: Pointer :: r.ContainsAddress(a) <==> start.value <= a.value < start.value + size
  {
    Region(start, size, flags)
  }

  /** `region(const region_info&)`: copies the three fields. */
  function FromInfo(info: RegionInfo): (r: Region)
    ensures r.start.value == info.start && r.size == info.size && r.flags == info.flags
  {
    Region(Pointer(info.start), info.size, info.flags)
  }

  /** For a region that does not wrap, `contains(address)` is exactly
      membership in `[start, start + size)`. */
  lemma ContainsAddressIff(r: Region, a: Pointer)
    requires r.NoWrap()
    ensures r.ContainsAddress(a) <==> r.start.value <= a.value < r.start.value + r.size
  {
  }

  /** A region that ends exactly at the top of the address space has an end
      that wraps to null, so as written it contains no address at all. */
  lemma TopRegionContainsNothing(r: Region, a: Pointer)
    requires r.start.value + r.size == W
    ensures !r.ContainsAddress(a)
  {
  }

  /** For ranges that do not wrap, `contains(start, size)` is interval inclusion. */
  lemma ContainsRangeIff(r: Region, s: Pointer, n: u64)
    requires r.NoWrap() && s.value + n < W
    ensures r.ContainsRange(s, n) <==> r.start.value <= s.value && s.value + n <= r.start.value + r.size
  {
  }

  /** `contains(region)` is `contains(rhs.start, rhs.size)`, and `contains<T>`
      is `contains(address, sizeof(T))`. */
  lemma ContainsOverloadsAgree(r: Region, rhs: Region, a: Pointer, sizeOfT: u64)
    ensures r.ContainsRegion(rhs) == r.ContainsRange(rhs.start, rhs.size)
    ensures r.ContainsObject(a, sizeOfT) == r.ContainsRange(a, sizeOfT)
  {
  }

  /** Inclusion of a non-empty range implies membership of every address in it. */
  lemma ContainsRangeCoversAddresses(r: Region, s: Pointer, n: u64, a: Pointer)
    requires r.NoWrap() && s.value + n < W
    requires r.ContainsRange(s, n) && s.value <= a.value < s.value + n
    ensures r.ContainsAddress(a)
  {
  }

  /** `operator!=` holds exactly when a field differs, and the corrected
      `operator==` is its negation and coincides with value equality. */
  lemma EqIsNegationOfNe(r: Region, rhs: Region)
    ensures r.Ne(rhs) <==> (r.start != rhs.start || r.size != rhs.size || r.flags != rhs.flags)
    ensures r.Eq(rhs) <==> !r.Ne(rhs)
    ensures r.Eq(rhs) <==> r == rhs
  {
  }

  /** As written, `operator==` is false for a region compared with itself,
      and true together with `operator!=` for two regions that differ only in
      their flags: it is not the negation of `!=`. */
  lemma EqAsWrittenIsWrong(r: Region)
    ensures !r.EqAsWritten(r) && !r.Ne(r)
    ensures var other := r.(flags := if r.flags == NONE then RWX else NONE);
      r.EqAsWritten(other) && r.Ne(other)
  {
  }

  /** A sub-region taken at an address inside a region is contained in it and
      ends where it ends. */
  lemma SubRegionInside(r: Region, a: Pointer)
    requires r.NoWrap() && r.ContainsAddress(a)
    ensures r.ContainsRegion(r.SubRegion(a))
    ensures r.SubRegion(a).End() == r.End()
  {
  }
}

/** The operating-system side that the accessors call into, modelled as
    state: the bytes and the protection of every mapped address of one
    address space, the allocations made in it, and the kernel's table of open
    process handles. Each OS call the accessors make (memcpy/memset,
    ReadProcessMemory/WriteProcessMemory, VirtualQuery(Ex) or the maps table,
    VirtualProtect(Ex)/mprotect, VirtualAlloc(Ex)/mmap/malloc, VirtualFree(Ex)/
    munmap/free, OpenProcess/CloseHandle) is one method or function here. */
module Os {
  import opened Word
  import opened ProtFlags
  import opened Common

  type byte = bv8

  /** Addresses at or above this bound are never mapped (the top of the
      address space), so every region ends at or below it and `start + size`
      never wraps. */
  const Limit: int := W - 1

  /** What one address is: unmapped, or mapped with some protection. */
  datatype Cell = Free | Mapped(flags: Flags)

  /** One address space. `bytes` and `prot` have the same keys: the mapped
      addresses. `top` is where the next fresh mapping is placed; `allocs`
      records each protect-alloc allocation and `heap` each heap block, by
      base address and size. `bases` holds the first address of every
      mapping the OS keeps apart from the one below it (an allocation base
      for VirtualQuery, the start of a line of the maps table), so two
      neighbouring mappings with equal protection stay two regions. */
  datatype Memory = Memory(bytes: map<nat, byte>, prot: map<nat, Flags>, top: nat,
                           allocs: map<nat, nat>, heap: map<nat, nat>, bases: set<nat>)
  {
    ghost predicate Valid() {
      && bytes.Keys == prot.Keys
      && 0 < top <= Limit
      && (forall a | a in prot :: 0 < a < top && prot[a].Prot?)
      && (forall b | b in allocs :: 0 < b)
      && (forall b | b in heap :: 0 < b)
    }

    function CellAt(a: nat): Cell {
      if a in prot then Mapped(prot[a]) else Free
    }

    /** `a` is mapped and starts a mapping of its own: no region reported
        by a query runs across it from below. */
    predicate Splits(a: nat) {
      a in bases && a in prot
    }

    /** Every address of `[a, a + n)` is mapped. */
    predicate MappedRange(a: nat, n: nat) {
      forall k | a <= k < a + n :: k in prot
    }

    /** Every address of `[a, a + n)` is mapped with read access. */
    predicate Readable(a: nat, n: nat) {
      forall k | a <= k < a + n :: k in prot && prot[k].Prot? && prot[k].read
    }

    /** Every address of `[a, a + n)` is mapped with write access. */
    predicate Writable(a: nat, n: nat) {
      forall k | a <= k < a + n :: k in prot && prot[k].Prot? && prot[k].write
    }

    /** The `n` bytes stored from `a` on. */
    function BytesAt(a: nat, n: nat): (s: seq<byte>)
      requires Valid() && MappedRange(a, n)
      ensures |s| == n && forall i | 0 <= i < n :: s[i] == bytes[a + i]
    {
      seq(n, i requires 0 <= i < n => bytes[a + i])
    }

    /** The first address of the run of addresses that are like `a` and
        belong to the same mapping. */
    function RunStart(a: nat): (s: nat)
      ensures s <= a
      decreases a
    {
      if a > 0 && !Splits(a) && CellAt(a - 1) == CellAt(a) then RunStart(a - 1) else a
    }

    lemma {:induction false} RunStartFacts(a: nat)
      ensures forall k | RunStart(a) <= k <= a :: CellAt(k) == CellAt(a)
      ensures forall k | RunStart(a) < k <= a :: !Splits(k)
      ensures RunStart(a) > 0 ==> CellAt(RunStart(a) - 1) != CellAt(a) || Splits(RunStart(a))
      decreases a
    {
      if a > 0 && !Splits(a) && CellAt(a - 1) == CellAt(a) {
        RunStartFacts(a - 1);
      }
    }

    /** One past the last address of the run of addresses like `a` in the
        same mapping, never beyond `Limit`. */
    function RunEnd(a: nat): (e: nat)
      requires a < Limit
      ensures a < e <= Limit
      decreases Limit - a
    {
      if a + 1 < Limit && !Splits(a + 1) && CellAt(a + 1) == CellAt(a) then RunEnd(a + 1) else a + 1
    }

    lemma {:induction false} RunEndFacts(a: nat)
      requires a < Limit
      ensures forall k | a <= k < RunEnd(a) :: CellAt(k) == CellAt(a)
      ensures forall k | a < k < RunEnd(a) :: !Splits(k)
      ensures RunEnd(a) < Limit ==> CellAt(RunEnd(a)) != CellAt(a) || Splits(RunEnd(a))
      decreases Limit - a
    {
      if a + 1 < Limit && !Splits(a + 1) && CellAt(a + 1) == CellAt(a) {
        RunEndFacts(a + 1);
      }
    }

    /** The run around `a` holds addresses mapped exactly when `a` is, with
        the protection of `a`, and no mapping starts inside it. */
    lemma RunFacts(a: nat)
      requires a < Limit
      ensures var s, e := RunStart(a), RunEnd(a);
        && (forall k | s <= k < e :: (k in prot <==> a in prot) && (a in prot ==> prot[k] == prot[a]))
        && (forall k | s < k < e :: !Splits(k))
        && (e < Limit ==> CellAt(e) != CellAt(a) || Splits(e))
        && (s > 0 ==> CellAt(s - 1) != CellAt(a) || Splits(s))
    {
      RunStartFacts(a);
      RunEndFacts(a);
      forall k | RunStart(a) <= k < RunEnd(a)
        ensures (k in prot <==> a in prot) && (a in prot ==> prot[k] == prot[a])
      {
        assert CellAt(k) == CellAt(a);
      }
    }

    /** The region that contains `a`: the run of addresses with the same
        protection inside one mapping. It never runs across the start of
        another mapping, so neighbouring allocations or maps lines with equal
        protection are reported one at a time. An unmapped address lies in a
        free region, which a VirtualQuery-style query reports with NONE and a
        maps-table query does not report at all. */
    function Query(a: nat, reportsFree: bool): (r: Option<RegionInfo>)
      requires Valid()
      ensures r.Some? <==> a < Limit && (a in prot || reportsFree)
      ensures r.Some? ==> r.value.start <= a < r.value.start + r.value.size <= Limit
      ensures r.Some? && a in prot ==>
        r.value.flags == prot[a]
        && forall k | r.value.start <= k < r.value.start + r.value.size :: k in prot && prot[k] == prot[a]
      ensures r.Some? && a !in prot ==>
        r.value.flags == NONE
        && forall k | r.value.start <= k < r.value.start + r.value.size :: k !in prot
      ensures r.Some? ==> forall k | r.value.start < k < r.value.start + r.value.size :: !Splits(k)
      ensures r.Some? && r.value.start + r.value.size < Limit ==>
        CellAt(r.value.start + r.value.size) != CellAt(a) || Splits(r.value.start + r.value.size)
      ensures r.Some? && r.value.start > 0 ==> CellAt(r.value.start - 1) != CellAt(a) || Splits(r.value.start)
    {
      if a >= Limit || (a !in prot && !reportsFree) then None
      else
        var s := RunStart(a);
        var e := RunEnd(a);
        RunFacts(a);
        Some(RegionInfo(s, e - s, if a in prot then prot[a] else NONE))
    }

    /** The bytes of `[a, a + |data|)` replaced by `data`. */
    function WriteAt(a: nat, data: seq<byte>): (m: Memory)
      ensures m.prot == prot && m.top == top && m.allocs == allocs && m.heap == heap && m.bases == bases
      ensures m.bytes.Keys == bytes.Keys
      ensures forall k | k in bytes && a <= k < a + |data| :: m.bytes[k] == data[k - a]
      ensures forall k | k in bytes && !(a <= k < a + |data|) :: m.bytes[k] == bytes[k]
    {
      this.(bytes := map k | k in bytes :: if a <= k < a + |data| then data[k - a] else bytes[k])
    }

    /** The bytes of `[a, a + n)` set to `v`. */
    function FillAt(a: nat, n: nat, v: byte): (m: Memory)
      ensures m.prot == prot && m.top == top && m.allocs == allocs && m.heap == heap && m.bases == bases
      ensures m.bytes.Keys == bytes.Keys
      ensures forall k | k in bytes && a <= k < a + n :: m.bytes[k] == v
      ensures forall k | k in bytes && !(a <= k < a + n) :: m.bytes[k] == bytes[k]
    {
      this.(bytes := map k | k in bytes :: if a <= k < a + n then v else bytes[k])
    }

    /** The protection of `[a, a + n)` set to `f`. */
    function SetFlags(a: nat, n: nat, f: Flags): (m: Memory)
      ensures m.bytes == bytes && m.top == top && m.allocs == allocs && m.heap == heap && m.bases == bases
      ensures m.prot.Keys == prot.Keys
      ensures forall k | k in prot && a <= k < a + n :: m.prot[k] == f
      ensures forall k | k in prot && !(a <= k < a + n) :: m.prot[k] == prot[k]
    {
      this.(prot := map k | k in prot :: if a <= k < a + n then f else prot[k])
    }

    /** `[a, a + n)` newly mapped, zero-filled, with protection `f`. */
    function MapRange(a: nat, n: nat, f: Flags): (m: Memory)
      ensures m.top == top && m.allocs == allocs && m.heap == heap && m.bases == bases
      ensures forall k :: k in m.prot <==> k in prot || a <= k < a + n
      ensures forall k :: k in m.bytes <==> k in bytes || a <= k < a + n
      ensures forall k | a <= k < a + n :: m.prot[k] == f && m.bytes[k] == 0
      ensures forall k | k in prot && !(a <= k < a + n) :: m.prot[k] == prot[k]
      ensures forall k | k in bytes && !(a <= k < a + n) :: m.bytes[k] == bytes[k]
    {
      this.(bytes := Overlay(bytes, a, n, 0), prot := Overlay(prot, a, n, f))
    }

    /** `n` fresh bytes mapped at `top` with protection `f`, zero-filled,
        their first address recorded as the start of a mapping. */
    function Fresh(n: nat, f: Flags): (m: Memory)
      ensures m.top == top + n && m.allocs == allocs && m.heap == heap && m.bases == bases + {top}
      ensures forall k :: k in m.prot <==> k in prot || top <= k < top + n
      ensures forall k :: k in m.bytes <==> k in bytes || top <= k < top + n
      ensures forall k | top <= k < top + n :: m.prot[k] == f && m.bytes[k] == 0
      ensures forall k | k in prot && !(top <= k < top + n) :: m.prot[k] == prot[k]
      ensures forall k | k in bytes && !(top <= k < top + n) :: m.bytes[k] == bytes[k]
    {
      MapRange(top, n, f).(top := top + n, bases := bases + {top})
    }

    /** `[a, a + n)` no longer mapped. */
    function UnmapRange(a: nat, n: nat): (m: Memory)
      ensures m.top == top && m.allocs == allocs && m.heap == heap && m.bases == bases
      ensures forall k :: k in m.prot <==> k in prot && !(a <= k < a + n)
      ensures forall k | k in m.prot :: m.prot[k] == prot[k]
    {
      this.(bytes := map k | k in bytes && !(a <= k < a + n) :: bytes[k],
            prot := map k | k in prot && !(a <= k < a + n) :: prot[k])
    }
  }

  /** `base` with every key of `[a, a + n)` bound to `v`. */
  function Overlay<V>(base: map<nat, V>, a: nat, n: nat, v: V): (r: map<nat, V>)
    ensures forall k :: k in r <==> k in base || a <= k < a + n
    ensures forall k | a <= k < a + n :: r[k] == v
    ensures forall k | k in base && !(a <= k < a + n) :: r[k] == base[k]
  {
    base + map k | k in Span(a, n) :: v
  }

  datatype Option<T> = None | Some(value: T)

  /** The set of addresses `[a, a + n)`. */
  function Span(a: nat, n: nat): (s: set<nat>)
    ensures forall k :: k in s <==> a <= k < a + n
    decreases n
  {
    if n == 0 then {} else {a} + Span(a + 1, n - 1)
  }

  /** One address space whose state the OS calls read and change. */
  class AddressSpace {
    var mem: Memory

    constructor (m: Memory)
      requires m.Valid()
      ensures mem == m
    {
      mem := m;
    }

    ghost predicate Valid()
      reads this
    {
      mem.Valid()
    }

    /** A copy of `size` bytes from `src` in this space into a local buffer. */
    method CopyOut(src: nat, dst: array<byte>, size: nat)
      requires Valid() && mem.Readable(src, size) && size <= dst.Length
      modifies dst
      ensures dst[..size] == mem.BytesAt(src, size)
      ensures dst[size..] == old(dst[size..])
    {
      forall i | 0 <= i < size {
        dst[i] := mem.bytes[src + i];
      }
    }

    /** A copy of `size` bytes from a local buffer to `dst` in this space. */
    method CopyIn(dst: nat, src: array<byte>, size: nat)
      requires Valid() && mem.Writable(dst, size) && size <= src.Length
      modifies this
      ensures Valid()
      ensures mem == old(mem).WriteAt(dst, src[..size])
    {
      mem := mem.WriteAt(dst, src[..size]);
    }

    /** `memset` of `[dst, dst + size)` to `value`. */
    method Set(dst: nat, value: byte, size: nat)
      requires Valid() && mem.Writable(dst, size)
      modifies this
      ensures Valid()
      ensures mem == old(mem).FillAt(dst, size, value)
    {
      mem := mem.FillAt(dst, size, value);
    }

    /** VirtualProtect / mprotect: succeeds exactly when the range is non-empty
        and mapped; then reports the flags the first address had. */
    method Protect(addr: nat, size: nat, flags: Flags) returns (ok: bool, prior: Flags)
      requires Valid() && flags.Prot?
      modifies this
      ensures Valid()
      ensures ok == (size > 0 && old(mem).MappedRange(addr, size))
      ensures ok ==> prior == old(mem).prot[addr] && mem == old(mem).SetFlags(addr, size, flags)
      ensures !ok ==> prior == Invalid && mem == old(mem)
    {
      if size > 0 && mem.MappedRange(addr, size) {
        prior := mem.prot[addr];
        mem := mem.SetFlags(addr, size, flags);
        ok := true;
      } else {
        ok, prior := false, Invalid;
      }
    }

    /** A fresh mapping of `size` bytes placed at `top`, or null (0) when the
        size is zero, the flags are INVALID or the space is exhausted. */
    method MapFresh(size: nat, flags: Flags) returns (addr: nat)
      requires Valid()
      modifies this
      ensures Valid()
      ensures addr == 0 <==> (size == 0 || flags.Invalid? || old(mem).top + size >= Limit)
      ensures addr == 0 ==> mem == old(mem)
      ensures mem.allocs == old(mem).allocs && mem.heap == old(mem).heap
      ensures addr != 0 ==> mem.bases == old(mem).bases + {addr}
      ensures addr != 0 ==> mem == old(mem).Fresh(size, flags)
      ensures addr != 0 ==> forall k | addr <= k < addr + size :: k !in old(mem).prot
      ensures addr != 0 ==>
        addr == old(mem).top && mem.top == addr + size
        && (forall k | addr <= k < addr + size :: k in mem.prot && mem.prot[k] == flags && mem.bytes[k] == 0)
        && (forall k | k in old(mem).prot :: k in mem.prot && mem.prot[k] == old(mem).prot[k] && mem.bytes[k] == old(mem).bytes[k])
    {
      if size == 0 || flags.Invalid? || mem.top + size >= Limit {
        addr := 0;
      } else {
        addr := mem.top;
        mem := mem.Fresh(size, flags);
      }
    }

    /** VirtualAlloc(Ex) / mmap: a fresh mapping, recorded as an allocation. */
    method Allocate(size: nat, flags: Flags) returns (addr: nat)
      requires Valid()
      modifies this
      ensures Valid()
      ensures addr == 0 <==> (size == 0 || flags.Invalid? || old(mem).top + size >= Limit)
      ensures addr == 0 ==> mem == old(mem)
      ensures addr != 0 ==> mem.allocs == old(mem).allocs[addr := size] && mem.MappedRange(addr, size)
      ensures addr != 0 ==>
        addr == old(mem).top && mem == old(mem).Fresh(size, flags).(allocs := old(mem).allocs[addr := size])
      ensures addr != 0 ==> forall k | addr <= k < addr + size :: k !in old(mem).prot
      ensures addr != 0 ==> forall k | addr <= k < addr + size :: k in mem.prot && mem.prot[k] == flags
    {
      addr := MapFresh(size, flags);
      if addr != 0 {
        mem := mem.(allocs := mem.allocs[addr := size]);
      }
    }

    /** VirtualFree(Ex) with MEM_RELEASE: releases the whole allocation whose
        base is `addr`; any other address is refused and nothing changes. */
    method Release(addr: nat)
      requires Valid()
      modifies this
      ensures Valid()
      ensures addr !in old(mem).allocs ==> mem == old(mem)
      ensures addr in old(mem).allocs ==>
        mem == old(mem).UnmapRange(addr, old(mem).allocs[addr]).(allocs := old(mem).allocs - {addr})
    {
      if addr in mem.allocs {
        mem := mem.UnmapRange(addr, mem.allocs[addr]).(allocs := mem.allocs - {addr});
      }
    }

    /** munmap: `[addr, addr + size)` is no longer mapped, and an
        allocation recorded at `addr` is forgotten. */
    method Unmap(addr: nat, size: nat)
      requires Valid()
      modifies this
      ensures Valid()
      ensures mem == old(mem).UnmapRange(addr, size).(allocs := old(mem).allocs - {addr})
    {
      mem := mem.UnmapRange(addr, size).(allocs := mem.allocs - {addr});
    }

    /** malloc: a fresh read-write heap block, or null; a zero-sized request
        yields null. */
    method HeapAlloc(size: nat) returns (addr: nat)
      requires Valid()
      modifies this
      ensures Valid()
      ensures addr == 0 <==> (size == 0 || old(mem).top + size >= Limit)
      ensures addr == 0 ==> mem == old(mem)
      ensures addr != 0 ==> mem.heap == old(mem).heap[addr := size] && mem.Writable(addr, size)
      ensures addr != 0 ==>
        addr == old(mem).top && mem == old(mem).Fresh(size, RW).(heap := old(mem).heap[addr := size])
      ensures addr != 0 ==> forall k | addr <= k < addr + size :: k !in old(mem).prot
    {
      addr := MapFresh(size, RW);
      if addr != 0 {
        mem := mem.(heap := mem.heap[addr := size]);
      }
    }

    /** free: gives back a live heap block. */
    method HeapFree(addr: nat)
      requires Valid() && addr in mem.heap
      modifies this
      ensures Valid()
      ensures mem == old(mem).UnmapRange(addr, old(mem).heap[addr]).(heap := old(mem).heap - {addr})
    {
      mem := mem.UnmapRange(addr, mem.heap[addr]).(heap := mem.heap - {addr});
    }
  }

  /** `INVALID_HANDLE_VALUE`, `(HANDLE)-1` read as an unsigned word. */
  const InvalidHandle: nat := W - 1

  /** The kernel's process-handle table. `owner` records, for each handle an
      accessor owns, which accessor that is. */
  class Kernel {
    var open: set<nat>
    var next: nat
    const live: set<nat>
    ghost var owner: map<nat, object>

    ghost predicate Valid()
      reads this
    {
      && 0 !in open && InvalidHandle !in open
      && next > 0
      && (forall h | h in open :: h < next)
      && owner.Keys <= open
    }

    constructor (pids: set<nat>)
      ensures Valid() && open == {} && owner == map[] && live == pids
    {
      open, next, live, owner := {}, 1, pids, map[];
    }

    /** OpenProcess: a fresh open handle for a live process, null otherwise. */
    method OpenProcess(pid: nat) returns (h: nat)
      requires Valid()
      modifies this
      ensures Valid() && owner == old(owner)
      ensures pid in live ==> h != 0 && h != InvalidHandle && h !in old(open) && open == old(open) + {h}
      ensures pid !in live ==> h == 0 && open == old(open)
    {
      if pid in live {
        h := if next == InvalidHandle then next + 1 else next;
        open := open + {h};
        next := h + 1;
      } else {
        h := 0;
      }
    }

    /** CloseHandle. Closing a handle that is not open is the double close
        the accessors must never do, so it is a precondition. */
    method CloseHandle(h: nat)
      requires Valid() && h in open && h !in owner
      modifies this
      ensures Valid() && owner == old(owner)
      ensures open == old(open) - {h}
    {
      open := open - {h};
    }
  }
}

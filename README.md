# A verified model of the `mem` memory-access library

`mem` is a header-only C++ library for working with the memory of the
current process or of another one. This project models its core in Dafny:

- **Address arithmetic** (`pointer`, module `Mem`): `uintptr_t` arithmetic
  wraps modulo 2^64, and the signed forms go through `intptr_t`.
- **Region descriptor** (`region`, module `Regions`): a half-open interval
  `[start, start + size)` with a protection snapshot.
- **Scan configuration** (`scan_config`, module `ScanConfig`).
- **Accessor interface and its two backends** (`data_accessor`,
  `local_memory_accessor`, `remote_memory_accessor`; module `Access`):
  - one class `DataAccessor` whose `backend` is fixed at construction;
  - the default chunked `fill`;
  - the remote backend's handle ownership and move state machine.
- **Scoped protection guard** (`protect`) and its forwarding free functions
  (module `Guard`).
- **Unix maps walk** (`iter_proc_maps`) and its two query callbacks
  (module `ProcMaps`).
- **Signature scanner** (`memory_scanner::scan`, module `MemoryScanner`):
  - it walks the regions an accessor reports and keeps those whose flags
    equal the configured ones;
  - it clips each kept region to `[start, end)`;
  - it reads the clipped window in overlapping blocks of
    `block_size + pattern_size - 1` bytes, advancing by `block_size`.

### How the model is built

- **The operating system** (module `Os`) is state:
  - a map from address to byte and one from address to protection;
  - the first address of each mapping, where a region query stops;
  - the allocations made;
  - the kernel's table of open process handles.

  Every OS call the accessors make is a method over that state with a
  contract.
- **Pattern strategies** (module `Pattern`) are described by their pattern
  of literal and wildcard bytes. `scan_all` hands out the offsets where the
  pattern matches, in ascending order.
- **`Scan`** is the source's two nested loops. It is proved equal to a
  specification function `ScanSpec` built from two layers:
  - the region walk `Regions`;
  - the block stream `Stream`/`StreamAll`.
- **Module `ScanProperties`** proves what `scan` promises about `ScanSpec`:
  - every reported address holds an occurrence that lies in a region with
    the configured flags;
  - the results are strictly ascending;
  - every occurrence that lies wholly in memory with the configured
    (readable) flags and crosses the start of no mapping is reported, and
    an occurrence that crosses one is never reported, because each read
    stops at the end of its region;
  - every read stays inside one window and asks for at most
    `block_size + pattern_size - 1` bytes;
  - the region queries are chained from `start` to `end`.

  Strict ascent together with completeness gives "every occurrence exactly
  once".

## Model

| member | source | states |
|---|---|---|
| ProtFlags.FromProtFlags | include/mem/access/local_memory_accessor.h:75 | a valid flag value maps to a 3-bit native mask whose bits are exactly its read, write and exec |
| ProtFlags.ToProtFlags | include/mem/access/proc_maps_utils.h:46 | a native mask outside the eight 3-bit masks is INVALID, every other one is a valid flag value |
| ProtFlags.RoundTripFlags | include/mem/access/local_memory_accessor.h:73 | native translation and back is the identity on valid flags |
| ProtFlags.RoundTripNative | include/mem/access/local_memory_accessor.h:103 | translating a recognised native mask to flags and back is the identity |
| Mem.Pointer.Add | include/mem/memory/mem.h:219-222 | `add`/`operator+`: the sum, minus 2^64 when it overflows |
| Mem.Pointer.Sub | include/mem/memory/mem.h:224-227 | `sub`/`operator-(count)`: the difference, plus 2^64 when it underflows |
| Mem.Pointer.Offset | include/mem/memory/mem.h:229-232 | the address `count` bytes away when that stays inside the address space; an `intptr_t` overflow, which C++ leaves undefined, is taken to wrap |
| Mem.Pointer.Shift | include/mem/memory/mem.h:234-237 | the result lies as far past `to` as the address lies past `from`, modulo 2^64 |
| Mem.Pointer.AlignUp | include/mem/memory/mem.h:239-242 | without overflow: a multiple of `align`, at least the address and less than `align` above it |
| Mem.Pointer.AlignDown | include/mem/memory/mem.h:244-247 | a multiple of `align`, at most the address and less than `align` below it |
| Mem.Pointer.Diff | include/mem/memory/mem.h:272-275 | the exact distance when it fits in `intptr_t`; with an overflowing subtraction taken to wrap, adding the result back to `rhs` gives the address |
| Mem.Pointer.Eq | include/mem/memory/mem.h:323-326 | `operator==`: the stored integers are equal |
| Mem.Pointer.Ne | include/mem/memory/mem.h:328-331 | `operator!=`: the stored integers differ |
| Mem.Pointer.Lt | include/mem/memory/mem.h:333-336 | `operator<` on the stored integers |
| Mem.Pointer.Gt | include/mem/memory/mem.h:338-341 | `operator>` on the stored integers |
| Mem.Pointer.Le | include/mem/memory/mem.h:343-346 | `operator<=` on the stored integers |
| Mem.Pointer.Ge | include/mem/memory/mem.h:348-351 | `operator>=` on the stored integers |
| Mem.Pointer.IsSet | include/mem/memory/mem.h:358-361 | `operator bool`: the address is not null |
| Mem.Pointer.IsNull | include/mem/memory/mem.h:353-356 | `operator!`: the address is null |
| Mem.Pointer.AndThen | include/mem/memory/mem.h:415-419 | null gives null; otherwise `func(*this)` |
| Mem.Pointer.OrElse | include/mem/memory/mem.h:421-425 | a non-null address is returned unchanged; otherwise `func()` |
| Mem.AddSubInverse | include/mem/memory/mem.h:219-227 | `add(n)` and `sub(n)` undo each other for every address and count |
| Mem.ShiftMapsFromToTo | include/mem/memory/mem.h:234-237 | `shift(from, to)` sends `from` to `to` |
| Mem.ShiftPreservesDistance | include/mem/memory/mem.h:234-237 | the distance from the new base equals the distance from the old one |
| Mem.OffsetNonNegativeIsAdd | include/mem/memory/mem.h:229-232 | a non-negative `offset` is `add` |
| Mem.ComparisonsAgree | include/mem/memory/mem.h:323-351 | the six comparisons agree with each other, with value equality, and with the sign of `operator-(pointer)` when that fits |
| Mem.NullTests | include/mem/memory/mem.h:353-361 | `operator!` negates `operator bool`, and only null is false |
| Mem.Combinators | include/mem/memory/mem.h:415-425 | null short-circuits `and_then`, non-null short-circuits `or_else`, and `and_then` chains associate |
| Mem.PointerVar.AddAssign | include/mem/memory/mem.h:277-282 | the stored address becomes `add(count)` of the old one |
| Mem.PointerVar.SubAssign | include/mem/memory/mem.h:284-289 | the stored address becomes `sub(count)` of the old one |
| Mem.PointerVar.PreIncrement | include/mem/memory/mem.h:291-296 | steps by one and yields the new value |
| Mem.PointerVar.PreDecrement | include/mem/memory/mem.h:298-303 | steps back by one and yields the new value |
| Mem.PointerVar.PostIncrement | include/mem/memory/mem.h:305-312 | yields the old value and steps by one |
| Mem.PointerVar.PostDecrement | include/mem/memory/mem.h:314-321 | yields the old value and steps back by one |
| Regions.Region.ContainsAddress | include/mem/memory/region.h:57-60 | `contains(address)`: `address >= start` and `address < start + size`, the end wrapping as a `pointer` |
| Regions.Region.ContainsRange | include/mem/memory/region.h:62-65 | `contains(start_, size_)`: `start_ >= start` and `start_ + size_ <= start + size`, both ends wrapping |
| Regions.Region.ContainsRegion | include/mem/memory/region.h:52-55 | `contains(rhs)`: the same test on `rhs.start` and `rhs.size` |
| Regions.Region.ContainsObject | include/mem/memory/region.h:67-71 | `contains<T>(address)`: the same test on `address` and `sizeof(T)` |
| Regions.Region.EqAsWritten | include/mem/memory/region.h:73-76 | `operator==` as written: equal start and size and different flags |
| Regions.Region.Eq | include/mem/memory/region.h:73-76 | `operator==` as intended: all three fields equal |
| Regions.Region.Ne | include/mem/memory/region.h:78-81 | `operator!=`: some field differs |
| Regions.Region.SubRegion | include/mem/memory/region.h:83-86 | starts at the address and keeps the flags; for an address inside a non-wrapping region it ends where the region ends |
| Regions.DefaultRegion | include/mem/memory/region.h:38 | null start, size 0, NONE, containing no address |
| Regions.FromInfo | include/mem/memory/region.h:40-44 | copies start, size and flags of a `region_info` |
| Regions.MakeRegion | include/mem/memory/region.h:46-50 | stores its three arguments (flags default NONE); a non-wrapping region contains exactly its interval |
| Regions.ContainsAddressIff | include/mem/memory/region.h:57-60 | for a non-wrapping region, `contains(address)` iff `start <= address < start + size` |
| Regions.TopRegionContainsNothing | include/mem/memory/region.h:57-60 | a region ending exactly at 2^64 has an end that wraps to null, so it contains nothing |
| Regions.ContainsRangeIff | include/mem/memory/region.h:62-65 | without wrap-around, `contains(start, size)` iff the interval is included |
| Regions.ContainsOverloadsAgree | include/mem/memory/region.h:52-71 | `contains(region)` is `contains(rhs.start, rhs.size)`, and `contains<T>` is `contains(a, sizeof(T))` |
| Regions.ContainsRangeCoversAddresses | include/mem/memory/region.h:57-65 | an included range has every address of it contained |
| Regions.EqIsNegationOfNe | include/mem/memory/region.h:73-81 | `!=` holds iff a field differs; the corrected `==` is its negation and is value equality |
| Regions.EqAsWrittenIsWrong | include/mem/memory/region.h:75 | as written, `==` is false for a region and itself and true together with `!=` for regions differing only in flags |
| Regions.SubRegionInside | include/mem/memory/region.h:83-86 | a sub-region at an inside address is contained in the region and shares its end |
| ScanConfig.FromFlags | include/mem/scanning/scan_config.h:17-22 | stores flags, start and end as given |
| ScanConfig.FromRange | include/mem/scanning/scan_config.h:24-28 | stores start, end and flags exactly as given |
| ScanConfig.FlagsOnlyDefaults | include/mem/scanning/scan_config.h:17-22 | with only flags given: start null, end the largest `uintptr_t`, flags verbatim |
| Os.Memory.Query | include/mem/access/local_memory_accessor.h:95-118 | a region is found iff the address is mapped (or free regions are reported); it contains the address, has one protection throughout, crosses the start of no mapping, and ends only where the protection changes or another mapping starts |
| Os.Memory.Fresh | include/mem/access/local_memory_accessor.h:70-80 | a fresh mapping at the top of the address space: the new range is mapped with the given flags and zero bytes, its first address starts a mapping, and everything else is kept |
| Os.Memory.RunFacts | include/mem/access/local_memory_accessor.h:95-118 | the run around an address has its protection throughout and stops at a change of protection or at the start of a mapping |
| Access.FlagsBox.constructor | include/mem/access/local_memory_accessor.h:141-161 | the `prot_flags* old_flags` out-parameter, holding the value it is created with |
| Access.View.FlagsAt | include/mem/access/remote_memory_accessor.h:180-187 | the flags of a mapped address, NONE for a free one where free regions are reported, INVALID when the query fails |
| Access.Chunks | include/mem/access/data_accessor.h:51-58 | there are chunks iff `size > 0` |
| Access.ChunksShape | include/mem/access/data_accessor.h:53-56 | chunk i starts at `dst + 4096*i` and has 1 to 4096 bytes; all but the last are full; the lengths sum to `size` |
| Access.ChunksTile | include/mem/access/data_accessor.h:51-58 | each chunk starts where the previous one ends, and the last ends at `dst + size` |
| Access.ChunksCount | include/mem/access/data_accessor.h:51-58 | the loop makes `ceil(size / 4096)` writes, so it terminates |
| Access.ChunksAppend | include/mem/access/data_accessor.h:53-57 | one more iteration appends one chunk of `min(remaining, 4096)` bytes |
| Access.ChunksPrefix | include/mem/access/data_accessor.h:54-55 | the chunks written before a failure are a prefix of the full plan |
| Access.FillStep | include/mem/access/data_accessor.h:46-56 | writing the next chunk of the filled buffer extends the filled prefix |
| Access.DataAccessor.ForLocal | include/mem/access/local_memory_accessor.h:24-46 | a local accessor holds no handle |
| Access.DataAccessor.RemoteWith | include/mem/access/remote_memory_accessor.h:86-89 | stores the handle and the ownership flag; an owned handle is registered to this accessor |
| Access.DataAccessor.CreateFromPid | include/mem/access/remote_memory_accessor.h:121-127 | no accessor iff the process cannot be opened; otherwise it owns a freshly opened handle |
| Access.DataAccessor.CreateFromHandle | include/mem/access/remote_memory_accessor.h:129-134 | no accessor iff the handle is null or INVALID_HANDLE_VALUE; otherwise it does not own the handle and opens nothing |
| Access.DataAccessor.Dispose | include/mem/access/remote_memory_accessor.h:91-95 | closes the handle iff it is owned; a caller-supplied handle stays open |
| Access.DataAccessor.MoveFrom | include/mem/access/remote_memory_accessor.h:97-103 | takes the handle and ownership; the source is left null and non-owning |
| Access.DataAccessor.MoveAssign | include/mem/access/remote_memory_accessor.h:105-119 | self-assignment changes nothing; otherwise closes its own owned handle, then transfers and disarms the source |
| Access.DataAccessor.Read | include/mem/access/local_memory_accessor.h:48-54 | succeeds iff both pointers are set, size > 0 and the target is reachable and readable; then the buffer holds exactly those bytes, else it is unchanged |
| Access.DataAccessor.ReadProcessMemory | include/mem/access/remote_memory_accessor.h:141-147 | succeeds with `size` bytes transferred iff the handle is open and the range readable; otherwise nothing is copied |
| Access.DataAccessor.Write | include/mem/access/local_memory_accessor.h:56-62 | the first argument is the target; succeeds iff both pointers are set, size > 0 and the range is reachable and writable; then the target holds the buffer, else memory is unchanged |
| Access.DataAccessor.WriteProcessMemory | include/mem/access/remote_memory_accessor.h:149-155 | succeeds with `size` bytes transferred iff the handle is open and the range writable |
| Access.DataAccessor.DefaultFill | include/mem/access/data_accessor.h:39-60 | null or empty: false, nothing written; success iff the range is writable, then every byte equals `value`; on failure the writes attempted are a prefix of the chunk plan and only earlier chunks changed |
| Access.DataAccessor.FillLoop | include/mem/access/data_accessor.h:48-59 | the write loop: on success all chunks written and the range filled; on failure it stopped at the first refused chunk |
| Access.DataAccessor.FillNext | include/mem/access/data_accessor.h:53-57 | one iteration writes the next chunk of `min(remaining, 4096)` bytes or reports that it was refused |
| Access.DataAccessor.WriteChunk | include/mem/access/data_accessor.h:54-55 | one chunk write succeeds iff reachable and writable, and extends the filled prefix |
| Access.DataAccessor.Fill | include/mem/access/local_memory_accessor.h:64-68 | local: always true, no pre-check, every byte set; remote: the default chunked fill |
| Access.DataAccessor.ProtectAlloc | include/mem/access/local_memory_accessor.h:70-80 | null iff the call fails, and then memory is unchanged; otherwise a range that was unmapped before is mapped zero-filled with the requested flags and recorded as an allocation, and every earlier mapping and byte is kept |
| Access.DataAccessor.ProtectFree | include/mem/access/local_memory_accessor.h:82-93 | null is ignored; unix unmaps `[addr, addr+size)` and forgets an allocation recorded at `addr`; otherwise the allocation based at `addr` is released |
| Access.DataAccessor.QueryRegion | include/mem/access/local_memory_accessor.h:95-118 | succeeds iff the OS query finds a region, and reports it; otherwise the record stays zero |
| Access.DataAccessor.ProtectQuery | include/mem/access/local_memory_accessor.h:120-139 | the flags of the region found, INVALID when the query fails |
| Access.DataAccessor.ProtectModify | include/mem/access/local_memory_accessor.h:141-161 | INVALID refused with `*old_flags` untouched; unix captures `protect_query` first; Windows/remote give the prior flags on success and INVALID on failure |
| Access.DataAccessor.Alloc | include/mem/access/remote_memory_accessor.h:201-204 | null leaves memory unchanged; otherwise a range unmapped before, mapped RW and zero-filled, with everything earlier kept: remotely `protect_alloc(size, RW)`; locally the model's `malloc`, one fresh mapping per heap block, null for size 0 (see Left out) |
| Access.DataAccessor.Free | include/mem/access/local_memory_accessor.h:168-173 | null is ignored; locally the model's `free` unmaps the heap block and forgets it (see Left out); remotely `protect_free(addr, 0)` releases the allocation based at `addr` when reachable, and otherwise changes nothing |
| Guard.ProtectAlloc | include/mem/memory/protect.h:70-73 | forwards to the accessor's `protect_alloc`, with that method's whole contract: failure leaves memory unchanged, success maps a fresh range and records the allocation |
| Guard.ProtectFree | include/mem/memory/protect.h:75-78 | forwards to the accessor's `protect_free`, with its whole contract: null ignored, unix unmaps the range and forgets an allocation recorded at its start, Windows and remote release the allocation based at the address |
| Guard.ProtectQuery | include/mem/memory/protect.h:80-83 | forwards to the accessor's `protect_query`, with its whole contract |
| Guard.ProtectModify | include/mem/memory/protect.h:85-89 | forwards to the accessor's `protect_modify`, with its whole contract, including what `*old_flags` receives on each backend |
| Guard.Protect.constructor | include/mem/memory/protect.h:91-96 | applies `protect_modify(start, size, flags)` (flags default RWX); `success` is its result and `old_flags` what it captured |
| Guard.Protect.MoveFrom | include/mem/memory/protect.h:106-114 | copies region, accessor, captured flags and success; the source becomes INVALID and inactive |
| Guard.Protect.Dispose | include/mem/memory/protect.h:98-104 | restores the captured flags iff active, otherwise changes nothing |
| Guard.Protect.IsActive | include/mem/memory/protect.h:116-119 | `explicit operator bool`: a restore is owed; false after `release()` and after being moved from |
| Guard.Protect.Release | include/mem/memory/protect.h:121-126 | returns the captured flags and leaves the guard inactive |
| Guard.RestoreUniform | include/mem/memory/protect.h:91-104 | changing a uniformly protected range and setting it back to its first page's flags restores the memory |
| Guard.GuardedScope | include/mem/memory/protect.h:91-104 | an unreleased guard's lifetime leaves memory as it found it |
| Guard.ReleasedScope | include/mem/memory/protect.h:121-126 | after `release()` the change stays in force when the guard is destroyed |
| Guard.MovedScope | include/mem/memory/protect.h:106-114 | after a move only the new guard restores, and memory ends as it began |
| ProcMaps.ScanPerms | include/mem/access/proc_maps_utils.h:94-95 | a `%4s` conversion stores the characters and a NUL; otherwise the buffer keeps the earlier line's content |
| ProcMaps.DecodeBits | include/mem/access/proc_maps_utils.h:100-125 | `r`,`w`,`x` set exactly their bits; `s`/`p` set SHARED/PRIVATE; no path means ANONYMOUS and a null path |
| ProcMaps.DecodeFullPerms | include/mem/access/proc_maps_utils.h:103-115 | with four permission characters the decoding depends on the line alone |
| ProcMaps.ProtOfValid | include/mem/access/proc_maps_utils.h:100-110 | the decoded mask always translates to the valid flags of its three characters |
| ProcMaps.IterProcMaps | include/mem/access/proc_maps_utils.h:77-137 | returns 0 when the file cannot be opened; otherwise skips short lines and stops at the first nonzero callback answer, returning it |
| ProcMaps.ProtQueryCallback | include/mem/access/proc_maps_utils.h:40-51 | answers 1 iff `start <= address < end` and then records the flags; otherwise 0 with the query untouched |
| ProcMaps.RegionQueryCallbackAsWritten | include/mem/access/proc_maps_utils.h:59-71 | as written, a hit reports size `2^64 - (end - start)` |
| ProcMaps.RegionQueryCallback | include/mem/access/proc_maps_utils.h:59-71 | answers 1 iff the entry contains the address and then records the region `[start, end)` |
| ProcMaps.RegionOf | include/mem/access/proc_maps_utils.h:64-67 | the reported region starts at `start` and ends at `end` |
| ProcMaps.RegionSizeAsWrittenIsWrong | include/mem/access/proc_maps_utils.h:66 | a one-page entry is reported 2^64 - 0x1000 bytes long, past the address space |
| ProcMaps.RegionQueryContainsAddress | include/mem/access/proc_maps_utils.h:62-68 | the corrected region contains the queried address |
| ProcMaps.RegionWalk | include/mem/access/proc_maps_utils.h:92-130 | the region walk answers with the first entry containing the address, or 0 with the query untouched |
| ProcMaps.ProtWalk | include/mem/access/proc_maps_utils.h:92-130 | the protection walk answers with the valid flags of the first entry containing the address, or 0 |
| ProcMaps.SkippedLine | include/mem/access/proc_maps_utils.h:97-98 | a line with fewer than four conversions never reaches the callback |
| Pattern.MatchesFrom | include/mem/scanning/memory_scanner.h:75-78 | exactly the match offsets from `i` on, strictly ascending |
| Pattern.Scanner.ScanAll | include/mem/scanning/memory_scanner.h:75-78 | the callback receives exactly the offsets where the pattern fits and matches, in ascending order |
| MemoryScanner.Shift | include/mem/scanning/memory_scanner.h:76 | each reported address is the in-buffer offset plus `read_pos` |
| MemoryScanner.MemoryScanner.constructor | include/mem/scanning/memory_scanner.h:33-35 | binds the accessor |
| MemoryScanner.Stream | include/mem/scanning/memory_scanner.h:65-79 | the block loop over one window: it reads something iff the window is non-empty, reports nothing without reading, and every read is non-empty and lies inside the window |
| MemoryScanner.StreamAll | include/mem/scanning/memory_scanner.h:56-80 | the block loops of the windows one after the other: no read at all iff every window is empty, and then no result |
| MemoryScanner.Regions | include/mem/scanning/memory_scanner.h:48-82 | the region walk: it queries iff `current` is below the configured end, and it streams at most one window per query |
| MemoryScanner.ScanSpec | include/mem/scanning/memory_scanner.h:38-86 | `scan` as a function: nothing at all for a strategy that is not ready; otherwise some query iff `start < end`, and no result without a read |
| MemoryScanner.MemoryScanner.Scan | include/mem/scanning/memory_scanner.h:38-86 | results, queries and reads are those of `ScanSpec`; a strategy that is not ready gives no results, queries or reads |
| MemoryScanner.MemoryScanner.QueryRegion | include/mem/scanning/memory_scanner.h:50-54 | a found region contains `current`; a failed query ends the walk |
| MemoryScanner.MemoryScanner.ScanRegion | include/mem/scanning/memory_scanner.h:56-80 | a region found at `current` is streamed over exactly the window from `current` to the nearer of `end` and the region's end |
| MemoryScanner.MemoryScanner.ScanWindow | include/mem/scanning/memory_scanner.h:65-79 | the block loop's results and reads are the stream over `[scan_start, scan_end)` |
| MemoryScanner.Report | include/mem/scanning/memory_scanner.h:75-78 | the callback appends each offset plus `read_pos` to the results |
| MemoryScanner.StreamAdvance | include/mem/scanning/memory_scanner.h:69-79 | one block iteration (read, a failed read skipped, callback, advance by `block_size`) keeps the loop invariant |
| MemoryScanner.StreamStep | include/mem/scanning/memory_scanner.h:69-71 | each read asks for `min(block_size + overlap, scan_end - read_pos)` bytes at `read_pos` |
| MemoryScanner.BlockFound | include/mem/scanning/memory_scanner.h:72-78 | a failed read contributes nothing; a successful one contributes the shifted match offsets |
| MemoryScanner.StreamSnoc | include/mem/scanning/memory_scanner.h:56-80 | results of a region are appended after those of earlier regions |
| MemoryScanner.RegionsAdvance | include/mem/scanning/memory_scanner.h:56-82 | after a region `current` becomes `start + size`, and only regions with equal flags add a window |
| MemoryScanner.RegionsStop | include/mem/scanning/memory_scanner.h:51-54 | a failed query is the last one and ends the walk |
| MemoryScanner.RegionsEnd | include/mem/scanning/memory_scanner.h:48 | the walk ends once `current` reaches `end` |
| MemoryScanner.WindowReadable | include/mem/scanning/memory_scanner.h:61-63 | the window starts at `current`, is non-empty, and is readable when the configured flags include read |
| ScanProperties.BlockSound | include/mem/scanning/memory_scanner.h:72-78 | every address reported for a block holds an occurrence inside the bytes read; ascending |
| ScanProperties.BlockComplete | include/mem/scanning/memory_scanner.h:72-78 | every occurrence inside a block that was read is reported |
| ScanProperties.StreamSound | include/mem/scanning/memory_scanner.h:65-79 | a window's stream reports only occurrences inside the window, strictly ascending because hits start before the next block |
| ScanProperties.StreamComplete | include/mem/scanning/memory_scanner.h:65-79 | an occurrence inside the window is reported when its covering block's read succeeds, including one straddling a block boundary |
| ScanProperties.StreamRequests | include/mem/scanning/memory_scanner.h:65-71 | reads start at `scan_start`, advance by `block_size`, stay below `scan_end` and ask for `min(block_size + overlap, scan_end - read_pos)` bytes |
| ScanProperties.WindowComplete | include/mem/scanning/memory_scanner.h:61-79 | the stream over a readable window reports every occurrence inside it |
| ScanProperties.StreamAllSound | include/mem/scanning/memory_scanner.h:56-80 | all reported addresses hold occurrences inside a window; ascending when the windows are ordered |
| ScanProperties.StreamAllComplete | include/mem/scanning/memory_scanner.h:56-80 | an occurrence in any readable window is reported |
| ScanProperties.StreamAllRequests | include/mem/scanning/memory_scanner.h:61-71 | every read stays inside one window and asks for at most `block_size + overlap` bytes |
| ScanProperties.RegionsQueries | include/mem/scanning/memory_scanner.h:48-82 | queries start at `current`, each next one at the end of the region found, all below `end` |
| ScanProperties.RegionsWindows | include/mem/scanning/memory_scanner.h:56-63 | windows are ascending, disjoint, non-empty, inside the range, and every address in them has the configured flags |
| ScanProperties.RegionsWhole | include/mem/scanning/memory_scanner.h:56-63 | no window of the walk crosses the start of a mapping, since each lies inside one region |
| ScanProperties.ScanWindows | include/mem/scanning/memory_scanner.h:48-82 | the windows of the scan's walk are ordered, inside `[start, end)`, of the configured flags, and each inside one mapping |
| ScanProperties.RegionsCover | include/mem/scanning/memory_scanner.h:48-82 | a stretch mapped with the configured flags that crosses the start of no mapping, and that the walk reaches from `current`, lies inside one window |
| ScanProperties.ScanSound | include/mem/scanning/memory_scanner.h:38-86 | results strictly ascending; each holds an occurrence inside `[start, end)` on bytes with exactly the configured flags that crosses the start of no mapping |
| ScanProperties.ScanComplete | include/mem/scanning/memory_scanner.h:38-86 | every occurrence on readable bytes with the configured flags inside `[start, end)` that crosses the start of no mapping is reported, given a region walk that reaches it |
| ScanProperties.ScanRequests | include/mem/scanning/memory_scanner.h:65-71 | every read is non-empty, at most `block_size + pattern_size - 1` bytes, inside `[start, end)`, on bytes with the configured flags |
| ScanProperties.ScanQueries | include/mem/scanning/memory_scanner.h:48-82 | the queries are chained from `start`; the last one fails or reaches `end` |
| ScanProperties.ScanUnreachable | include/mem/scanning/memory_scanner.h:48-54 | an unreachable target gets one failed query and no reads or results |

## Left out

- The operating system calls are contracts over the modelled OS of module `Os`, not the real API. This covers `VirtualAlloc(Ex)`, `VirtualQuery(Ex)`, `VirtualProtect(Ex)`, `VirtualFree(Ex)`, `ReadProcessMemory`/`WriteProcessMemory`, `OpenProcess`/`CloseHandle`, `mmap`/`munmap`/`mprotect`, `malloc`/`free` and `memcpy`/`memset`. Page granularity, page rounding and partial copies are not modelled. In particular `Os.AddressSpace.Protect` refuses a zero-sized range, so `protect_modify(addr, 0, flags)` fails in the model, whereas `mprotect` accepts it on an aligned address and `VirtualProtect` acts on the page that holds `addr`.
- `page_size` (`sysconf`/`GetSystemInfo`) is left out: it reads the system and is not called by the rest of the core.
- `prot_flags.h` is not part of this model. The translation uses the Linux `PROT_*` values. The Windows `PAGE_*` translation is not modelled.
- In `iter_proc_maps`, opening and reading `/proc/self/maps` (`fopen`, `fgets`) and `sscanf` are left out. The walk receives what `sscanf` returned for each line.
- The unix backend's `query_region` is modelled by `Os.Memory.Query` without free regions: one region per mapping, cut where the protection changes. The maps walk that implements it is modelled and proved separately in `ProcMaps`. No lemma connects the two, because the model does not produce the text of the maps table from the memory state.
- `Os.Memory.Query`: the region starts where the run of equal protection begins inside its mapping, as a maps line does. `VirtualQuery` instead reports from the page of the queried address. The scanner starts at `max(current, base)`, so its results do not depend on this.
- `Os.Memory.Query`: the places where the OS splits memory into mappings are the `bases` of the memory state, fixed by the initial state and extended by each new mapping. The model does not split or merge mappings on `mprotect` or `munmap` of part of one.
- The pattern strategies, `pattern.h` and their search code are left out. A strategy is its pattern of literal and wildcard bytes.
- `Access.DataAccessor.Read`: for the local backend, it requires the source range to be readable, because `memcpy` from unreadable memory faults rather than returning false.
- `Access.DataAccessor.Write`, `Access.DataAccessor.DefaultFill` and `Access.DataAccessor.Fill`: for the local backend, they require the target range to be writable, for the same reason.
- `Access.DataAccessor.Free`: for the local backend, it requires a live heap block, because `free` of anything else is undefined behaviour.
- `Access.DataAccessor.Alloc`: the local `std::malloc` is modelled by one behaviour of its own choosing, not by all that `malloc` allows. Each block is a fresh mapping of its own at the top of the space, zero-filled, and `malloc(0)` gives null. The real `malloc` leaves the block uninitialised, usually carves it out of an existing heap mapping (so a region query need not report it as a region of its own), and may return a unique non-null pointer for size 0.
- `Access.DataAccessor.ProtectModify`: a zero-sized range is refused (the result is false), because the model has no pages to round to; see the first line of this section.
- `Access.DataAccessor.Free`: the local `std::free` is modelled as unmapping the block, consistent with the model's `malloc`. A real heap normally keeps freed memory mapped.
- `Access.DataAccessor.MoveAssign`: both accessors must share one kernel handle table, since the model has one table per process.
- `Os.Kernel.CloseHandle`: closing a handle that is not open is a precondition, because no path of the accessors does it.
- `MemoryScanner.MemoryScanner.Scan`: for a local accessor, it requires the configured flags to include read (or be INVALID). Otherwise `memcpy` faults on the regions the scanner selects.
- `MemoryScanner.MemoryScanner.Scan`: addresses are unbounded. Mapped memory lies below 2^64 - 1, so `base_address + region_size` cannot wrap. The wrap-around of `read_pos += block_size` past 2^64 is not modelled.
- `MemoryScanner.MemoryScanner.Scan`: the read buffer (`std::vector<byte>`, `memory_scanner.h:66`) is modelled outside the target memory, and the memory is a snapshot that does not change during the scan. In the local backend the real buffer lives in the scanned address space: allocating it can add or grow a heap mapping that the walk then queries, and a scan for read-write memory can report copies of the pattern that sit in the buffer itself.
- `Access.DataAccessor.DefaultFill`: the 4096-byte staging array (`data_accessor.h:45`) is modelled outside the target memory. In the local backend it lives on the stack of the address space being written, so a fill that covers the array itself is not modelled.
- `MemoryScanner.MemoryScanner.Scan`: the ghost outputs `queries` and `requests` record the calls made, for the lemmas. The source has no such outputs.
- `MemoryScanner.Regions`: the walk also stops on a region that does not lie past `current`, so that the walk provably ends. A query never reports such a region, as `Os.Memory.Query` proves.
- `ScanProperties.ScanComplete`: it covers only occurrences that cross the start of no mapping. The source clips every read at its region's end, so it never reports an occurrence that straddles two neighbouring mappings with the configured flags; `ScanProperties.ScanSound` proves that converse.
- `ScanProperties.ScanComplete`: it requires the walk to reach the occurrence. Either the backend reports free regions, or every address from `start` to the occurrence is mapped, because the maps-based query ends the walk at the first unmapped address.
- `Guard.GuardedScope` and `Guard.MovedScope`: they require the guarded range to be uniformly protected. The guard captures only the first page's flags and restores all pages to them.
- `Mem.Pointer.Offset`: the source adds in `intptr_t` (`mem.h:231`), where signed overflow is undefined behaviour. The model defines it as wrap-around modulo 2^64, what common compilers produce; the contract's wrapping cases describe that choice, not a promise of the source.
- `Mem.Pointer.Diff`: the source subtracts in `intptr_t` (`mem.h:274`), with the same undefined overflow, also modelled as wrap-around; the round trip through `rhs.add` holds under that choice only.
- The unsafe reinterpretations of `mem.h` are left out: `deref`, `at`, the `as<T>` forms, `rcast`, `rip`, `field`, `vfunc`, `bit_cast` and `any_pointer`. They read raw memory of the running program.
- The forwarding `pointer::read`/`write`/`fill`/`read_at`/`write_at` are left out. They only call the accessor.
- `stub.h` is not part of this model. It is a foreign call through a function pointer.
- The singletons `get_default_accessor` and `get_default_scanner`, and the forwarding `scan(config, args...)` and `scan_default`, are left out. They hold no logic of their own.
- `remote_memory_accessor::handle()` is left out: it only returns the field, which is public in the model.
- `current_process_accessor` is left out: it is a non-owning remote accessor, so `RemoteWith` with `owns == false` covers it.

Where the code does not compile or reads a missing member, the model follows the evident intent:

- In `iter_proc_maps`, the first `sscanf` target is taken to be the entry's `start`. The code names a `region.start` that does not exist at that point (`proc_maps_utils.h:94`).
- In the unix `protect_free`, the length passed to `munmap` is the `size` parameter. The code names an undeclared `length` (`local_memory_accessor.h:90`).
- `protect`'s constructor calls `protect_modify` after the accessor pointer is set. In the code, members initialise in declaration order, so `success_` is computed through the accessor pointer before that pointer is set (`protect.h:44-46`, `91-96`).
- `scan_config` has no `block_size` member, but the scanner reads one. The model adds a positive `blockSize` field, with 4096 as its default.
- Both backends and the default `fill` treat `write`'s first argument as the target, whatever the parameter names say. The model follows the code.

## Findings

| source | as written | input that shows it | evidently intended | confidence | as-written member | corrected member |
|---|---|---|---|---|---|---|
| include/mem/memory/region.h:75 | `operator==` requires the flags to differ | any region compared with itself gives false; two regions differing only in flags give true for both `==` and `!=` | all three fields equal, the negation of `!=` | not executed | Regions.EqAsWrittenIsWrong | Regions.EqIsNegationOfNe |
| include/mem/access/proc_maps_utils.h:66 | region size is `start - end` | entry `[0x1000, 0x2000)` queried at `0x1800` reports size `2^64 - 0x1000` | size `end - start`, a region containing the address | not executed | ProcMaps.RegionSizeAsWrittenIsWrong | ProcMaps.RegionQueryContainsAddress |

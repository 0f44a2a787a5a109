/** The memory-accessor interface `data_accessor` and its two backends,
    `local_memory_accessor` and `remote_memory_accessor`. Without traits the
    interface is one class whose `backend` is chosen at construction; each
    method dispatches to the backend's code. Both backends call into the
    modelled OS of module Os. */
module Access {
  import opened Word
  import opened ProtFlags
  import opened Common
  import opened Os

  datatype Platform = Windows | Unix

  datatype Backend = Local(platform: Platform) | Remote

  /** The staging-buffer size of the default `fill`. */
  const ChunkSize: nat := 4096

  /** A `prot_flags*` out-parameter. */
  class FlagsBox {
    var value: Flags

    constructor (v: Flags)
      ensures value == v
    {
      value := v;
    }
  }

  /** What an accessor observes of its target: the target's memory, whether
      its calls reach the target (always for the local backend; for the
      remote one only while its handle is open), and whether a region query
      reports unmapped gaps as free regions (VirtualQuery and VirtualQueryEx
      do; the unix maps table does not). */
  datatype View = View(mem: Memory, reachable: bool, reportsFree: bool) {

    /** A read of `[src, src + size)` is accepted and transfers every byte. */
    predicate ReadOk(src: nat, size: nat) {
      src != 0 && size > 0 && reachable && mem.Readable(src, size)
    }

    /** A write of `[dst, dst + size)` is accepted and transfers every byte. */
    predicate WriteOk(dst: nat, size: nat) {
      dst != 0 && size > 0 && reachable && mem.Writable(dst, size)
    }

    /** The answer of `query_region(addr)`. */
    function QueryAt(addr: nat): Option<RegionInfo>
      requires mem.Valid()
    {
      if reachable then mem.Query(addr, reportsFree) else None
    }

    /** The answer of `protect_query(addr)`: the region's flags, or INVALID
        when there is no region. */
    function FlagsAt(addr: nat): (f: Flags)
      requires mem.Valid()
      ensures reachable && addr in mem.prot ==> f == mem.prot[addr]
      ensures addr !in mem.prot ==> f == (if reachable && reportsFree && addr < Limit then NONE else Invalid)
      ensures !reachable ==> f == Invalid
    {
      match QueryAt(addr)
      case Some(r) => r.flags
      case None => Invalid
    }

    /** `protect_modify(addr, size, flags)` succeeds. */
    predicate ModifyOk(addr: nat, size: nat, flags: Flags) {
      flags.Prot? && reachable && size > 0 && mem.MappedRange(addr, size)
    }
  }

  /** One `write` issued by the default `fill`: where, and how many bytes. */
  datatype Chunk = Chunk(addr: nat, len: nat)

  function TotalLen(cs: seq<Chunk>): nat {
    if cs == [] then 0 else cs[0].len + TotalLen(cs[1..])
  }

  /** The writes the default `fill` issues for `[dst, dst + size)`:
      `min(remaining, 4096)` bytes at a time, from `dst` upwards. */
  function Chunks(dst: nat, size: nat): (cs: seq<Chunk>)
    ensures size > 0 <==> |cs| > 0
    decreases size
  {
    if size == 0 then []
    else
      var n := if size < ChunkSize then size else ChunkSize;
      [Chunk(dst, n)] + Chunks(dst + n, size - n)
  }

  /** Every chunk is non-empty and at most 4096 bytes, all but the last are
      full, the i-th starts at `dst + i * 4096`, and together they cover
      exactly `size` bytes. */
  lemma {:induction false} ChunksShape(dst: nat, size: nat)
    ensures var cs := Chunks(dst, size);
      && (forall i | 0 <= i < |cs| :: 0 < cs[i].len <= ChunkSize && cs[i].addr == dst + i * ChunkSize)
      && (forall i | 0 <= i < |cs| - 1 :: cs[i].len == ChunkSize)
      && TotalLen(cs) == size
    decreases size
  {
    if size > 0 {
      var n := if size < ChunkSize then size else ChunkSize;
      var cs := Chunks(dst, size);
      var rest := Chunks(dst + n, size - n);
      ChunksShape(dst + n, size - n);
      assert cs == [Chunk(dst, n)] + rest;
      assert cs[1..] == rest;
      forall i | 1 <= i < |cs|
        ensures cs[i].addr == dst + i * ChunkSize
      {
        assert cs[i] == rest[i - 1];
      }
    }
  }

  /** The chunks are contiguous and end exactly at `dst + size`. */
  lemma {:induction false} ChunksTile(dst: nat, size: nat)
    ensures var cs := Chunks(dst, size);
      && (forall i | 0 <= i < |cs| - 1 :: cs[i + 1].addr == cs[i].addr + cs[i].len)
      && (size > 0 ==> cs[|cs| - 1].addr + cs[|cs| - 1].len == dst + size)
    decreases size
  {
    var cs := Chunks(dst, size);
    if size > ChunkSize {
      ChunksTile(dst + ChunkSize, size - ChunkSize);
      var rest := Chunks(dst + ChunkSize, size - ChunkSize);
      assert cs == [Chunk(dst, ChunkSize)] + rest;
      assert cs[|cs| - 1] == rest[|rest| - 1];
    }
  }

  /** There are `ceil(size / 4096)` chunks. */
  lemma {:induction false} ChunksCount(dst: nat, size: nat)
    ensures |Chunks(dst, size)| == (size + ChunkSize - 1) / ChunkSize
    decreases size
  {
    if size > ChunkSize {
      ChunksCount(dst + ChunkSize, size - ChunkSize);
      assert (size + ChunkSize - 1) / ChunkSize == 1 + (size - 1) / ChunkSize;
    }
  }

  /** After `k` full chunks, a further chunk of at most 4096 bytes is the
      last chunk of the longer range. */
  lemma {:induction false} ChunksAppend(dst: nat, k: nat, n: nat)
    requires 0 < n <= ChunkSize
    ensures Chunks(dst, k * ChunkSize + n) == Chunks(dst, k * ChunkSize) + [Chunk(dst + k * ChunkSize, n)]
    decreases k
  {
    if k > 0 {
      ChunksAppend(dst + ChunkSize, k - 1, n);
      assert k * ChunkSize + n - ChunkSize == (k - 1) * ChunkSize + n;
      assert Chunks(dst, k * ChunkSize + n) == [Chunk(dst, ChunkSize)] + Chunks(dst + ChunkSize, (k - 1) * ChunkSize + n);
      assert Chunks(dst, k * ChunkSize) == [Chunk(dst, ChunkSize)] + Chunks(dst + ChunkSize, (k - 1) * ChunkSize);
    }
  }

  /** The chunks of a range of `k` full chunks, or of the whole range, begin
      the chunks of the whole range. */
  lemma {:induction false} ChunksPrefix(dst: nat, a: nat, size: nat, k: nat)
    requires a <= size && (a == k * ChunkSize || a == size)
    ensures |Chunks(dst, a)| <= |Chunks(dst, size)|
    ensures Chunks(dst, a) == Chunks(dst, size)[..|Chunks(dst, a)|]
    decreases a
  {
    if a > 0 && a < size {
      assert k > 0;
      ChunksPrefix(dst + ChunkSize, a - ChunkSize, size - ChunkSize, k - 1);
      assert Chunks(dst, a) == [Chunk(dst, ChunkSize)] + Chunks(dst + ChunkSize, a - ChunkSize);
      assert Chunks(dst, size) == [Chunk(dst, ChunkSize)] + Chunks(dst + ChunkSize, size - ChunkSize);
    }
  }

  /** Writing `n` copies of `v` right after a filled range fills the union. */
  lemma FillStep(m: Memory, dst: nat, k: nat, n: nat, v: byte, data: seq<byte>)
    requires data == seq(n, _ => v)
    ensures m.FillAt(dst, k, v).WriteAt(dst + k, data) == m.FillAt(dst, k + n, v)
  {
    var l := m.FillAt(dst, k, v).WriteAt(dst + k, data);
    var r := m.FillAt(dst, k + n, v);
    assert l.bytes == r.bytes;
  }

  /** A range inside a writable range is writable. */
  lemma WritableWithin(m: Memory, a: nat, n: nat, b: nat, k: nat)
    requires m.Writable(a, n) && a <= b && b + k <= a + n
    ensures m.Writable(b, k)
  {
  }

  /** Two adjacent writable ranges form a writable range. */
  lemma WritableJoin(m: Memory, a: nat, k: nat, n: nat)
    requires m.Writable(a, k) && m.Writable(a + k, n)
    ensures m.Writable(a, k + n)
  {
    forall x | a <= x < a + k + n
      ensures x in m.prot && m.prot[x].Prot? && m.prot[x].write
    {
      if x >= a + k {
        assert a + k <= x < a + k + n;
      }
    }
  }

  /** Writability of a range is writability of each of its two parts. */
  lemma WritableSplit(m: Memory, dst: nat, k: nat, n: nat)
    ensures m.Writable(dst, k + n) <==> m.Writable(dst, k) && m.Writable(dst + k, n)
  {
    if m.Writable(dst, k) && m.Writable(dst + k, n) {
      forall a | dst <= a < dst + k + n
        ensures a in m.prot && m.prot[a].Prot? && m.prot[a].write
      {
        if a >= dst + k {
          assert dst + k <= a < dst + k + n;
        }
      }
    }
  }

  class DataAccessor {
    const backend: Backend
    var space: AddressSpace
    const kernel: Kernel
    var handle: nat
    var ownsHandle: bool

    /** A local accessor holds no handle; an owned handle is registered in the
        kernel as owned by this accessor and by no other. */
    ghost predicate Valid()
      reads this, space, kernel
    {
      && space.Valid() && kernel.Valid()
      && (backend.Local? ==> handle == 0 && !ownsHandle)
      && (ownsHandle ==> handle in kernel.owner && kernel.owner[handle] == this)
    }

    /** The calls reach the target: always locally, remotely while the handle is open. */
    predicate Reachable()
      reads this, kernel
    {
      backend.Local? || handle in kernel.open
    }

    function Observed(): View
      reads this, space, kernel
    {
      View(space.mem, Reachable(), backend != Local(Unix))
    }

    /** `local_memory_accessor()`. */
    constructor ForLocal(platform: Platform, space: AddressSpace, kernel: Kernel)
      requires space.Valid() && kernel.Valid()
      ensures Valid() && backend == Local(platform) && this.space == space && this.kernel == kernel
    {
      this.backend := Local(platform);
      this.space := space;
      this.kernel := kernel;
      this.handle := 0;
      this.ownsHandle := false;
    }

    /** The protected `remote_memory_accessor(handle, owns = false)`; an owning
        one registers itself as the handle's owner. */
    constructor RemoteWith(handle: nat, owns: bool, space: AddressSpace, kernel: Kernel)
      requires space.Valid() && kernel.Valid()
      requires owns ==> handle in kernel.open && handle !in kernel.owner
      modifies kernel
      ensures Valid() && backend == Remote && this.space == space && this.kernel == kernel
      ensures this.handle == handle && ownsHandle == owns
      ensures kernel.open == old(kernel.open)
      ensures kernel.owner == if owns then old(kernel.owner)[handle := this] else old(kernel.owner)
    {
      this.backend := Remote;
      this.space := space;
      this.kernel := kernel;
      this.handle := handle;
      this.ownsHandle := owns;
      new;
      if owns {
        kernel.owner := kernel.owner[handle := this];
      }
    }

    /** `create(DWORD pid)`: opens the process and owns the handle; when the
        process cannot be opened there is no accessor (the source throws). */
    static method CreateFromPid(pid: nat, space: AddressSpace, kernel: Kernel) returns (acc: DataAccessor?)
      requires space.Valid() && kernel.Valid()
      modifies kernel
      ensures acc == null <==> pid !in kernel.live
      ensures acc == null ==> kernel.open == old(kernel.open) && kernel.owner == old(kernel.owner)
      ensures acc != null ==>
        && fresh(acc) && acc.Valid() && acc.backend == Remote && acc.space == space && acc.kernel == kernel
        && acc.ownsHandle && acc.handle !in old(kernel.open)
        && kernel.open == old(kernel.open) + {acc.handle}
        && kernel.owner == old(kernel.owner)[acc.handle := acc]
    {
      var h := kernel.OpenProcess(pid);
      if h == 0 {
        return null;
      }
      acc := new DataAccessor.RemoteWith(h, true, space, kernel);
    }

    /** `create(HANDLE handle)`: refuses null and INVALID_HANDLE_VALUE (the
        source throws) and never takes ownership. */
    static method CreateFromHandle(handle: nat, space: AddressSpace, kernel: Kernel) returns (acc: DataAccessor?)
      requires space.Valid() && kernel.Valid()
      modifies kernel
      ensures acc == null <==> handle == 0 || handle == InvalidHandle
      ensures kernel.open == old(kernel.open) && kernel.owner == old(kernel.owner)
      ensures acc != null ==>
        fresh(acc) && acc.Valid() && acc.backend == Remote && acc.handle == handle && !acc.ownsHandle
    {
      if handle == 0 || handle == InvalidHandle {
        return null;
      }
      acc := new DataAccessor.RemoteWith(handle, false, space, kernel);
    }

    /** `~remote_memory_accessor()`: closes the handle exactly when this
        accessor owns it; a caller-supplied handle stays open. */
    method Dispose()
      requires Valid() && backend.Remote?
      modifies kernel
      ensures kernel.Valid()
      ensures ownsHandle ==>
        kernel.open == old(kernel.open) - {handle} && kernel.owner == old(kernel.owner) - {handle}
      ensures !ownsHandle ==> kernel.open == old(kernel.open) && kernel.owner == old(kernel.owner)
    {
      if ownsHandle && handle != 0 && handle != InvalidHandle {
        kernel.owner := kernel.owner - {handle};
        kernel.CloseHandle(handle);
      }
    }

    /** `remote_memory_accessor(remote_memory_accessor&&)`: takes the handle
        and its ownership and leaves the source null and non-owning. */
    constructor MoveFrom(other: DataAccessor)
      requires other.Valid() && other.backend.Remote?
      modifies other, other.kernel
      ensures Valid() && backend == Remote && space == old(other.space) && kernel == other.kernel
      ensures handle == old(other.handle) && ownsHandle == old(other.ownsHandle)
      ensures other.handle == 0 && !other.ownsHandle && other.Valid()
      ensures kernel.open == old(other.kernel.open)
      ensures kernel.owner == if ownsHandle then old(other.kernel.owner)[handle := this] else old(other.kernel.owner)
    {
      this.backend := Remote;
      this.space := other.space;
      this.kernel := other.kernel;
      this.handle := other.handle;
      this.ownsHandle := other.ownsHandle;
      new;
      other.handle := 0;
      other.ownsHandle := false;
      if ownsHandle {
        kernel.owner := kernel.owner[handle := this];
      }
    }

    /** `operator=(remote_memory_accessor&&)`: a no-op on itself; otherwise it
        first closes a handle it owns, then takes the other's handle and
        ownership and leaves the other null and non-owning. */
    method MoveAssign(other: DataAccessor)
      requires Valid() && other.Valid() && backend.Remote? && other.backend.Remote?
      requires other.kernel == kernel
      modifies this, other, kernel
      ensures Valid() && other.Valid()
      ensures other == this ==>
        handle == old(handle) && ownsHandle == old(ownsHandle) && space == old(space)
        && kernel.open == old(kernel.open) && kernel.owner == old(kernel.owner)
      ensures other != this ==>
        && handle == old(other.handle) && ownsHandle == old(other.ownsHandle) && space == old(other.space)
        && other.handle == 0 && !other.ownsHandle
        && kernel.open == (if old(ownsHandle) then old(kernel.open) - {old(handle)} else old(kernel.open))
        && kernel.owner == (var kept := if old(ownsHandle) then old(kernel.owner) - {old(handle)} else old(kernel.owner);
                            if ownsHandle then kept[handle := this] else kept)
    {
      if this != other {
        if ownsHandle && handle != 0 && handle != InvalidHandle {
          kernel.owner := kernel.owner - {handle};
          kernel.CloseHandle(handle);
        }
        handle := other.handle;
        ownsHandle := other.ownsHandle;
        space := other.space;
        other.handle := 0;
        other.ownsHandle := false;
        if ownsHandle {
          kernel.owner := kernel.owner[handle := this];
        }
      }
    }

    /** `read(src, dst, size)`: copies `size` bytes of the target at `src`
        into the local buffer `dst`. Null arguments and a zero size are
        refused before any copy. The local memcpy faults on unreadable memory
        (a precondition); the remote copy reports failure instead. */
    method Read(src: nat, dst: array?<byte>, size: nat) returns (ok: bool)
      requires Valid()
      requires dst != null ==> size <= dst.Length
      requires backend.Local? && src != 0 && dst != null && size > 0 ==> space.mem.Readable(src, size)
      modifies dst
      ensures ok == (dst != null && Observed().ReadOk(src, size))
      ensures ok ==> dst[..size] == space.mem.BytesAt(src, size) && dst[size..] == old(dst[size..])
      ensures !ok && dst != null ==> dst[..] == old(dst[..])
    {
      if src == 0 || dst == null || size == 0 {
        return false;
      }
      match backend
      case Local(_) =>
        space.CopyOut(src, dst, size);
        ok := true;
      case Remote =>
        var success, transferred := ReadProcessMemory(src, dst, size);
        ok := success && transferred == size;
    }

    /** ReadProcessMemory through the handle. */
    method ReadProcessMemory(src: nat, dst: array<byte>, size: nat) returns (success: bool, transferred: nat)
      requires Valid() && backend.Remote? && size <= dst.Length
      modifies dst
      ensures success == (Reachable() && space.mem.Readable(src, size))
      ensures success ==> transferred == size && dst[..size] == space.mem.BytesAt(src, size) && dst[size..] == old(dst[size..])
      ensures !success ==> transferred == 0 && dst[..] == old(dst[..])
    {
      if handle in kernel.open && space.mem.Readable(src, size) {
        space.CopyOut(src, dst, size);
        success, transferred := true, size;
      } else {
        success, transferred := false, 0;
      }
    }

    /** `write(target, source, size)`: copies `size` bytes of the local
        buffer `source` to `target`. In every backend the FIRST argument is
        the target, whatever the parameter names say. */
    method Write(target: nat, source: array?<byte>, size: nat) returns (ok: bool)
      requires Valid()
      requires source != null ==> size <= source.Length
      requires backend.Local? && target != 0 && source != null && size > 0 ==> space.mem.Writable(target, size)
      modifies space
      ensures Valid()
      ensures ok == (source != null && old(Observed()).WriteOk(target, size))
      ensures ok ==> space.mem == old(space.mem).WriteAt(target, source[..size])
      ensures !ok ==> space.mem == old(space.mem)
    {
      if target == 0 || source == null || size == 0 {
        return false;
      }
      match backend
      case Local(_) =>
        space.CopyIn(target, source, size);
        ok := true;
      case Remote =>
        var success, transferred := WriteProcessMemory(target, source, size);
        ok := success && transferred == size;
    }

    /** WriteProcessMemory through the handle. */
    method WriteProcessMemory(dst: nat, src: array<byte>, size: nat) returns (success: bool, transferred: nat)
      requires Valid() && backend.Remote? && size <= src.Length
      modifies space
      ensures Valid()
      ensures success == (Reachable() && old(space.mem).Writable(dst, size))
      ensures success ==> transferred == size && space.mem == old(space.mem).WriteAt(dst, src[..size])
      ensures !success ==> transferred == 0 && space.mem == old(space.mem)
    {
      if handle in kernel.open && space.mem.Writable(dst, size) {
        space.CopyIn(dst, src, size);
        success, transferred := true, size;
      } else {
        success, transferred := false, 0;
      }
    }

    /** `data_accessor::fill`, the default that the remote backend inherits:
        refuses a null target or a zero size, then writes a 4096-byte staging
        buffer of `value` chunk by chunk and gives up at the first failed
        write. `attempts` lists the writes issued. */
    method DefaultFill(dst: nat, value: byte, size: nat) returns (ok: bool, ghost attempts: seq<Chunk>)
      requires Valid()
      requires backend.Local? && dst != 0 && size > 0 ==> space.mem.Writable(dst, size)
      modifies space
      ensures Valid()
      ensures ok == old(Observed()).WriteOk(dst, size)
      ensures dst == 0 || size == 0 ==> attempts == [] && space.mem == old(space.mem)
      ensures ok ==> attempts == Chunks(dst, size) && space.mem == old(space.mem).FillAt(dst, size, value)
      ensures !ok && dst != 0 && size > 0 ==>
        && 0 < |attempts| <= |Chunks(dst, size)|
        && attempts == Chunks(dst, size)[..|attempts|]
        && space.mem == old(space.mem).FillAt(dst, (|attempts| - 1) * ChunkSize, value)
    {
      attempts := [];
      if dst == 0 || size == 0 {
        return false, attempts;
      }
      ghost var m0 := space.mem;
      ghost var reach := Reachable();
      var buffer := new byte[ChunkSize](_ => value);
      var done, n;
      ok, attempts, done, n := FillLoop(m0, reach, dst, value, size, buffer);
      if !ok {
        ChunksPrefix(dst, done + n, size, |attempts|);
        if reach && m0.Writable(dst, size) {
          WritableWithin(m0, dst, size, dst + done, n);
        }
      }
    }

    /** The loop of the default fill. On failure, `done` bytes were filled
        and the write of the next `n` failed. */
    method FillLoop(ghost m0: Memory, ghost reach: bool, dst: nat, value: byte, size: nat, buffer: array<byte>)
      returns (ok: bool, ghost attempts: seq<Chunk>, done: nat, n: nat)
      requires Valid() && dst > 0 && size > 0 && space.mem == m0 && reach == Reachable()
      requires buffer.Length == ChunkSize && buffer[..] == seq(ChunkSize, _ => value)
      requires backend.Local? ==> m0.Writable(dst, size)
      modifies space
      ensures Valid() && space == old(space)
      ensures ok ==> attempts == Chunks(dst, size) && space.mem == m0.FillAt(dst, size, value) && reach && m0.Writable(dst, size)
      ensures !ok ==>
        && 0 < n && done + n <= size && done == (|attempts| - 1) * ChunkSize
        && (done + n == |attempts| * ChunkSize || done + n == size)
        && attempts == Chunks(dst, done + n)
        && space.mem == m0.FillAt(dst, done, value)
        && !(reach && m0.Writable(dst + done, n))
    {
      attempts, done, n := [], 0, 0;
      while done < size
        invariant Valid() && space == old(space)
        invariant done <= size
        invariant done < size ==> done == |attempts| * ChunkSize
        invariant attempts == Chunks(dst, done)
        invariant space.mem == m0.FillAt(dst, done, value)
        invariant done > 0 ==> reach && m0.Writable(dst, done)
        decreases size - done
      {
        var written;
        written, n, attempts := FillNext(m0, reach, dst, value, size, buffer, done, attempts);
        if !written {
          return false, attempts, done, n;
        }
        done := done + n;
      }
      return true, attempts, done, n;
    }

    /** One iteration of the default fill: the next chunk after `done`
        filled bytes is attempted and recorded. */
    method FillNext(ghost m0: Memory, ghost reach: bool, dst: nat, value: byte, size: nat, buffer: array<byte>,
                    done: nat, ghost attempts: seq<Chunk>)
      returns (written: bool, n: nat, ghost attempts': seq<Chunk>)
      requires Valid() && dst > 0 && done < size && reach == Reachable()
      requires buffer.Length == ChunkSize && buffer[..] == seq(ChunkSize, _ => value)
      requires backend.Local? ==> m0.Writable(dst, size)
      requires done == |attempts| * ChunkSize && attempts == Chunks(dst, done)
      requires space.mem == m0.FillAt(dst, done, value)
      requires done > 0 ==> reach && m0.Writable(dst, done)
      modifies space
      ensures Valid() && space == old(space)
      ensures 0 < n && done + n <= size && (done + n < size ==> n == ChunkSize)
      ensures |attempts'| == |attempts| + 1 && attempts' == Chunks(dst, done + n)
      ensures done == (|attempts'| - 1) * ChunkSize && (n == ChunkSize ==> done + n == |attempts'| * ChunkSize)
      ensures written ==> space.mem == m0.FillAt(dst, done + n, value) && reach && m0.Writable(dst, done + n)
      ensures !written ==> space.mem == old(space.mem) && !(reach && m0.Writable(dst + done, n))
    {
      n := if size - done < ChunkSize then size - done else ChunkSize;
      ChunksAppend(dst, |attempts|, n);
      attempts' := attempts + [Chunk(dst + done, n)];
      if backend.Local? {
        WritableWithin(m0, dst, size, dst + done, n);
      }
      written := WriteChunk(m0, dst, done, n, value, buffer);
      if written && done > 0 {
        WritableJoin(m0, dst, done, n);
      }
    }

    /** Writes the first `n` bytes of the staging buffer right after the
        `k` bytes already filled. */
    method WriteChunk(ghost m0: Memory, dst: nat, k: nat, n: nat, value: byte, buffer: array<byte>) returns (written: bool)
      requires Valid() && dst > 0 && 0 < n <= ChunkSize == buffer.Length
      requires buffer[..] == seq(ChunkSize, _ => value)
      requires space.mem == m0.FillAt(dst, k, value)
      requires backend.Local? ==> m0.Writable(dst + k, n)
      modifies space
      ensures Valid() && space == old(space)
      ensures written == (Reachable() && m0.Writable(dst + k, n))
      ensures written ==> space.mem == m0.FillAt(dst, k + n, value)
      ensures !written ==> space.mem == old(space.mem)
    {
      assert space.mem.prot == m0.prot;
      written := Write(dst + k, buffer, n);
      if written {
        assert buffer[..n] == seq(n, _ => value);
        FillStep(m0, dst, k, n, value, buffer[..n]);
      }
    }

    /** `fill(dst, value, size)`. The local backend overrides it with a plain
        memset: no null or zero-size check, always true (memset faults on
        memory it cannot write, a precondition). The remote backend uses the
        default chunked fill. */
    method Fill(dst: nat, value: byte, size: nat) returns (ok: bool, ghost attempts: seq<Chunk>)
      requires Valid()
      requires backend.Local? && size > 0 ==> space.mem.Writable(dst, size)
      modifies space
      ensures Valid()
      ensures backend.Local? ==> ok && attempts == [] && space.mem == old(space.mem).FillAt(dst, size, value)
      ensures backend.Remote? ==> ok == old(Observed()).WriteOk(dst, size)
      ensures ok ==> space.mem == old(space.mem).FillAt(dst, size, value)
    {
      if backend.Local? {
        if size > 0 {
          space.Set(dst, value, size);
        } else {
          assert space.mem.FillAt(dst, size, value).bytes == space.mem.bytes;
        }
        return true, [];
      }
      ok, attempts := DefaultFill(dst, value, size);
    }

    /** `protect_alloc(size, flags)`: VirtualAlloc/mmap in the target (through
        the handle for the remote backend); null on failure. */
    method ProtectAlloc(size: nat, flags: Flags) returns (addr: nat)
      requires Valid()
      modifies space
      ensures Valid()
      ensures addr == 0 <==> (!Reachable() || size == 0 || flags.Invalid? || old(space.mem).top + size >= Limit)
      ensures addr == 0 ==> space.mem == old(space.mem)
      ensures addr != 0 ==> space.mem.allocs == old(space.mem).allocs[addr := size]
      ensures addr != 0 ==> forall k | addr <= k < addr + size :: k in space.mem.prot && space.mem.prot[k] == flags
      ensures addr != 0 ==>
        addr == old(space.mem).top
        && space.mem == old(space.mem).Fresh(size, flags).(allocs := old(space.mem).allocs[addr := size])
      ensures addr != 0 ==> forall k | addr <= k < addr + size :: k !in old(space.mem).prot
    {
      if backend.Remote? && handle !in kernel.open {
        return 0;
      }
      addr := space.Allocate(size, flags);
    }

    /** `protect_free(addr, size)`. The local backend does nothing for null,
        else releases the allocation (Windows) or unmaps the range (unix);
        the remote backend releases through VirtualFreeEx with no null check,
        which for null refuses. */
    method ProtectFree(addr: nat, size: nat)
      requires Valid()
      modifies space
      ensures Valid()
      ensures addr == 0 ==> space.mem == old(space.mem)
      ensures backend == Local(Unix) && addr != 0 ==>
        space.mem == old(space.mem).UnmapRange(addr, size).(allocs := old(space.mem).allocs - {addr})
      ensures backend != Local(Unix) && Reachable() && addr in old(space.mem).allocs ==>
        space.mem == old(space.mem).UnmapRange(addr, old(space.mem).allocs[addr]).(allocs := old(space.mem).allocs - {addr})
      ensures backend != Local(Unix) && (!Reachable() || addr !in old(space.mem).allocs) ==> space.mem == old(space.mem)
    {
      match backend
      case Local(platform) =>
        if addr != 0 {
          if platform == Windows {
            space.Release(addr);
          } else {
            space.Unmap(addr, size);
          }
        }
      case Remote =>
        if handle in kernel.open {
          space.Release(addr);
        }
    }

    /** `query_region(addr, region)`: the region containing `addr`, reported
        into a zero-initialised record. */
    method QueryRegion(addr: nat) returns (ok: bool, region: RegionInfo)
      requires Valid()
      ensures ok == Observed().QueryAt(addr).Some?
      ensures ok ==> region == Observed().QueryAt(addr).value
      ensures !ok ==> region == RegionInfo(0, 0, NONE)
    {
      var r := Observed().QueryAt(addr);
      if r.Some? {
        return true, r.value;
      }
      return false, RegionInfo(0, 0, NONE);
    }

    /** `protect_query(addr)`: the flags of the region containing `addr`, or
        INVALID when the query fails. */
    method ProtectQuery(addr: nat) returns (f: Flags)
      requires Valid()
      ensures f == Observed().FlagsAt(addr)
      ensures Reachable() && addr in space.mem.prot ==> f == space.mem.prot[addr]
    {
      var ok, region := QueryRegion(addr);
      f := if ok then region.flags else Invalid;
    }

    /** `protect_modify(addr, size, flags, old_flags)`. INVALID flags are
        refused before anything happens and `*old_flags` is left alone.
        Otherwise Windows and the remote backend write the prior flags on
        success and INVALID on failure, while unix writes what
        `protect_query(addr)` answered before the change, even if the change
        then fails. */
    method ProtectModify(addr: nat, size: nat, flags: Flags, oldFlags: FlagsBox?) returns (ok: bool)
      requires Valid()
      modifies space, oldFlags
      ensures Valid()
      ensures ok == old(Observed()).ModifyOk(addr, size, flags)
      ensures ok ==> space.mem == old(space.mem).SetFlags(addr, size, flags)
      ensures !ok ==> space.mem == old(space.mem)
      ensures oldFlags != null && flags.Invalid? ==> oldFlags.value == old(oldFlags.value)
      ensures oldFlags != null && flags.Prot? && backend == Local(Unix) ==> oldFlags.value == old(Observed()).FlagsAt(addr)
      ensures oldFlags != null && flags.Prot? && backend != Local(Unix) ==>
        oldFlags.value == if ok then old(space.mem.prot[addr]) else Invalid
    {
      if flags.Invalid? {
        return false;
      }
      if backend == Local(Unix) {
        if oldFlags != null {
          var q := ProtectQuery(addr);
          oldFlags.value := q;
        }
        var prior;
        ok, prior := space.Protect(addr, size, flags);
      } else {
        var prior;
        if backend.Remote? && handle !in kernel.open {
          ok, prior := false, Invalid;
        } else {
          ok, prior := space.Protect(addr, size, flags);
        }
        if oldFlags != null {
          oldFlags.value := if ok then prior else Invalid;
        }
      }
    }

    /** `alloc(size)`: malloc for the local backend, `protect_alloc(size, RW)`
        for the remote one. */
    method Alloc(size: nat) returns (addr: nat)
      requires Valid()
      modifies space
      ensures Valid()
      ensures addr == 0 ==> space.mem == old(space.mem)
      ensures addr != 0 ==> addr == old(space.mem).top && forall k | addr <= k < addr + size :: k !in old(space.mem).prot
      ensures backend.Local? ==> (addr == 0 <==> size == 0 || old(space.mem).top + size >= Limit)
      ensures backend.Local? && addr != 0 ==> space.mem.heap == old(space.mem).heap[addr := size] && space.mem.Writable(addr, size)
      ensures backend.Local? && addr != 0 ==>
        space.mem == old(space.mem).Fresh(size, RW).(heap := old(space.mem).heap[addr := size])
      ensures backend.Remote? ==> (addr == 0 <==> !Reachable() || size == 0 || old(space.mem).top + size >= Limit)
      ensures backend.Remote? && addr != 0 ==>
        space.mem.allocs == old(space.mem).allocs[addr := size]
        && (forall k | addr <= k < addr + size :: k in space.mem.prot && space.mem.prot[k] == RW)
        && space.mem == old(space.mem).Fresh(size, RW).(allocs := old(space.mem).allocs[addr := size])
    {
      if backend.Local? {
        addr := space.HeapAlloc(size);
      } else {
        addr := ProtectAlloc(size, RW);
      }
    }

    /** `free(addr)`: the local backend ignores null and otherwise frees a
        live heap block (freeing anything else is undefined, a precondition);
        the remote backend is `protect_free(addr, 0)`. */
    method Free(addr: nat)
      requires Valid()
      requires backend.Local? && addr != 0 ==> addr in space.mem.heap
      modifies space
      ensures Valid()
      ensures addr == 0 ==> space.mem == old(space.mem)
      ensures backend.Local? && addr != 0 ==>
        space.mem == old(space.mem).UnmapRange(addr, old(space.mem).heap[addr]).(heap := old(space.mem).heap - {addr})
      ensures backend.Remote? && Reachable() && addr in old(space.mem).allocs ==>
        space.mem == old(space.mem).UnmapRange(addr, old(space.mem).allocs[addr]).(allocs := old(space.mem).allocs - {addr})
      ensures backend.Remote? && (!Reachable() || addr !in old(space.mem).allocs) ==> space.mem == old(space.mem)
    {
      if backend.Local? {
        if addr == 0 {
          return;
        }
        space.HeapFree(addr);
      } else {
        ProtectFree(addr, 0);
      }
    }
  }
}

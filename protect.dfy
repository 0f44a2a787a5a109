/** The scoped protection guard `mem::protect` and the free functions
    `protect_alloc`, `protect_free`, `protect_query` and `protect_modify`,
    which forward to an accessor. */
module Guard {
  import opened ProtFlags
  import opened Os
  import opened Access
  import opened Regions

  /** `protect_alloc(length, flags, accessor)`. */
  method ProtectAlloc(length: nat, flags: Flags, accessor: DataAccessor) returns (addr: nat)
    requires accessor.Valid()
    modifies accessor.space
    ensures accessor.Valid()
    ensures addr == 0 <==>
      (!accessor.Reachable() || length == 0 || flags.Invalid? || old(accessor.space.mem).top + length >= Limit)
    ensures addr == 0 ==> accessor.space.mem == old(accessor.space.mem)
    ensures addr != 0 ==> accessor.space.mem.allocs == old(accessor.space.mem).allocs[addr := length]
    ensures addr != 0 ==> forall k | addr <= k < addr + length ::
      k in accessor.space.mem.prot && accessor.space.mem.prot[k] == flags
    ensures addr != 0 ==>
      addr == old(accessor.space.mem).top
      && accessor.space.mem == old(accessor.space.mem).Fresh(length, flags).(allocs := old(accessor.space.mem).allocs[addr := length])
    ensures addr != 0 ==> forall k | addr <= k < addr + length :: k !in old(accessor.space.mem).prot
  {
    addr := accessor.ProtectAlloc(length, flags);
  }

  /** `protect_free(memory, length, accessor)`. */
  method ProtectFree(memory: nat, length: nat, accessor: DataAccessor)
    requires accessor.Valid()
    modifies accessor.space
    ensures accessor.Valid()
    ensures memory == 0 ==> accessor.space.mem == old(accessor.space.mem)
    ensures accessor.backend == Local(Unix) && memory != 0 ==>
      accessor.space.mem == old(accessor.space.mem).UnmapRange(memory, length).(allocs := old(accessor.space.mem).allocs - {memory})
    ensures accessor.backend != Local(Unix) && accessor.Reachable() && memory in old(accessor.space.mem).allocs ==>
      accessor.space.mem == old(accessor.space.mem).UnmapRange(memory, old(accessor.space.mem).allocs[memory])
        .(allocs := old(accessor.space.mem).allocs - {memory})
    ensures accessor.backend != Local(Unix) && (!accessor.Reachable() || memory !in old(accessor.space.mem).allocs) ==>
      accessor.space.mem == old(accessor.space.mem)
  {
    accessor.ProtectFree(memory, length);
  }

  /** `protect_query(memory, accessor)`. */
  method ProtectQuery(memory: nat, accessor: DataAccessor) returns (f: Flags)
    requires accessor.Valid()
    ensures f == accessor.Observed().FlagsAt(memory)
    ensures accessor.Reachable() && memory in accessor.space.mem.prot ==> f == accessor.space.mem.prot[memory]
  {
    f := accessor.ProtectQuery(memory);
  }

  /** `protect_modify(memory, length, flags, old_flags, accessor)`. */
  method ProtectModify(memory: nat, length: nat, flags: Flags, oldFlags: FlagsBox?, accessor: DataAccessor)
    returns (ok: bool)
    requires accessor.Valid()
    modifies accessor.space, oldFlags
    ensures accessor.Valid()
    ensures ok == old(accessor.Observed()).ModifyOk(memory, length, flags)
    ensures ok ==> accessor.space.mem == old(accessor.space.mem).SetFlags(memory, length, flags)
    ensures !ok ==> accessor.space.mem == old(accessor.space.mem)
    ensures oldFlags != null && flags.Invalid? ==> oldFlags.value == old(oldFlags.value)
    ensures oldFlags != null && flags.Prot? && accessor.backend == Local(Unix) ==>
      oldFlags.value == old(accessor.Observed()).FlagsAt(memory)
    ensures oldFlags != null && flags.Prot? && accessor.backend != Local(Unix) ==>
      oldFlags.value == if ok then old(accessor.space.mem.prot[memory]) else Invalid
  {
    ok := accessor.ProtectModify(memory, length, flags, oldFlags);
  }

  /** The guard. `region` is the guarded range (the `region` base of the
      class); `oldFlags` is what the constructor captured and `success`
      whether its change took effect, i.e. whether a restore is owed. */
  class Protect {
    var region: Region
    var accessor: DataAccessor
    var oldFlags: Flags
    var success: bool

    /** `protect(range, accessor, flags = RWX)`: changes the range's
        protection and captures the prior flags through the `old_flags`
        out-parameter. The accessor pointer is set before the call. */
    constructor (range: Region, accessor: DataAccessor, flags: Flags := RWX)
      requires accessor.Valid()
      modifies accessor.space
      ensures this.region == range && this.accessor == accessor && accessor.Valid()
      ensures success == old(accessor.Observed()).ModifyOk(range.start.value, range.size, flags)
      ensures success ==> accessor.space.mem == old(accessor.space.mem).SetFlags(range.start.value, range.size, flags)
      ensures !success ==> accessor.space.mem == old(accessor.space.mem)
      ensures flags.Invalid? ==> oldFlags == Invalid
      ensures flags.Prot? && accessor.backend == Local(Unix) ==> oldFlags == old(accessor.Observed()).FlagsAt(range.start.value)
      ensures flags.Prot? && accessor.backend != Local(Unix) ==>
        oldFlags == if success then old(accessor.space.mem.prot[range.start.value]) else Invalid
    {
      this.region := range;
      this.accessor := accessor;
      this.oldFlags := Invalid;
      this.success := false;
      new;
      var box := new FlagsBox(Invalid);
      success := accessor.ProtectModify(range.start.value, range.size, flags, box);
      oldFlags := box.value;
    }

    /** `protect(protect&& rhs)`: takes over the range, the accessor, the
        captured flags and the pending restore, and disarms `rhs`. */
    constructor MoveFrom(rhs: Protect)
      modifies rhs
      ensures region == old(rhs.region) && accessor == old(rhs.accessor)
      ensures oldFlags == old(rhs.oldFlags) && success == old(rhs.success)
      ensures rhs.oldFlags == Invalid && !rhs.success
      ensures rhs.region == old(rhs.region) && rhs.accessor == old(rhs.accessor)
    {
      this.region := rhs.region;
      this.accessor := rhs.accessor;
      this.oldFlags := rhs.oldFlags;
      this.success := rhs.success;
      new;
      rhs.oldFlags := Invalid;
      rhs.success := false;
    }

    /** `~protect()`: restores the captured flags iff the constructor's change
        succeeded and the guard was neither released nor moved from. */
    method Dispose()
      requires accessor.Valid()
      modifies accessor.space
      ensures accessor.Valid()
      ensures !success ==> accessor.space.mem == old(accessor.space.mem)
      ensures success && old(accessor.Observed()).ModifyOk(region.start.value, region.size, oldFlags) ==>
        accessor.space.mem == old(accessor.space.mem).SetFlags(region.start.value, region.size, oldFlags)
      ensures success && !old(accessor.Observed()).ModifyOk(region.start.value, region.size, oldFlags) ==>
        accessor.space.mem == old(accessor.space.mem)
    {
      if success {
        var _ := accessor.ProtectModify(region.start.value, region.size, oldFlags, null);
      }
    }

    /** `explicit operator bool`: a restore is owed. */
    predicate IsActive()
      reads this
    {
      success
    }

    /** `release()`: gives up the restore and hands back the captured flags. */
    method Release() returns (flags: Flags)
      modifies this
      ensures flags == old(oldFlags) && !IsActive()
      ensures region == old(region) && accessor == old(accessor) && oldFlags == old(oldFlags)
    {
      success := false;
      flags := oldFlags;
    }
  }

  /** Every address of `[a, a + n)` that is mapped has the flags of `a`. */
  ghost predicate Uniform(m: Memory, a: nat, n: nat) {
    forall k | a <= k < a + n && k in m.prot :: a in m.prot && m.prot[k] == m.prot[a]
  }

  /** Setting a uniformly protected range to `f` and then back to the flags
      of its first address gives back the original memory. */
  lemma RestoreUniform(m: Memory, a: nat, n: nat, f: Flags)
    requires m.MappedRange(a, n) && n > 0 && Uniform(m, a, n)
    ensures m.SetFlags(a, n, f).SetFlags(a, n, m.prot[a]) == m
  {
    var r := m.SetFlags(a, n, f).SetFlags(a, n, m.prot[a]);
    assert r.prot == m.prot;
  }

  /** A guard that lives for a scope and is neither released nor moved from
      leaves the memory as it found it, whatever the backend, provided the
      range is uniformly protected (the guard restores every page to the
      flags its first page had). */
  method GuardedScope(accessor: DataAccessor, range: Region, flags: Flags)
    requires accessor.Valid() && Uniform(accessor.space.mem, range.start.value, range.size)
    modifies accessor.space
    ensures accessor.Valid()
    ensures accessor.space.mem == old(accessor.space.mem)
  {
    ghost var m0 := accessor.space.mem;
    var guard := new Protect(range, accessor, flags);
    if guard.IsActive() {
      assert guard.oldFlags == m0.prot[range.start.value];
      RestoreUniform(m0, range.start.value, range.size, flags);
    }
    guard.Dispose();
  }

  /** A released guard's disposal changes nothing: the changed protection
      stays in force. */
  method ReleasedScope(accessor: DataAccessor, range: Region, flags: Flags) returns (captured: Flags)
    requires accessor.Valid()
    modifies accessor.space
    ensures accessor.Valid()
    ensures old(accessor.Observed()).ModifyOk(range.start.value, range.size, flags) ==>
      accessor.space.mem == old(accessor.space.mem).SetFlags(range.start.value, range.size, flags)
    ensures !old(accessor.Observed()).ModifyOk(range.start.value, range.size, flags) ==>
      accessor.space.mem == old(accessor.space.mem)
  {
    var guard := new Protect(range, accessor, flags);
    captured := guard.Release();
    guard.Dispose();
  }

  /** Moving a guard hands the pending restore to the new guard: the old one
      is disarmed, so only one restore can happen. */
  method MovedScope(accessor: DataAccessor, range: Region, flags: Flags)
    requires accessor.Valid() && Uniform(accessor.space.mem, range.start.value, range.size)
    modifies accessor.space
    ensures accessor.Valid()
    ensures accessor.space.mem == old(accessor.space.mem)
  {
    ghost var m0 := accessor.space.mem;
    var first := new Protect(range, accessor, flags);
    var second := new Protect.MoveFrom(first);
    assert !first.IsActive();
    first.Dispose();
    if second.IsActive() {
      RestoreUniform(m0, range.start.value, range.size, flags);
    }
    second.Dispose();
  }
}

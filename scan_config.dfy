/** `scan_config`: the address range `[start, end)` to walk, the protection
    flags a region must have exactly, and the streaming block size. The
    source's struct has no `block_size` member although the scanner reads
    one; here it is a field that is always positive. */
module ScanConfig {
  import opened Word
  import opened ProtFlags

  type BlockSize = n: nat | n > 0 witness 1

  /** Block size used when a constructor is not given one. */
  const DefaultBlockSize: BlockSize := 4096

  datatype Config = Config(start: u64, end: u64, flags: Flags, blockSize: BlockSize)

  /** `scan_config(flags, start = nullptr, end = uintptr_t max)`. */
  function FromFlags(flags: Flags, start: u64 := 0, end: u64 := MaxWord,
                     blockSize: BlockSize := DefaultBlockSize): (c: Config)
    ensures c.flags == flags && c.start == start && c.end == end && c.blockSize == blockSize
  {
    Config(start, end, flags, blockSize)
  }

  /** `scan_config(start, end, flags)`. */
  function FromRange(start: u64, end: u64, flags: Flags,
                     blockSize: BlockSize := DefaultBlockSize): (c: Config)
    ensures c.flags == flags && c.start == start && c.end == end && c.blockSize == blockSize
  {
    Config(start, end, flags, blockSize)
  }

  /** With only the flags given, the range is the whole address space from
      null to the largest `uintptr_t`, and the flags are kept verbatim. */
  lemma FlagsOnlyDefaults(flags: Flags)
    ensures FromFlags(flags).start == 0
    ensures FromFlags(flags).end == MaxWord
    ensures FromFlags(flags).flags == flags
    ensures FromFlags(flags) == FromRange(0, MaxWord, flags)
  {
  }
}

/** Plain records shared by the accessors and the scanner. */
module Common {
  import opened Word
  import opened ProtFlags

  /** `region_info`: what a region query reports. */
  datatype RegionInfo = RegionInfo(start: u64, size: u64, flags: Flags)
}

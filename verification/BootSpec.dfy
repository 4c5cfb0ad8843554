/** The memory map the loader hands to the kernel. */
module BootSpec {
  import opened PageTables

  const MMAP_RESERVED := 0
  const MMAP_FREE := 1
  const MMAP_ACPI := 2
  const MMAP_MMIO := 3
  const MMAP_LOADER := 4
  const MMAP_UEFI_RUNTIME := 5
  const MMAP_OTHER := 6

  datatype MmapEntry = MmapEntry(address: Word, size: Word, kind: nat)

  /** The bytes of an entry. */
  predicate Covers(e: MmapEntry, at: nat) { e.address <= at < e.address + e.size }
}

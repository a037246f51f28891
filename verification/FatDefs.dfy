/** Constants and small types shared by the FAT driver model. */
module FatDefs {

  type byte = x: int | 0 <= x < 256

  /** One device block (sector) as the buffer cache holds it. */
  type Block = seq<byte>

  datatype FatBits = Fat12 | Fat16 | Fat32

  /** Error codes the modelled functions return. */
  datatype Errno = EIO | ENOSPC | ENOMEM | EINVAL | ENAMETOOLONG | EEXIST | ENOENT

  datatype Status = Ok | Err(errno: Errno)

  const FAT_START_ENT: int := 2
  const FAT_ENT_FREE: int := 0
  /** The in-memory end-of-chain marker, whatever the table width. */
  const FAT_ENT_EOF: int := 0x0FFF_FFFF

  /** Number of buffers the allocator and the chain release may collect. */
  const MAX_BUF_PER_PAGE: nat := 8

  /** sbi->free_clusters is an unsigned int whose -1 means "unknown". */
  const UINT_RANGE: int := 0x1_0000_0000
  const COUNT_UNKNOWN: int := 0xFFFF_FFFF

  /** First on-disk value that reads as end-of-chain (bad-cluster mark and up). */
  function Bad(bits: FatBits): int {
    match bits
    case Fat12 => 0xFF7
    case Fat16 => 0xFFF7
    case Fat32 => 0x0FFF_FFF7
  }

  /** On-disk end-of-chain mark. */
  function EofMark(bits: FatBits): int {
    match bits
    case Fat12 => 0xFFF
    case Fat16 => 0xFFFF
    case Fat32 => 0x0FFF_FFFF
  }

  /** One more than the largest value an entry can hold. */
  function ValueRange(bits: FatBits): int {
    match bits
    case Fat12 => 0x1000
    case Fat16 => 0x1_0000
    case Fat32 => 0x1000_0000
  }
}

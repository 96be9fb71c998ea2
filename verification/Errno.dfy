/** Error numbers and the marker for no physical address. */
module Errno {
  const EPERM: int := 1
  const ENOMEM: int := 12
  const ENODEV: int := 19
  const EINVAL: int := 22
  const ENOSPC: int := 28

  /** METAL_BAD_PHYS */
  const BAD_PHYS: nat := 0xFFFF_FFFF_FFFF_FFFF
}

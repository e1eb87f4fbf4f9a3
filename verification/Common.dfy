/** What several parts share: page layout constants, integer widths, and optional values. */
module Common {
  const PAGE_SIZE: nat := 4096
  const PAGE_HEADER_SIZE: nat := 16
  const LEAF_ELEMENT_SIZE: nat := 16
  const BRANCH_ELEMENT_SIZE: nat := 16
  const MAX_ALLOCATION: nat := 0x1000
  const UINT32_LIMIT: nat := 0x1_0000_0000

  datatype Option<+T> = None | Some(value: T)
}

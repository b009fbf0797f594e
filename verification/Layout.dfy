/** The address space of mem.h. */
module Layout {
  import opened Words

  const HIGHER_HALF_DATA: Word := 0xFFFF_8000_0000_0000
  const HEAP_START_ADDR: Word := 0xFFFF_9000_0000_0000
  const HIGHER_HALF_CODE: Word := 0xFFFF_FFFF_8000_0000
}

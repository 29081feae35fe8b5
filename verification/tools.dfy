/** Register bit helpers (`add_bits_volatile`, `set_bits_volatile`), as pure functions
    from the register's previous value to the value written back. */
module Tools {

  /** The value `add_bits_volatile` stores: every bit of `bits` is raised and no other
      bit of the register moves. */
  function AddBits(prev: bv32, bits: bv32): (r: bv32)
    ensures r & bits == bits
    ensures r & !bits == prev & !bits
  {
    prev | bits
  }

  /** Raising bits never lowers one. */
  lemma AddBitsNeverClears(prev: bv32, bits: bv32)
    ensures AddBits(prev, bits) & prev == prev
  {
  }

  /** Raising the same bits twice is the same as raising them once. */
  lemma AddBitsIdempotent(prev: bv32, bits: bv32)
    ensures AddBits(AddBits(prev, bits), bits) == AddBits(prev, bits)
  {
  }

  /** The value `set_bits_volatile` stores: the bits under `mask` take their value from
      `val`, the others keep the register's value (plus any bit of `val` outside `mask`,
      which the source assumes away). */
  function SetBits(prev: bv32, mask: bv32, val: bv32): (r: bv32)
    ensures r & mask == val & mask
    ensures r & !mask == (prev | val) & !mask
  {
    (prev & !mask) | val
  }

  /** Under the documented assumption `val & mask == val`, the bits outside the mask
      are untouched and the bits under it read back exactly `val`. */
  lemma SetBitsWithinMask(prev: bv32, mask: bv32, val: bv32)
    requires val & mask == val
    ensures SetBits(prev, mask, val) & mask == val
    ensures SetBits(prev, mask, val) & !mask == prev & !mask
  {
  }

  /** The two worked examples the unit tests check. */
  lemma ToolsExamples()
    ensures AddBits(0x0F, 0x04) == 0x0F
    ensures SetBits(0x0F, 0x35, 0x14) == 0x1E
  {
  }
}

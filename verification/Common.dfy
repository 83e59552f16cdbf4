/** Definitions that several components share. */
module Common {

  const UINT32_RANGE: nat := 0x1_0000_0000
  const UINT64_RANGE: nat := 0x1_0000_0000_0000_0000

  type uint32 = n: nat | n < UINT32_RANGE

  type uint64 = n: nat | n < UINT64_RANGE

  datatype Option<T> = None | Some(value: T)

  function Min(a: nat, b: nat): nat { if a < b then a else b }

  /** The test for a block number outside a volume; the super block is block 2. */
  predicate OutOfVolume(blocks: nat, block: int) { block < 2 || block > blocks }

  lemma Product(a: nat, b: nat, c: nat)
    requires a <= b
    ensures a * c <= b * c
  {
  }
}

/**
 * A disk cursor as the block drivers keep it: a byte position split into a
 * sector number and an offset inside that sector.
 */
module DiskPosition {

  const SECTOR_SIZE: nat := 512

  datatype Cursor = Cursor(sector: nat, offset: nat)

  /** The byte position a cursor stands for. */
  function Join(c: Cursor): nat
  {
    c.sector * SECTOR_SIZE + c.offset
  }

  /** Splits a byte position into its sector and the offset inside it. */
  function Split(position: nat): (c: Cursor)
    ensures Join(c) == position
    ensures c.offset < SECTOR_SIZE
  {
    Cursor(position / SECTOR_SIZE, position % SECTOR_SIZE)
  }

  /** A cursor whose offset lies inside its sector is recovered from its position. */
  lemma {:induction false} SplitJoin(c: Cursor)
    requires c.offset < SECTOR_SIZE
    ensures Split(Join(c)) == c
  {
  }
}

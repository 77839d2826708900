/**
 * The RISC-V virtio block driver's cursor. The device itself is a foreign
 * driver; here it is its contents, `disk`, a whole number of sectors.
 */
module VirtDisk {
  import opened Wrappers
  import opened DiskPosition

  class VirtioDisk {
    var sector: nat
    var offset: nat
    var disk: seq<byte>

    ghost predicate Valid()
      reads this
    {
      offset < SECTOR_SIZE && |disk| % SECTOR_SIZE == 0
    }

    /** A new driver starts at position 0. */
    constructor (disk: seq<byte>)
      requires |disk| % SECTOR_SIZE == 0
      ensures Valid() && this.disk == disk
      ensures sector == 0 && offset == 0 && GetPosition() == 0
    {
      this.disk := disk;
      sector, offset := 0, 0;
    }

    /** The byte position of the cursor; setting it back gives the same sector and offset. */
    function GetPosition(): (p: nat)
      reads this
      ensures p == sector * SECTOR_SIZE + offset
      ensures offset < SECTOR_SIZE ==> Split(p) == Cursor(sector, offset)
    {
      if offset < SECTOR_SIZE then
        SplitJoin(Cursor(sector, offset));
        Join(Cursor(sector, offset))
      else
        Join(Cursor(sector, offset))
    }

    method SetPosition(position: nat)
      modifies this
      ensures Valid() == old(|disk| % SECTOR_SIZE == 0) && disk == old(disk)
      ensures GetPosition() == position && offset < SECTOR_SIZE
    {
      var c := Split(position);
      sector, offset := c.sector, c.offset;
    }

    method MoveCursor(amount: nat)
      modifies this
      ensures Valid() == old(|disk| % SECTOR_SIZE == 0) && disk == old(disk)
      ensures GetPosition() == old(GetPosition()) + amount
    {
      SetPosition(GetPosition() + amount);
    }

    /**
     * Reads whole sectors from the current sector into `dest`; the device must
     * hold them (the driver panics when the device refuses).
     */
    method ReadBlocks(dest: array<byte>)
      requires Valid() && dest.Length % SECTOR_SIZE == 0
      requires sector * SECTOR_SIZE + dest.Length <= |disk|
      modifies dest
      ensures dest[..] == disk[sector * SECTOR_SIZE..sector * SECTOR_SIZE + dest.Length]
    {
      var base := sector * SECTOR_SIZE;
      forall i | 0 <= i < dest.Length {
        dest[i] := disk[base + i];
      }
    }

    /** Writes whole sectors from `data` at the current sector. */
    method WriteBlocks(data: seq<byte>)
      requires Valid() && |data| % SECTOR_SIZE == 0
      requires sector * SECTOR_SIZE + |data| <= |disk|
      modifies this
      ensures Valid() && sector == old(sector) && offset == old(offset)
      ensures disk == old(disk[..sector * SECTOR_SIZE]) + data + old(disk[sector * SECTOR_SIZE + |data|..])
    {
      var base := sector * SECTOR_SIZE;
      disk := disk[..base] + data + disk[base + |data|..];
    }
  }
}

/**
 * The LoongArch virtio block driver's cursor. Unlike the RISC-V driver it
 * ignores reads and writes whose current sector is past the device's capacity.
 */
module LoongArchDisk {
  import opened Wrappers
  import opened DiskPosition

  class VirtioDisk {
    var sector: nat
    var offset: nat
    var disk: seq<byte>

    /** The device's capacity in sectors. */
    function Capacity(): nat
      reads this
    {
      |disk| / SECTOR_SIZE
    }

    ghost predicate Valid()
      reads this
    {
      offset < SECTOR_SIZE && |disk| % SECTOR_SIZE == 0
    }

    /** A new driver starts at sector 0, offset 0. */
    constructor (disk: seq<byte>)
      requires |disk| % SECTOR_SIZE == 0
      ensures Valid() && this.disk == disk
      ensures sector == 0 && offset == 0
    {
      this.disk := disk;
      sector, offset := 0, 0;
    }

    /** The byte position of the cursor; setting it back gives the same sector and offset. */
    function GetPosition(): (p: nat)
      reads this
      ensures p == sector * SECTOR_SIZE + offset
      ensures offset < SECTOR_SIZE ==> Split(p) == Cursor(sector, offset)
    {
      if offset < SECTOR_SIZE then
        SplitJoin(Cursor(sector, offset));
        Join(Cursor(sector, offset))
      else
        Join(Cursor(sector, offset))
    }

    method SetPosition(position: nat)
      modifies this
      ensures Valid() == old(|disk| % SECTOR_SIZE == 0) && disk == old(disk)
      ensures GetPosition() == position && offset < SECTOR_SIZE
    {
      var c := Split(position);
      sector, offset := c.sector, c.offset;
    }

    /**
     * Reads whole sectors from the current sector into `dest`, or does nothing
     * when the current sector is at or past the capacity.
     */
    method ReadBlocks(dest: array<byte>)
      requires Valid() && dest.Length % SECTOR_SIZE == 0
      requires sector < Capacity() ==> sector * SECTOR_SIZE + dest.Length <= |disk|
      modifies dest
      ensures sector >= Capacity() ==> dest[..] == old(dest[..])
      ensures sector < Capacity() ==>
        dest[..] == disk[sector * SECTOR_SIZE..sector * SECTOR_SIZE + dest.Length]
    {
      if sector >= Capacity() {
        return;
      }
      var base := sector * SECTOR_SIZE;
      forall i | 0 <= i < dest.Length {
        dest[i] := disk[base + i];
      }
    }

    /**
     * Writes whole sectors from `data` at the current sector, or does nothing
     * when the current sector is at or past the capacity.
     */
    method WriteBlocks(data: seq<byte>)
      requires Valid() && |data| % SECTOR_SIZE == 0
      requires sector < Capacity() ==> sector * SECTOR_SIZE + |data| <= |disk|
      modifies this
      ensures Valid() && sector == old(sector) && offset == old(offset)
      ensures old(sector) >= old(Capacity()) ==> disk == old(disk)
      ensures old(sector) < old(Capacity()) ==>
        disk == old(disk[..sector * SECTOR_SIZE]) + data + old(disk[sector * SECTOR_SIZE + |data|..])
    {
      if sector >= Capacity() {
        return;
      }
      var base := sector * SECTOR_SIZE;
      disk := disk[..base] + data + disk[base + |data|..];
    }
  }
}
